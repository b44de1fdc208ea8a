# riscv_compile_tests, modelled in Dafny

`tools/riscv_compile_tests.py` builds the reference corpus for dynasm-rs's
RISC-V assembler tests. It reads a listing of test cases, one
`dynasm<TAB>gas<TAB>extensions` line each. It assembles each GNU-syntax
instruction with `as`, links the result with `ld` and extracts the machine
code with `objcopy -O binary`. Then it writes one
`dynasm<TAB>gas<TAB>extensions<TAB>hex` line for every case the toolchain
accepted.

This project models that script as Dafny and proves what the script
guarantees. It is split into these modules:

- **PyText** (`text.dfy`): the Python string operations the script relies
  on. These are `str.strip()` (over the full `str.isspace()` character
  set), `str.split('\t')`, and the way a text file yields its lines.
- **Hex** (`hex.dfy`): `binascii.hexlify`, and `binascii.unhexlify` as its
  inverse. The script itself never decodes; the decoder is there to state
  that the written hexadecimal round-trips to the machine code.
- **RecordParser** (`parser.dfy`): `read_test_strings`, modelled as a loop
  (`ReadTestStrings`) that is proved against the specification function
  `ParseLines`.
- **Toolchain** (`toolchain.dfy`): `compile_with_as`. It covers the
  architecture choice, the exact text of `test.s`, and how `as`, `ld` and
  `objcopy` failures are reported. The three programs are modelled as an
  oracle `run: (source text, ArchConfig) -> ToolOutcome`.
- **CorpusWriter** (`writer.dfy`): `write_result`, modelled as a loop
  (`WriteResult`) that is proved against `Serialize`. This module also
  proves that a written line reads back as its record and bytes.
- **Driver** (`driver.dfy`): the compile loop of `main`
  (`CompileTests`, proved against `CompileAll`/`FailureLog`) and the whole
  run (`Run`, proved against `Pipeline`/`Messages`).
- **Wrappers** (`wrappers.dfy`): the `Option` type.

A failing `objcopy` does not end the run. It runs with `check=True`
(line 40), so it raises `CalledProcessError`, which `main` catches at
line 72 like any other toolchain failure. The record is dropped, the
diagnostic is printed, and the run goes on. `ld` and `objcopy` do not
capture their output, so for them `e.stderr` is `None` and the diagnostic
prints `None`.

## Model

| member | source | states |
|---|---|---|
| PyText.StripStartSuffix | tools/riscv_compile_tests.py:18 | stripping the front removes a prefix made only of whitespace and leaves a suffix that starts with a non-space |
| PyText.StripEndPrefix | tools/riscv_compile_tests.py:18 | stripping the end removes a suffix made only of whitespace and leaves a prefix that ends with a non-space |
| PyText.Strip | tools/riscv_compile_tests.py:18 | the stripped field has no whitespace at either end |
| PyText.StripSlice | tools/riscv_compile_tests.py:18 | the stripped field is a contiguous slice of the original with only whitespace on either side |
| PyText.StripSurrounded | tools/riscv_compile_tests.py:18 | strip removes exactly the surrounding whitespace: `strip(a + t + b) == t` for whitespace `a`, `b` and trimmed `t` |
| PyText.StripInterior | tools/riscv_compile_tests.py:18 | a whitespace character that occurs in a line only as its last character (the newline) is gone after strip |
| PyText.StripIdempotent | tools/riscv_compile_tests.py:18 | stripping twice is stripping once |
| PyText.CountZero | tools/riscv_compile_tests.py:15 | a line has no tab exactly when its tab count is zero (the `not "\t" in line` test) |
| PyText.Split | tools/riscv_compile_tests.py:17 | `split('\t')` gives one more piece than there are tabs, and no piece holds a tab |
| PyText.JoinSplit | tools/riscv_compile_tests.py:17 | joining the pieces with tabs gives back the line |
| PyText.SplitAtSeparator | tools/riscv_compile_tests.py:17 | a tab-free prefix followed by a tab splits off as the first piece |
| PyText.SplitJoin | tools/riscv_compile_tests.py:17 | tab-free pieces joined by tabs split back into exactly those pieces |
| PyText.FileLines | tools/riscv_compile_tests.py:13 | iterating a text file yields non-empty lines, each holding at most one newline, at its end, and every line but the last ends with a newline |
| PyText.ConcatFileLines | tools/riscv_compile_tests.py:13 | the lines of a file concatenate back to the whole text |
| PyText.FileLinesConcat | tools/riscv_compile_tests.py:13 | newline-terminated lines, written one after another, are read back as exactly those lines |
| Hex.HexDigit | tools/riscv_compile_tests.py:49 | each nibble is written as a lowercase hexadecimal digit |
| Hex.DigitValue | tools/riscv_compile_tests.py:49 | reading a digit gives a nibble value, and reading a written digit gives back its nibble |
| Hex.Hexlify | tools/riscv_compile_tests.py:49 | `hexlify` output is twice as long as the bytes and is lowercase hexadecimal |
| Hex.Unhexlify | tools/riscv_compile_tests.py:49 | the decoder a reader of the corpus applies to line 49's output (the script itself never decodes): a successful decode gives half as many bytes as there are digits |
| Hex.HexlifyAt | tools/riscv_compile_tests.py:49 | byte `k` is spelled at positions `2k` (high nibble) and `2k+1` (low nibble) |
| Hex.UnhexlifyHexlify | tools/riscv_compile_tests.py:49 | decoding the hexadecimal text gives back the original bytes |
| Hex.HexlifyUnhexlify | tools/riscv_compile_tests.py:49 | every even-length lowercase hexadecimal text decodes, and it is the encoding of what it decodes to |
| RecordParser.ParseLine | tools/riscv_compile_tests.py:14-18 | an empty line is skipped; a non-empty line fails to unpack exactly when it does not hold exactly two tabs, and the error counts tabs + 1 pieces |
| RecordParser.ParseFields | tools/riscv_compile_tests.py:17-18 | a line of three tab-free fields is stored as those three fields, stripped |
| RecordParser.FieldsOfLine | tools/riscv_compile_tests.py:17-18 | every stored record comes from a line `a\tb\tc` with tab-free `a`, `b`, `c`, stored as their stripped forms |
| RecordParser.ParsedRecordClean | tools/riscv_compile_tests.py:13-18 | a record parsed from a file line has no tab, no newline and no surrounding whitespace in any field |
| RecordParser.FailureIsFinal | tools/riscv_compile_tests.py:17 | after an unpacking error, later lines change neither the outcome nor the warnings |
| RecordParser.ReadTestStrings | tools/riscv_compile_tests.py:11-20 | the loop returns exactly the specified outcome and the specified warning lines |
| RecordParser.ParseLinesFailure | tools/riscv_compile_tests.py:13-18 | the read fails exactly when some line cannot be unpacked, and then it reports the first such line and its piece count |
| RecordParser.ParseLinesRecords | tools/riscv_compile_tests.py:12-20 | with no empty lines, a successful read gives one record per line, in order, each the record its own line parses to |
| RecordParser.ParsedRecordsClean | tools/riscv_compile_tests.py:13-18 | every record read from the lines of a file has clean fields |
| RecordParser.EchoedIsFailingLine | tools/riscv_compile_tests.py:15-17 | the only line ever echoed is the failing line, and only when it has no tab |
| Toolchain.SelectArch | tools/riscv_compile_tests.py:29-36 | an architecture is chosen exactly when a flag is set; it is `rv32i`/`rv64i` followed by the extensions, its width matches the linker emulation, and it is 64-bit whenever the 64-bit flag is set |
| Toolchain.SelectArchOfMode | tools/riscv_compile_tests.py:29-36 | under either value of the required `--rv32`/`--rv64` group, the choice is that width's base ISA plus the extensions, with that width's emulation |
| Toolchain.SourceText | tools/riscv_compile_tests.py:23-27 | `test.s` adds exactly three newlines to those of the instruction and ends with a newline, so a one-line instruction gives a three-line file |
| Toolchain.SourceLines | tools/riscv_compile_tests.py:23-27 | for a one-line instruction, `test.s` reads back as exactly the three lines `.global _start`, `_start:` and the instruction |
| Toolchain.CompileWithAs | tools/riscv_compile_tests.py:22-45 | `ValueError` exactly when neither flag is set; otherwise the bytes are what the toolchain built from this instruction's source under the selected configuration, and every tool failure is a `CalledProcessError` whose `stderr` is present exactly when `as` failed, and is then its captured output |
| CorpusWriter.WriteResult | tools/riscv_compile_tests.py:47-50 | the loop writes exactly the specified serialisation of the buffer |
| CorpusWriter.HexTrimmed | tools/riscv_compile_tests.py:49 | the hexadecimal field has no tab, no newline and no surrounding whitespace |
| CorpusWriter.FormatLine | tools/riscv_compile_tests.py:50 | a record with clean fields is written as one line whose only newline is its last character |
| CorpusWriter.FormatLineSplit | tools/riscv_compile_tests.py:50 | a written line splits on tabs into the three fields and the hexadecimal code with its newline |
| CorpusWriter.ReadBackFormatLine | tools/riscv_compile_tests.py:48-50 | reading a written line back gives the record and its exact bytes |
| CorpusWriter.ReparseFields | tools/riscv_compile_tests.py:50 | the first three fields of a written line, read as an input line, parse back to the record |
| CorpusWriter.FormatLineRejected | tools/riscv_compile_tests.py:50 | a whole written line has four fields, so `read_test_strings` rejects it with a four-piece unpacking error |
| CorpusWriter.Lines | tools/riscv_compile_tests.py:47-50 | one written line per buffered record, in buffer order |
| CorpusWriter.SerializeIsConcat | tools/riscv_compile_tests.py:47-50 | the written text is the written lines concatenated |
| CorpusWriter.WrittenLines | tools/riscv_compile_tests.py:47-50 | reading the written file gives back exactly one line per record |
| CorpusWriter.ReadBackCorpus | tools/riscv_compile_tests.py:47-50 | the written corpus has one line per record, and each line reads back as that record with its bytes |
| Driver.Diagnostic | tools/riscv_compile_tests.py:73 | the message names the instruction and its extensions, and ends with the captured error output, or `None` when nothing was captured |
| Driver.ArchitectureErrorIsFinal | tools/riscv_compile_tests.py:68-72 | once `ValueError` escapes, no later record is compiled or logged |
| Driver.CompileTests | tools/riscv_compile_tests.py:67-73 | the loop returns exactly the specified kept records (or the fatal error) and the specified diagnostics |
| Driver.ArchitectureErrorIff | tools/riscv_compile_tests.py:29-36 | the run aborts with `ValueError` exactly when neither flag is set and there is at least one record |
| Driver.KeptIndices | tools/riscv_compile_tests.py:67-73 | the kept positions are in range, strictly increasing, and hold exactly the records that compiled |
| Driver.KeptSubsequence | tools/riscv_compile_tests.py:67-73 | the buffer is the compiled records in input order, each paired with the bytes the toolchain built for it |
| Driver.KeptAtMostInput | tools/riscv_compile_tests.py:67-73 | the buffer never holds more records than the input |
| Driver.FailedIndices | tools/riscv_compile_tests.py:67-73 | the rejected positions are in range, strictly increasing, and hold exactly the records whose compilation raised `CalledProcessError` |
| Driver.FailureLogReports | tools/riscv_compile_tests.py:72-73 | the diagnostics are one per rejected record, in input order, each naming that record and carrying its failure's error output |
| Driver.EveryRecordAccounted | tools/riscv_compile_tests.py:67-73 | when the loop completes, every input position is either kept or reported by a diagnostic, never both, so the two counts add up to the number of records |
| Driver.Run | tools/riscv_compile_tests.py:64-76 | the run returns exactly the specified outcome and printed messages |
| Driver.ValidFlagsNeverAbort | tools/riscv_compile_tests.py:53-56 | with a command line that argparse accepts, the run never raises `ValueError` |
| Driver.PipelineOutput | tools/riscv_compile_tests.py:64-76 | every input line is a record, the output has one line per compiled record and no more lines than the input, and each output line reads back as its input record with its built bytes |

## Left out

- File I/O: opening the input and output files and the temporary files `test.s`, `test.o`, `test.elf` and `test.bin`. The input is the file's text, and the output is the written text.
- `OSError` from the file operations, including a missing `test.bin`, and `FileNotFoundError` from `subprocess.run` when `as`, `ld` or `objcopy` is not installed. Each of these ends the run, and none is modelled; the oracle stands only for programs that run.
- The internals of `as`, `ld` and `objcopy`, and the RISC-V encodings they produce. The toolchain is an oracle parameter that maps the source text and the configuration to bytes or a failed stage.
- Toolchain.CompileWithAs: the defaults `is_64bit=True, is_32bit=False` of `compile_with_as` are not modelled, because its only caller, `main`, always passes both flags.
- Argument parsing with argparse, including its usage errors. Only its guarantee that exactly one of `--rv32` and `--rv64` is set is modelled, as `Mode`/`Flags`.
- The exact text printed. `print` appends a newline, and a captured `stderr` is a bytes object whose `repr` is printed. Messages are modelled as strings, and captured error output as an uninterpreted string.
- Newline translation in text mode. Reading turns `\r\n` and a lone `\r` into `\n`, and writing turns `\n` into `os.linesep`. `FileLines` takes the text after reading translates it, and `Serialize` gives the text before writing translates it.
- UTF-8 encoding and decoding, and their errors. Text is a sequence of characters.
