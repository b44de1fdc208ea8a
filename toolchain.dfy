/**
  `compile_with_as`: writes a one-instruction assembly source, picks the
  architecture string and linker emulation from the two mode flags, and runs
  the assembler, the linker and `objcopy -O binary` in turn. The three
  external programs are one oracle from (source text, configuration) to the
  bytes they produce or the stage that failed.
 */
module Toolchain {
  import opened Wrappers
  import opened Hex
  import opened PyText

  /** The `-march=` value given to the assembler and the `-m` emulation given
      to the linker. */
  datatype ArchConfig = ArchConfig(arch: string, emulation: string)

  datatype ArchChoice = Selected(config: ArchConfig) | UnknownArchitecture

  /** The architecture branch: the 64-bit flag wins over the 32-bit one, and
      with neither set the call raises `ValueError`. A configuration is chosen
      exactly when some flag is set; its architecture string is a base ISA
      followed by the extensions, and the width it names is the linker
      emulation's width, 64 whenever the 64-bit flag is set. */
  function SelectArch(is64bit: bool, is32bit: bool, extensions: string): (r: ArchChoice)
    ensures r.Selected? <==> is64bit || is32bit
    ensures r.Selected? ==>
      |r.config.arch| == 5 + |extensions| && r.config.arch[..5] in {"rv32i", "rv64i"}
      && r.config.arch[5..] == extensions
      && |r.config.emulation| == 11 && r.config.arch[2..4] == r.config.emulation[3..5]
      && r.config.arch[2..4] == (if is64bit then "64" else "32")
  {
    if is64bit then Selected(ArchConfig("rv64i" + extensions, "elf64lriscv"))
    else if is32bit then Selected(ArchConfig("rv32i" + extensions, "elf32lriscv"))
    else UnknownArchitecture
  }

  /** The target width as one value, which is what the required, mutually
      exclusive `--rv32`/`--rv64` option group guarantees. */
  datatype Mode = RV32 | RV64

  /** The flags `args.rv64, args.rv32` that the command line yields for a mode. */
  function Flags(m: Mode): (bool, bool) {
    (m == RV64, m == RV32)
  }

  function BaseIsa(m: Mode): string {
    match m
    case RV32 => "rv32i"
    case RV64 => "rv64i"
  }

  function Emulation(m: Mode): string {
    match m
    case RV32 => "elf32lriscv"
    case RV64 => "elf64lriscv"
  }

  /** Under a valid command line the architecture branch never raises, and it
      selects the base ISA and emulation of the chosen width. */
  lemma SelectArchOfMode(m: Mode, extensions: string)
    ensures SelectArch(Flags(m).0, Flags(m).1, extensions)
            == Selected(ArchConfig(BaseIsa(m) + extensions, Emulation(m)))
  {
  }

  /** The text written to `test.s`: it adds exactly three newlines to those
      of the instruction, and ends with one, so a one-line instruction gives
      a file of three lines. */
  function SourceText(asm: string): (src: string)
    ensures Count(src, '\n') == Count(asm, '\n') + 3
    ensures src[|src| - 1] == '\n'
  {
    SourceCount(asm);
    ".global _start\n" + "_start:\n" + asm + "\n"
  }

  lemma SourceCount(asm: string)
    ensures Count(".global _start\n" + "_start:\n" + asm + "\n", '\n') == Count(asm, '\n') + 3
  {
    var p := ".global _start\n" + "_start:\n";
    PrologueCount();
    CountAppend(p, asm, '\n');
    CountAppend(p + asm, "\n", '\n');
    assert Count("\n", '\n') == 1;
  }

  lemma PrologueCount()
    ensures Count(".global _start\n" + "_start:\n", '\n') == 2
  {
    LineCount(".global _start");
    LineCount("_start:");
    assert ".global _start" + "\n" == ".global _start\n";
    assert "_start:" + "\n" == "_start:\n";
    CountAppend(".global _start\n", "_start:\n", '\n');
  }

  lemma LineCount(l: string)
    requires '\n' !in l
    ensures Count(l + "\n", '\n') == 1
  {
    CountZero(l, '\n');
    CountAppend(l, "\n", '\n');
    assert Count("\n", '\n') == 1;
  }

  /** For a one-line instruction, the source file reads back as exactly three
      lines: the global directive, the entry label, and the instruction. */
  lemma SourceLines(asm: string)
    requires '\n' !in asm
    ensures FileLines(SourceText(asm)) == [".global _start\n", "_start:\n", asm + "\n"]
  {
    var lines := [".global _start\n", "_start:\n", asm + "\n"];
    assert (asm + "\n")[..|asm|] == asm;
    assert Concat(lines[2..]) == asm + "\n";
    assert Concat(lines) == SourceText(asm);
    FileLinesConcat(lines);
  }

  /** What the three external programs do with one source file. A failing
      `as` carries the error output it captured; `ld` and `objcopy` run
      without capturing, so their errors carry none. */
  datatype ToolOutcome = Binary(data: seq<Byte>) | AssembleFailed(stderr: string) | LinkFailed | ExtractFailed

  type Tools = (string, ArchConfig) -> ToolOutcome

  /** Result of `compile_with_as`: the machine code, a `CalledProcessError`
      with its `stderr` (`None` when it was not captured), or `ValueError`. */
  datatype CompileResult = Machine(data: seq<Byte>) | CalledProcessError(stderr: Option<string>) | ValueError

  /** `ValueError` exactly when neither flag is set; otherwise the bytes are
      exactly what the toolchain built from this instruction's source under
      the selected configuration, and every toolchain failure is a
      `CalledProcessError` whose `stderr` is present exactly when `as` failed
      and is then its captured output. */
  function CompileWithAs(asm: string, extensions: string, is64bit: bool, is32bit: bool, run: Tools): (r: CompileResult)
    ensures r.ValueError? <==> !is64bit && !is32bit
    ensures !r.ValueError? ==>
      var built := run(SourceText(asm), SelectArch(is64bit, is32bit, extensions).config);
      (r.Machine? <==> built.Binary?)
      && (r.Machine? ==> r.data == built.data)
      && (r.CalledProcessError? ==> (r.stderr.Some? <==> built.AssembleFailed?))
      && (built.AssembleFailed? ==> r == CalledProcessError(Some(built.stderr)))
  {
    match SelectArch(is64bit, is32bit, extensions)
    case UnknownArchitecture => ValueError
    case Selected(config) =>
      match run(SourceText(asm), config)
      case Binary(data) => Machine(data)
      case AssembleFailed(stderr) => CalledProcessError(Some(stderr))
      case LinkFailed => CalledProcessError(None)
      case ExtractFailed => CalledProcessError(None)
  }
}
