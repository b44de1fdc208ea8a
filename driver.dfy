/**
  `main`: reads the listing, compiles every record in order, keeps those the
  toolchain built and logs the others, then writes the corpus. A
  `CalledProcessError` is caught per record; any other exception, such as the
  `ValueError` of `compile_with_as`, ends the run.
 */
module Driver {
  import opened Wrappers
  import opened PyText
  import opened Hex
  import opened RecordParser
  import opened Toolchain
  import opened CorpusWriter

  /** The message printed for a record the toolchain rejected: it names the
      instruction and its extensions, and ends with the captured error output,
      or `None` when nothing was captured. */
  function Diagnostic(gas: string, extensions: string, stderr: Option<string>): (m: string)
    ensures |m| >= 14 + |gas| + |extensions| && m[..9] == "Error at " && m[9..9 + |gas|] == gas
    ensures m[11 + |gas|..11 + |gas| + |extensions|] == extensions
    ensures stderr.Some? ==> |m| >= 14 + |gas| + |extensions| + |stderr.value| && m[|m| - |stderr.value|..] == stderr.value
    ensures stderr.None? ==> m[|m| - 4..] == "None"
  {
    "Error at " + gas + " (" + extensions + "):\n" + (match stderr case Some(e) => e case None => "None")
  }

  datatype DriverOutcome = Compiled(buf: seq<CompiledRecord>) | ArchitectureError

  /** The compile loop over the first `|tests|` records. */
  function CompileAll(tests: seq<TestRecord>, is64bit: bool, is32bit: bool, run: Tools): DriverOutcome {
    if tests == [] then Compiled([])
    else
      var n := |tests| - 1;
      match CompileAll(tests[..n], is64bit, is32bit, run)
      case ArchitectureError => ArchitectureError
      case Compiled(buf) =>
        match CompileWithAs(tests[n].gas, tests[n].extensions, is64bit, is32bit, run)
        case Machine(data) => Compiled(buf + [CompiledRecord(tests[n], data)])
        case CalledProcessError(_) => Compiled(buf)
        case ValueError => ArchitectureError
  }

  /** The diagnostics printed by the compile loop over the first `|tests|` records. */
  function FailureLog(tests: seq<TestRecord>, is64bit: bool, is32bit: bool, run: Tools): seq<string> {
    if tests == [] then []
    else
      var n := |tests| - 1;
      if CompileAll(tests[..n], is64bit, is32bit, run).ArchitectureError? then FailureLog(tests[..n], is64bit, is32bit, run)
      else
        match CompileWithAs(tests[n].gas, tests[n].extensions, is64bit, is32bit, run)
        case CalledProcessError(stderr) =>
          FailureLog(tests[..n], is64bit, is32bit, run) + [Diagnostic(tests[n].gas, tests[n].extensions, stderr)]
        case _ => FailureLog(tests[..n], is64bit, is32bit, run)
  }

  /** Once `ValueError` is raised, the remaining records are never looked at. */
  lemma {:induction false} ArchitectureErrorIsFinal(tests: seq<TestRecord>, n: nat, is64bit: bool, is32bit: bool, run: Tools)
    requires n <= |tests| && CompileAll(tests[..n], is64bit, is32bit, run).ArchitectureError?
    ensures CompileAll(tests, is64bit, is32bit, run) == ArchitectureError
    ensures FailureLog(tests, is64bit, is32bit, run) == FailureLog(tests[..n], is64bit, is32bit, run)
    decreases |tests| - n
  {
    if n < |tests| {
      var m := |tests| - 1;
      assert tests[..m][..n] == tests[..n];
      ArchitectureErrorIsFinal(tests[..m], n, is64bit, is32bit, run);
    } else {
      assert tests[..n] == tests;
    }
  }

  method CompileTests(tests: seq<TestRecord>, is64bit: bool, is32bit: bool, run: Tools)
    returns (outcome: DriverOutcome, log: seq<string>)
    ensures outcome == CompileAll(tests, is64bit, is32bit, run)
    ensures log == FailureLog(tests, is64bit, is32bit, run)
  {
    var buf: seq<CompiledRecord> := [];
    log := [];
    for i := 0 to |tests|
      invariant CompileAll(tests[..i], is64bit, is32bit, run) == Compiled(buf)
      invariant log == FailureLog(tests[..i], is64bit, is32bit, run)
    {
      assert tests[..i + 1][..i] == tests[..i];
      var t := tests[i];
      var result := CompileWithAs(t.gas, t.extensions, is64bit, is32bit, run);
      match result
      case Machine(binary) =>
        buf := buf + [CompiledRecord(t, binary)];
      case CalledProcessError(stderr) =>
        log := log + [Diagnostic(t.gas, t.extensions, stderr)];
      case ValueError =>
        outcome := ArchitectureError;
        ArchitectureErrorIsFinal(tests, i + 1, is64bit, is32bit, run);
        return;
    }
    assert tests[..|tests|] == tests;
    outcome := Compiled(buf);
  }

  /** The run aborts with `ValueError` exactly when neither flag is set and
      there is at least one record to compile. */
  lemma {:induction false} ArchitectureErrorIff(tests: seq<TestRecord>, is64bit: bool, is32bit: bool, run: Tools)
    ensures CompileAll(tests, is64bit, is32bit, run).ArchitectureError? <==> !is64bit && !is32bit && |tests| > 0
  {
    if tests != [] {
      ArchitectureErrorIff(tests[..|tests| - 1], is64bit, is32bit, run);
    }
  }

  predicate Compiles(t: TestRecord, is64bit: bool, is32bit: bool, run: Tools) {
    CompileWithAs(t.gas, t.extensions, is64bit, is32bit, run).Machine?
  }

  lemma PrefixAt(tests: seq<TestRecord>, n: nat)
    requires n <= |tests|
    ensures forall i :: 0 <= i < n ==> tests[..n][i] == tests[i]
  {
  }

  /** Input positions of the records that compile, in increasing order. */
  function KeptIndices(tests: seq<TestRecord>, is64bit: bool, is32bit: bool, run: Tools): (idx: seq<nat>)
    ensures forall k :: 0 <= k < |idx| ==> idx[k] < |tests|
    ensures forall k, l :: 0 <= k < l < |idx| ==> idx[k] < idx[l]
    ensures forall i :: 0 <= i < |tests| ==> (Compiles(tests[i], is64bit, is32bit, run) <==> i in idx)
  {
    if tests == [] then []
    else
      var n := |tests| - 1;
      var prev := KeptIndices(tests[..n], is64bit, is32bit, run);
      PrefixAt(tests, n);
      if Compiles(tests[n], is64bit, is32bit, run) then prev + [n] else prev
  }

  /** The kept records are the subsequence of the input that compiled, in
      input order, each paired with the bytes the toolchain produced for it:
      the `k`-th kept record is the input record at `KeptIndices(...)[k]`. */
  lemma {:induction false} KeptSubsequence(tests: seq<TestRecord>, is64bit: bool, is32bit: bool, run: Tools)
    requires CompileAll(tests, is64bit, is32bit, run).Compiled?
    ensures |CompileAll(tests, is64bit, is32bit, run).buf| == |KeptIndices(tests, is64bit, is32bit, run)|
    ensures forall k :: 0 <= k < |CompileAll(tests, is64bit, is32bit, run).buf| ==>
      var i := KeptIndices(tests, is64bit, is32bit, run)[k];
      var c := CompileAll(tests, is64bit, is32bit, run).buf[k];
      c.record == tests[i] && CompileWithAs(tests[i].gas, tests[i].extensions, is64bit, is32bit, run) == Machine(c.binary)
  {
    if tests != [] {
      var n := |tests| - 1;
      var init := tests[..n];
      assert CompileAll(init, is64bit, is32bit, run).Compiled?;
      KeptSubsequence(init, is64bit, is32bit, run);
      var prev := KeptIndices(init, is64bit, is32bit, run);
      var before := CompileAll(init, is64bit, is32bit, run).buf;
      var buf := CompileAll(tests, is64bit, is32bit, run).buf;
      forall k | 0 <= k < |prev| ensures init[prev[k]] == tests[prev[k]] { }
      var r := CompileWithAs(tests[n].gas, tests[n].extensions, is64bit, is32bit, run);
      if r.Machine? {
        assert buf == before + [CompiledRecord(tests[n], r.data)];
      } else {
        assert buf == before;
      }
    }
  }

  /** Hence the output never holds more records than the input. */
  lemma KeptAtMostInput(tests: seq<TestRecord>, is64bit: bool, is32bit: bool, run: Tools)
    requires CompileAll(tests, is64bit, is32bit, run).Compiled?
    ensures |CompileAll(tests, is64bit, is32bit, run).buf| <= |tests|
  {
    KeptSubsequence(tests, is64bit, is32bit, run);
    IncreasingBound(KeptIndices(tests, is64bit, is32bit, run), |tests|);
  }

  lemma {:induction false} IncreasingBound(idx: seq<nat>, n: nat)
    requires forall k :: 0 <= k < |idx| ==> idx[k] < n
    requires forall k, l :: 0 <= k < l < |idx| ==> idx[k] < idx[l]
    ensures |idx| <= n
  {
    if idx != [] {
      var m := |idx| - 1;
      assert forall k :: 0 <= k < m ==> idx[..m][k] < idx[m];
      IncreasingBound(idx[..m], idx[m]);
    }
  }

  predicate Fails(t: TestRecord, is64bit: bool, is32bit: bool, run: Tools) {
    CompileWithAs(t.gas, t.extensions, is64bit, is32bit, run).CalledProcessError?
  }

  /** Input positions of the records the toolchain rejected, in increasing order. */
  function FailedIndices(tests: seq<TestRecord>, is64bit: bool, is32bit: bool, run: Tools): (idx: seq<nat>)
    ensures forall k :: 0 <= k < |idx| ==> idx[k] < |tests|
    ensures forall k, l :: 0 <= k < l < |idx| ==> idx[k] < idx[l]
    ensures forall i :: 0 <= i < |tests| ==> (Fails(tests[i], is64bit, is32bit, run) <==> i in idx)
  {
    if tests == [] then []
    else
      var n := |tests| - 1;
      var prev := FailedIndices(tests[..n], is64bit, is32bit, run);
      PrefixAt(tests, n);
      if Fails(tests[n], is64bit, is32bit, run) then prev + [n] else prev
  }

  /** The diagnostics are one per rejected record, in input order, each
      naming that record and carrying the error output of its failure. */
  lemma {:induction false} FailureLogReports(tests: seq<TestRecord>, is64bit: bool, is32bit: bool, run: Tools)
    requires CompileAll(tests, is64bit, is32bit, run).Compiled?
    ensures |FailureLog(tests, is64bit, is32bit, run)| == |FailedIndices(tests, is64bit, is32bit, run)|
    ensures forall j :: 0 <= j < |FailureLog(tests, is64bit, is32bit, run)| ==>
      var i := FailedIndices(tests, is64bit, is32bit, run)[j];
      var r := CompileWithAs(tests[i].gas, tests[i].extensions, is64bit, is32bit, run);
      r.CalledProcessError? && FailureLog(tests, is64bit, is32bit, run)[j] == Diagnostic(tests[i].gas, tests[i].extensions, r.stderr)
  {
    if tests != [] {
      var n := |tests| - 1;
      var init := tests[..n];
      assert CompileAll(init, is64bit, is32bit, run).Compiled?;
      FailureLogReports(init, is64bit, is32bit, run);
      var prev := FailedIndices(init, is64bit, is32bit, run);
      var before := FailureLog(init, is64bit, is32bit, run);
      var log := FailureLog(tests, is64bit, is32bit, run);
      var r := CompileWithAs(tests[n].gas, tests[n].extensions, is64bit, is32bit, run);
      if r.CalledProcessError? {
        assert log == before + [Diagnostic(tests[n].gas, tests[n].extensions, r.stderr)];
      } else {
        assert log == before;
      }
      forall k | 0 <= k < |prev| ensures init[prev[k]] == tests[prev[k]] { }
    }
  }

  /** No record is lost silently: when the loop completes, every input
      position is either kept or reported, never both. */
  lemma EveryRecordAccounted(tests: seq<TestRecord>, is64bit: bool, is32bit: bool, run: Tools)
    requires CompileAll(tests, is64bit, is32bit, run).Compiled?
    ensures forall i :: 0 <= i < |tests| ==>
      (i in KeptIndices(tests, is64bit, is32bit, run) <==> i !in FailedIndices(tests, is64bit, is32bit, run))
    ensures |CompileAll(tests, is64bit, is32bit, run).buf| + |FailureLog(tests, is64bit, is32bit, run)| == |tests|
  {
    ArchitectureErrorIff(tests, is64bit, is32bit, run);
    KeptSubsequence(tests, is64bit, is32bit, run);
    FailureLogReports(tests, is64bit, is32bit, run);
    AccountedCount(tests, is64bit, is32bit, run);
  }

  lemma {:induction false} AccountedCount(tests: seq<TestRecord>, is64bit: bool, is32bit: bool, run: Tools)
    requires CompileAll(tests, is64bit, is32bit, run).Compiled?
    ensures |CompileAll(tests, is64bit, is32bit, run).buf| + |FailureLog(tests, is64bit, is32bit, run)| == |tests|
  {
    if tests != [] {
      AccountedCount(tests[..|tests| - 1], is64bit, is32bit, run);
    }
  }

  /** The outcome of a whole run on the text of the input file. */
  datatype RunOutcome = Written(output: string) | ParseAborted(line: nat, got: nat) | ArchitectureAborted

  function Pipeline(input: string, is64bit: bool, is32bit: bool, run: Tools): RunOutcome {
    match ParseLines(FileLines(input))
    case UnpackError(i, got) => ParseAborted(i, got)
    case Parsed(tests) =>
      match CompileAll(tests, is64bit, is32bit, run)
      case ArchitectureError => ArchitectureAborted
      case Compiled(buf) => Written(Serialize(buf))
  }

  /** Everything the run prints: the parser's warning, then the diagnostics. */
  function Messages(input: string, is64bit: bool, is32bit: bool, run: Tools): seq<string> {
    var lines := FileLines(input);
    Echoed(lines) + match ParseLines(lines)
      case UnpackError(_, _) => []
      case Parsed(tests) => FailureLog(tests, is64bit, is32bit, run)
  }

  method Run(input: string, is64bit: bool, is32bit: bool, run: Tools)
    returns (outcome: RunOutcome, messages: seq<string>)
    ensures outcome == Pipeline(input, is64bit, is32bit, run)
    ensures messages == Messages(input, is64bit, is32bit, run)
  {
    var lines := FileLines(input);
    var parsed, echoed := ReadTestStrings(lines);
    messages := echoed;
    match parsed
    case UnpackError(i, got) =>
      outcome := ParseAborted(i, got);
    case Parsed(tests) =>
      var compiled, log := CompileTests(tests, is64bit, is32bit, run);
      messages := messages + log;
      match compiled
      case ArchitectureError =>
        outcome := ArchitectureAborted;
      case Compiled(buf) =>
        var written := WriteResult(buf);
        outcome := Written(written);
  }

  /** With a command line argparse accepts, the run never raises `ValueError`. */
  lemma ValidFlagsNeverAbort(input: string, m: Mode, run: Tools)
    ensures !Pipeline(input, Flags(m).0, Flags(m).1, run).ArchitectureAborted?
  {
    match ParseLines(FileLines(input))
    case UnpackError(_, _) =>
    case Parsed(tests) =>
      ArchitectureErrorIff(tests, Flags(m).0, Flags(m).1, run);
  }

  /** End to end: every input line is a record; the output file has one line
      per record that compiled, so never more lines than the input; and its
      `k`-th line reads back as the record of input line `KeptIndices(...)[k]`
      with the bytes the toolchain produced for it. `KeptIndices` is
      increasing and holds exactly the lines whose record compiled. */
  lemma PipelineOutput(input: string, is64bit: bool, is32bit: bool, run: Tools)
    requires Pipeline(input, is64bit, is32bit, run).Written?
    ensures var inLines := FileLines(input);
      var outLines := FileLines(Pipeline(input, is64bit, is32bit, run).output);
      var tests := ParseLines(inLines).records;
      var idx := KeptIndices(tests, is64bit, is32bit, run);
      |outLines| == |idx| <= |inLines| == |tests|
      && (forall i :: 0 <= i < |inLines| ==> ParseLine(inLines[i]) == Fields(tests[i]))
      && (forall k :: 0 <= k < |idx| ==>
            ReadBack(outLines[k]).Some? && ReadBack(outLines[k]).value.record == tests[idx[k]]
            && CompileWithAs(tests[idx[k]].gas, tests[idx[k]].extensions, is64bit, is32bit, run)
               == Machine(ReadBack(outLines[k]).value.binary))
  {
    var inLines := FileLines(input);
    var tests := ParseLines(inLines).records;
    ParseLinesRecords(inLines);
    ParsedRecordsClean(inLines);
    var buf := CompileAll(tests, is64bit, is32bit, run).buf;
    KeptSubsequence(tests, is64bit, is32bit, run);
    KeptAtMostInput(tests, is64bit, is32bit, run);
    forall k | 0 <= k < |buf| ensures CleanRecord(buf[k].record) {
      assert buf[k].record == tests[KeptIndices(tests, is64bit, is32bit, run)[k]];
    }
    ReadBackCorpus(buf);
  }
}
