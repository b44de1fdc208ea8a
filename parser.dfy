/**
  `read_test_strings`: turns the lines of a test listing into
  `(dynasm, gas, extensions)` records. Each non-empty line is split on the tab
  character and must give exactly three pieces, each stored with its
  surrounding whitespace removed. Any other number of pieces is the
  unpacking error of the tuple assignment, which ends the whole read; a line
  without any tab is echoed as a warning just before that error.
 */
module RecordParser {
  import opened PyText

  datatype TestRecord = TestRecord(dynasm: string, gas: string, extensions: string)

  /** What the loop body does with one line: skip it (the `if line:` guard),
      store a record, or fail to unpack `got` pieces into three names. */
  datatype LineOutcome = Blank | Fields(record: TestRecord) | Unpack(got: nat)

  /** Outcome of the whole read: every record in order, or the unpacking
      error raised at index `line` of the input. */
  datatype ReadOutcome = Parsed(records: seq<TestRecord>) | UnpackError(line: nat, got: nat)

  function ParseLine(line: string): (r: LineOutcome)
    ensures r.Blank? <==> line == []
    ensures r.Unpack? <==> line != [] && Count(line, '\t') != 2
    ensures r.Unpack? ==> r.got == Count(line, '\t') + 1
  {
    if line == [] then Blank
    else
      var pieces := Split(line, '\t');
      if |pieces| == 3 then Fields(TestRecord(Strip(pieces[0]), Strip(pieces[1]), Strip(pieces[2])))
      else Unpack(|pieces|)
  }

  /** A line made of three tab-free fields is stored as those fields, stripped. */
  lemma ParseFields(a: string, b: string, c: string)
    requires '\t' !in a && '\t' !in b && '\t' !in c
    ensures ParseLine(a + "\t" + b + "\t" + c) == Fields(TestRecord(Strip(a), Strip(b), Strip(c)))
  {
    var parts := [a, b, c];
    assert Join(parts[2..], '\t') == c;
    assert Join(parts[1..], '\t') == b + "\t" + c;
    assert Join(parts, '\t') == a + "\t" + b + "\t" + c;
    SplitJoin(parts, '\t');
  }

  /** Conversely, every stored record comes from a line with exactly two tabs,
      and its fields are the stripped text between them. */
  lemma FieldsOfLine(line: string) returns (a: string, b: string, c: string)
    requires ParseLine(line).Fields?
    ensures '\t' !in a && '\t' !in b && '\t' !in c
    ensures line == a + "\t" + b + "\t" + c
    ensures ParseLine(line).record == TestRecord(Strip(a), Strip(b), Strip(c))
  {
    var p := Split(line, '\t');
    a, b, c := p[0], p[1], p[2];
    JoinSplit(line, '\t');
    assert p[1..][1..] == [c];
    assert Join(p[1..], '\t') == b + "\t" + c;
  }

  /** A field as the parser stores it: no tab, no newline, and no whitespace
      at either end. */
  predicate CleanField(f: string) {
    '\t' !in f && '\n' !in f && IsTrimmed(f)
  }

  predicate CleanRecord(r: TestRecord) {
    CleanField(r.dynasm) && CleanField(r.gas) && CleanField(r.extensions)
  }

  /** Every record parsed from a line of a text file has clean fields: the
      tabs went to the split and the line's newline to the strip. */
  lemma ParsedRecordClean(line: string)
    requires IsLine(line) && ParseLine(line).Fields?
    ensures CleanRecord(ParseLine(line).record)
  {
    var a, b, c := FieldsOfLine(line);
    var n := |line|;
    assert forall j :: 0 <= j < n - 1 ==> line[j] != '\n' by {
      forall j | 0 <= j < n - 1 ensures line[j] != '\n' {
        assert line[j] == line[..n - 1][j];
      }
    }
    assert forall j :: 0 <= j < |a| ==> a[j] == line[j];
    assert forall j :: 0 <= j < |b| ==> b[j] == line[|a| + 1 + j];
    assert forall j :: 0 <= j < |c| ==> c[j] == line[|a| + |b| + 2 + j];
    StripInterior(a, '\t');
    StripInterior(b, '\t');
    StripInterior(c, '\t');
    StripInterior(a, '\n');
    StripInterior(b, '\n');
    StripInterior(c, '\n');
  }

  /** The read up to and including each line, as the loop builds it. */
  function ParseLines(lines: seq<string>): ReadOutcome {
    if lines == [] then Parsed([])
    else
      var n := |lines| - 1;
      match ParseLines(lines[..n])
      case UnpackError(i, got) => UnpackError(i, got)
      case Parsed(rs) =>
        match ParseLine(lines[n])
        case Blank => Parsed(rs)
        case Fields(r) => Parsed(rs + [r])
        case Unpack(got) => UnpackError(n, got)
  }

  /** The lines printed as warnings: each processed non-empty line without a tab. */
  function Echoed(lines: seq<string>): seq<string> {
    if lines == [] then []
    else
      var n := |lines| - 1;
      if ParseLines(lines[..n]).UnpackError? then Echoed(lines[..n])
      else Echoed(lines[..n]) + (if lines[n] != [] && '\t' !in lines[n] then [lines[n]] else [])
  }

  /** Once the read has failed, later lines change neither outcome nor warnings. */
  lemma {:induction false} FailureIsFinal(lines: seq<string>, n: nat)
    requires n <= |lines| && ParseLines(lines[..n]).UnpackError?
    ensures ParseLines(lines) == ParseLines(lines[..n])
    ensures Echoed(lines) == Echoed(lines[..n])
    decreases |lines| - n
  {
    if n < |lines| {
      var m := |lines| - 1;
      assert lines[..m][..n] == lines[..n];
      FailureIsFinal(lines[..m], n);
      assert ParseLines(lines[..m]).UnpackError?;
    } else {
      assert lines[..n] == lines;
    }
  }

  method ReadTestStrings(lines: seq<string>) returns (outcome: ReadOutcome, echoed: seq<string>)
    ensures outcome == ParseLines(lines)
    ensures echoed == Echoed(lines)
  {
    var buf: seq<TestRecord> := [];
    echoed := [];
    for i := 0 to |lines|
      invariant ParseLines(lines[..i]) == Parsed(buf)
      invariant echoed == Echoed(lines[..i])
    {
      var line := lines[i];
      assert lines[..i + 1][..i] == lines[..i];
      if line != [] {
        if '\t' !in line {
          echoed := echoed + [line];
        }
        var pieces := Split(line, '\t');
        if |pieces| != 3 {
          outcome := UnpackError(i, |pieces|);
          FailureIsFinal(lines, i + 1);
          return;
        }
        buf := buf + [TestRecord(Strip(pieces[0]), Strip(pieces[1]), Strip(pieces[2]))];
      }
    }
    assert lines[..|lines|] == lines;
    outcome := Parsed(buf);
  }

  /** The read fails exactly when some line cannot be unpacked, and then it
      reports the first such line and its number of pieces. */
  lemma {:induction false} ParseLinesFailure(lines: seq<string>)
    ensures ParseLines(lines).UnpackError? <==> exists i :: 0 <= i < |lines| && ParseLine(lines[i]).Unpack?
    ensures ParseLines(lines).UnpackError? ==>
      var e := ParseLines(lines);
      e.line < |lines| && ParseLine(lines[e.line]) == Unpack(e.got)
      && forall j :: 0 <= j < e.line ==> !ParseLine(lines[j]).Unpack?
  {
    if lines != [] {
      var n := |lines| - 1;
      ParseLinesFailure(lines[..n]);
      forall j | 0 <= j < n ensures lines[..n][j] == lines[j] { }
    }
  }

  /** Without empty strings in the input (file iteration never yields one), a
      successful read gives one record per line, in input order, each the
      record its own line parses to. */
  lemma {:induction false} ParseLinesRecords(lines: seq<string>)
    requires forall i :: 0 <= i < |lines| ==> lines[i] != []
    requires ParseLines(lines).Parsed?
    ensures |ParseLines(lines).records| == |lines|
    ensures forall i :: 0 <= i < |lines| ==> ParseLine(lines[i]) == Fields(ParseLines(lines).records[i])
  {
    if lines != [] {
      var n := |lines| - 1;
      ParseLinesRecords(lines[..n]);
      var rs := ParseLines(lines[..n]).records;
      assert ParseLines(lines).records == rs + [ParseLine(lines[n]).record];
      forall i | 0 <= i < |lines|
        ensures ParseLine(lines[i]) == Fields(ParseLines(lines).records[i])
      {
        if i < n {
          assert lines[..n][i] == lines[i];
        }
      }
    }
  }

  /** Every record read from the lines of a text file has clean fields. */
  lemma ParsedRecordsClean(lines: seq<string>)
    requires forall i :: 0 <= i < |lines| ==> IsLine(lines[i])
    requires ParseLines(lines).Parsed?
    ensures forall k :: 0 <= k < |ParseLines(lines).records| ==> CleanRecord(ParseLines(lines).records[k])
  {
    ParseLinesRecords(lines);
    forall k | 0 <= k < |lines| ensures CleanRecord(ParseLines(lines).records[k]) {
      ParsedRecordClean(lines[k]);
    }
  }

  /** At most one warning is printed: the failing line, when it has no tab. */
  lemma {:induction false} EchoedIsFailingLine(lines: seq<string>)
    ensures Echoed(lines) ==
      var r := ParseLines(lines);
      if r.UnpackError? && r.got == 1 && r.line < |lines| then [lines[r.line]] else []
  {
    if lines != [] {
      var n := |lines| - 1;
      EchoedIsFailingLine(lines[..n]);
      ParseLinesFailure(lines[..n]);
      var r := ParseLines(lines[..n]);
      if r.UnpackError? {
        assert lines[..n][r.line] == lines[r.line];
      } else {
        CountZero(lines[n], '\t');
      }
    }
  }
}
