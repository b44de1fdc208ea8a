/**
  `write_result`: one output line per compiled record, in buffer order,
  holding the three text fields and the machine code as lowercase
  hexadecimal, separated by tabs and ended by a newline.
 */
module CorpusWriter {
  import opened Wrappers
  import opened PyText
  import opened Hex
  import opened RecordParser

  /** A record that compiled, with the bytes the toolchain produced for it. */
  datatype CompiledRecord = CompiledRecord(record: TestRecord, binary: seq<Byte>)

  /** The f-string of the writer, with the concatenation grouped from the
      right. For a record with clean fields it is one line: its only newline
      is the last character. */
  function FormatLine(c: CompiledRecord): (l: string)
    ensures CleanRecord(c.record) ==> IsLine(l) && EndsWithNewline(l)
  {
    var h := Hexlify(c.binary);
    HexTrimmed(h);
    c.record.dynasm + "\t" + (c.record.gas + "\t" + (c.record.extensions + "\t" + (h + "\n")))
  }

  /** Everything written for the first `|buf|` records. */
  function Serialize(buf: seq<CompiledRecord>): string {
    if buf == [] then [] else Serialize(buf[..|buf| - 1]) + FormatLine(buf[|buf| - 1])
  }

  method WriteResult(buf: seq<CompiledRecord>) returns (written: string)
    ensures written == Serialize(buf)
  {
    written := [];
    for i := 0 to |buf|
      invariant written == Serialize(buf[..i])
    {
      assert buf[..i + 1][..i] == buf[..i];
      var r := buf[i].record;
      var hex := Hexlify(buf[i].binary);
      written := written + (r.dynasm + "\t" + (r.gas + "\t" + (r.extensions + "\t" + (hex + "\n"))));
    }
    assert buf[..|buf|] == buf;
  }

  /** How a consumer reads a corpus line back: four tab-separated fields,
      stripped, the last one decoded from hexadecimal. */
  function ReadBack(line: string): Option<CompiledRecord> {
    var p := Split(line, '\t');
    if |p| != 4 then None
    else
      match Unhexlify(Strip(p[3]))
      case None => None
      case Some(binary) => Some(CompiledRecord(TestRecord(Strip(p[0]), Strip(p[1]), Strip(p[2])), binary))
  }

  lemma HexTrimmed(h: string)
    requires IsLowerHex(h)
    ensures IsTrimmed(h) && '\t' !in h && '\n' !in h
  {
    if h != [] {
      assert IsLowerHexDigit(h[0]) && IsLowerHexDigit(h[|h| - 1]);
    }
    forall i | 0 <= i < |h| ensures h[i] != '\t' && h[i] != '\n' {
      assert IsLowerHexDigit(h[i]);
    }
  }

  lemma SplitFour(a: string, b: string, c: string, d: string)
    requires '\t' !in a && '\t' !in b && '\t' !in c && '\t' !in d
    ensures Split(a + "\t" + (b + "\t" + (c + "\t" + d)), '\t') == [a, b, c, d]
  {
    SplitPrefix(d, [], '\t');
    assert d + [] == d;
    SplitAtSeparator(c, d, '\t');
    SplitAtSeparator(b, c + "\t" + d, '\t');
    SplitAtSeparator(a, b + "\t" + (c + "\t" + d), '\t');
  }

  /** A written line splits into the three fields and the hexadecimal code. */
  lemma FormatLineSplit(c: CompiledRecord)
    requires CleanRecord(c.record)
    ensures Split(FormatLine(c), '\t') == [c.record.dynasm, c.record.gas, c.record.extensions, Hexlify(c.binary) + "\n"]
  {
    var h := Hexlify(c.binary);
    HexTrimmed(h);
    assert '\t' !in h + "\n";
    SplitFour(c.record.dynasm, c.record.gas, c.record.extensions, h + "\n");
  }

  /** Reading a written line back gives the record and the exact bytes. */
  lemma ReadBackFormatLine(c: CompiledRecord)
    requires CleanRecord(c.record)
    ensures ReadBack(FormatLine(c)) == Some(c)
  {
    FormatLineSplit(c);
    var h := Hexlify(c.binary);
    HexTrimmed(h);
    StripNewline(h);
    UnhexlifyHexlify(c.binary);
    StripTrimmed(c.record.dynasm);
    StripTrimmed(c.record.gas);
    StripTrimmed(c.record.extensions);
  }

  /** The first three fields of a written line, as an input line again, parse
      back to the original record. */
  lemma ReparseFields(c: CompiledRecord)
    requires CleanRecord(c.record)
    ensures ParseLine(c.record.dynasm + "\t" + c.record.gas + "\t" + c.record.extensions + "\n") == Fields(c.record)
  {
    var r := c.record;
    var e := r.extensions + "\n";
    assert r.dynasm + "\t" + r.gas + "\t" + r.extensions + "\n" == r.dynasm + "\t" + r.gas + "\t" + e;
    ParseFields(r.dynasm, r.gas, e);
    StripTrimmed(r.dynasm);
    StripTrimmed(r.gas);
    StripNewline(r.extensions);
  }

  lemma StripTrimmed(f: string)
    requires IsTrimmed(f)
    ensures Strip(f) == f
  {
    assert [] + f + [] == f;
    StripSurrounded([], f, []);
  }

  lemma StripNewline(f: string)
    requires IsTrimmed(f)
    ensures Strip(f + "\n") == f
  {
    assert [] + f + "\n" == f + "\n";
    StripSurrounded([], f, "\n");
  }

  /** A whole written line, with its fourth field, is not valid input: reading
      the corpus with `read_test_strings` stops at its first line. */
  lemma FormatLineRejected(c: CompiledRecord)
    requires CleanRecord(c.record)
    ensures ParseLine(FormatLine(c)) == Unpack(4)
  {
    FormatLineSplit(c);
  }

  /** The written lines, one per record. */
  function Lines(buf: seq<CompiledRecord>): (lines: seq<string>)
    ensures |lines| == |buf|
    ensures forall k :: 0 <= k < |buf| ==> lines[k] == FormatLine(buf[k])
  {
    if buf == [] then [] else [FormatLine(buf[0])] + Lines(buf[1..])
  }

  lemma {:induction false} ConcatAppend(lines: seq<string>, l: string)
    ensures Concat(lines + [l]) == Concat(lines) + l
  {
    if lines != [] {
      assert (lines + [l])[1..] == lines[1..] + [l];
      ConcatAppend(lines[1..], l);
    }
  }

  lemma {:induction false} SerializeIsConcat(buf: seq<CompiledRecord>)
    ensures Serialize(buf) == Concat(Lines(buf))
  {
    if buf != [] {
      var n := |buf| - 1;
      SerializeIsConcat(buf[..n]);
      var prev, last := Lines(buf[..n]), FormatLine(buf[n]);
      assert Lines(buf) == prev + [last] by {
        forall k | 0 <= k < |buf| ensures Lines(buf)[k] == (prev + [last])[k] {
          if k < n {
            assert buf[..n][k] == buf[k];
          }
        }
      }
      ConcatAppend(prev, last);
    }
  }

  /** Reading the written file line by line gives one line per record, in
      buffer order, each the formatted record. */
  lemma WrittenLines(buf: seq<CompiledRecord>)
    requires forall k :: 0 <= k < |buf| ==> CleanRecord(buf[k].record)
    ensures FileLines(Serialize(buf)) == Lines(buf)
  {
    SerializeIsConcat(buf);
    var lines := Lines(buf);
    forall k | 0 <= k < |lines|
      ensures IsLine(lines[k]) && EndsWithNewline(lines[k])
    {
      assert lines[k] == FormatLine(buf[k]);
    }
    FileLinesConcat(lines);
  }

  /** The written corpus reads back, line by line, as exactly the buffered
      records with their bytes, in buffer order. */
  lemma ReadBackCorpus(buf: seq<CompiledRecord>)
    requires forall k :: 0 <= k < |buf| ==> CleanRecord(buf[k].record)
    ensures |FileLines(Serialize(buf))| == |buf|
    ensures forall k :: 0 <= k < |buf| ==> ReadBack(FileLines(Serialize(buf))[k]) == Some(buf[k])
  {
    WrittenLines(buf);
    forall k | 0 <= k < |buf| ensures ReadBack(Lines(buf)[k]) == Some(buf[k]) {
      ReadBackFormatLine(buf[k]);
    }
  }
}
