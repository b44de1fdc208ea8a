/**
  `binascii.hexlify(data).decode("utf-8")`: every byte becomes two lowercase
  hexadecimal digits, high nibble first. `binascii.unhexlify` is its inverse
  (it also accepts upper-case digits and rejects odd lengths and non-digits).
 */
module Hex {
  import opened Wrappers

  type Byte = b: int | 0 <= b < 256

  /** The digits `hexlify` writes: `0`-`9` and lowercase `a`-`f`. */
  predicate IsLowerHexDigit(c: char) {
    '0' <= c <= '9' || 'a' <= c <= 'f'
  }

  function HexDigit(n: int): (c: char)
    requires 0 <= n < 16
    ensures IsLowerHexDigit(c)
  {
    if n < 10 then ('0' as int + n) as char else ('a' as int + n - 10) as char
  }

  /** Value of one hexadecimal digit of either case, as `binascii.unhexlify`
      reads it. */
  function DigitValue(c: char): (v: Option<int>)
    ensures v.Some? ==> 0 <= v.value < 16
    ensures IsLowerHexDigit(c) ==> v.Some? && HexDigit(v.value) == c
  {
    if '0' <= c <= '9' then Some(c as int - '0' as int)
    else if 'a' <= c <= 'f' then Some(c as int - 'a' as int + 10)
    else if 'A' <= c <= 'F' then Some(c as int - 'A' as int + 10)
    else None
  }

  lemma DigitValueOf(n: int)
    requires 0 <= n < 16
    ensures DigitValue(HexDigit(n)) == Some(n)
  {
  }

  /** Lowercase hexadecimal text of even length: what `Hexlify` produces. */
  predicate IsLowerHex(h: string) {
    |h| % 2 == 0 && forall i :: 0 <= i < |h| ==> IsLowerHexDigit(h[i])
  }

  /** The high and low nibble of a byte. */
  function High(b: Byte): (n: int)
    ensures 0 <= n < 16
  {
    b / 16
  }

  function Low(b: Byte): (n: int)
    ensures 0 <= n < 16
  {
    b % 16
  }

  /** The byte with the given high and low nibble. */
  function FromNibbles(hi: int, lo: int): (b: Byte)
    requires 0 <= hi < 16 && 0 <= lo < 16
    ensures High(b) == hi && Low(b) == lo
  {
    hi * 16 + lo
  }

  lemma NibblesOf(b: Byte)
    ensures FromNibbles(High(b), Low(b)) == b
  {
  }

  function Hexlify(data: seq<Byte>): (h: string)
    ensures |h| == 2 * |data|
    ensures IsLowerHex(h)
  {
    if data == [] then []
    else [HexDigit(High(data[0])), HexDigit(Low(data[0]))] + Hexlify(data[1..])
  }

  function Unhexlify(h: string): (r: Option<seq<Byte>>)
    ensures r.Some? ==> 2 * |r.value| == |h|
    decreases |h|
  {
    if |h| == 0 then Some([])
    else if |h| == 1 then None
    else
      var hi, lo, rest := DigitValue(h[0]), DigitValue(h[1]), Unhexlify(h[2..]);
      if hi.Some? && lo.Some? && rest.Some? then Some([FromNibbles(hi.value, lo.value)] + rest.value)
      else None
  }

  /** Byte `k` of the input is spelled at positions 2k (high nibble) and
      2k + 1 (low nibble) of the hexadecimal text. */
  lemma {:induction false} HexlifyAt(data: seq<Byte>, k: nat)
    requires k < |data|
    ensures Hexlify(data)[2 * k] == HexDigit(High(data[k]))
    ensures Hexlify(data)[2 * k + 1] == HexDigit(Low(data[k]))
  {
    if k > 0 {
      HexlifyAt(data[1..], k - 1);
      var h := Hexlify(data);
      assert h[2..] == Hexlify(data[1..]);
      assert h[2 * k] == h[2..][2 * (k - 1)];
      assert h[2 * k + 1] == h[2..][2 * (k - 1) + 1];
    }
  }

  /** Decoding the hexadecimal text gives back the original bytes. */
  lemma {:induction false} UnhexlifyHexlify(data: seq<Byte>)
    ensures Unhexlify(Hexlify(data)) == Some(data)
  {
    if data != [] {
      var b := data[0];
      var h := Hexlify(data);
      DigitValueOf(High(b));
      DigitValueOf(Low(b));
      assert h[2..] == Hexlify(data[1..]);
      UnhexlifyHexlify(data[1..]);
      NibblesOf(b);
      assert data == [b] + data[1..];
    }
  }

  /** Every lowercase hexadecimal text of even length is the encoding of the
      bytes it decodes to, so the encoding is a bijection onto such texts. */
  lemma {:induction false} HexlifyUnhexlify(h: string)
    requires IsLowerHex(h)
    ensures Unhexlify(h).Some? && Hexlify(Unhexlify(h).value) == h
    decreases |h|
  {
    if h != [] {
      var t := h[2..];
      assert IsLowerHex(t) by {
        forall i | 0 <= i < |t| ensures IsLowerHexDigit(t[i]) {
          assert t[i] == h[i + 2];
        }
      }
      HexlifyUnhexlify(t);
      assert IsLowerHexDigit(h[0]) && IsLowerHexDigit(h[1]);
      var hi := DigitValue(h[0]).value;
      var lo := DigitValue(h[1]).value;
      var b := FromNibbles(hi, lo);
      var rest := Unhexlify(t).value;
      assert Unhexlify(h) == Some([b] + rest);
      assert ([b] + rest)[1..] == rest;
      assert Hexlify([b] + rest) == [HexDigit(hi), HexDigit(lo)] + Hexlify(rest);
      assert h == [h[0], h[1]] + t;
    }
  }
}
