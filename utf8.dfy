/**
 * Strict UTF-8, the syntax of section 4 of RFC 3629: the check that
 * `bytes.decode()` performs before it returns text, the decoding itself and
 * the encoding that inverts it.
 */
module Utf8 {
  import opened Seqs

  newtype byte = x: int | 0 <= x < 0x100

  /** UTF8-tail = %x80-BF */
  predicate IsTail(b: byte) {
    0x80 <= b <= 0xBF
  }

  /** UTF8-1 = %x00-7F */
  predicate IsChar1(s: seq<byte>) {
    |s| == 1 && s[0] <= 0x7F
  }

  /** UTF8-2 = %xC2-DF UTF8-tail */
  predicate IsChar2(s: seq<byte>) {
    |s| == 2 && 0xC2 <= s[0] <= 0xDF && IsTail(s[1])
  }

  /**
   * UTF8-3 = %xE0 %xA0-BF UTF8-tail / %xE1-EC 2( UTF8-tail ) /
   *          %xED %x80-9F UTF8-tail / %xEE-EF 2( UTF8-tail )
   */
  predicate IsChar3(s: seq<byte>) {
    && |s| == 3
    && IsTail(s[2])
    && (|| (s[0] == 0xE0 && 0xA0 <= s[1] <= 0xBF)
        || ((0xE1 <= s[0] <= 0xEC || 0xEE <= s[0] <= 0xEF) && IsTail(s[1]))
        || (s[0] == 0xED && 0x80 <= s[1] <= 0x9F))
  }

  /**
   * UTF8-4 = %xF0 %x90-BF 2( UTF8-tail ) / %xF1-F3 3( UTF8-tail ) /
   *          %xF4 %x80-8F 2( UTF8-tail )
   */
  predicate IsChar4(s: seq<byte>) {
    && |s| == 4
    && IsTail(s[2])
    && IsTail(s[3])
    && (|| (s[0] == 0xF0 && 0x90 <= s[1] <= 0xBF)
        || (0xF1 <= s[0] <= 0xF3 && IsTail(s[1]))
        || (s[0] == 0xF4 && 0x80 <= s[1] <= 0x8F))
  }

  /** UTF8-char = UTF8-1 / UTF8-2 / UTF8-3 / UTF8-4 */
  predicate IsChar(s: seq<byte>) {
    IsChar1(s) || IsChar2(s) || IsChar3(s) || IsChar4(s)
  }

  /** The length of the UTF8-char that `s` starts with, or 0 when it starts with none. */
  function CharLen(s: seq<byte>): (n: nat)
    ensures n <= 4 && n <= |s|
    ensures n > 0 ==> IsChar(s[..n])
  {
    if |s| >= 1 && IsChar1(s[..1]) then 1
    else if |s| >= 2 && IsChar2(s[..2]) then 2
    else if |s| >= 3 && IsChar3(s[..3]) then 3
    else if |s| >= 4 && IsChar4(s[..4]) then 4
    else 0
  }

  /** UTF8-octets = *( UTF8-char ) */
  predicate WellFormed(s: seq<byte>)
    decreases |s|
  {
    s == [] || (CharLen(s) > 0 && WellFormed(s[CharLen(s)..]))
  }

  /** True when `cp` is a Unicode scalar value (not a surrogate, at most U+10FFFF). */
  predicate IsScalar(cp: int) {
    0 <= cp < 0xD800 || 0xE000 <= cp < 0x11_0000
  }

  /**
   * The code point a UTF8-char stands for. Each form covers exactly its own
   * range of scalar values, so no character has two encodings.
   */
  function CodePoint(s: seq<byte>): (cp: int)
    requires IsChar(s)
    ensures IsScalar(cp)
    ensures IsChar1(s) ==> cp < 0x80
    ensures IsChar2(s) ==> 0x80 <= cp < 0x800
    ensures IsChar3(s) ==> 0x800 <= cp < 0x1_0000
    ensures IsChar4(s) ==> 0x1_0000 <= cp
  {
    if |s| == 1 then
      s[0] as int
    else if |s| == 2 then
      (s[0] as int - 0xC0) * 0x40 + (s[1] as int - 0x80)
    else if |s| == 3 then
      ((s[0] as int - 0xE0) * 0x40 + (s[1] as int - 0x80)) * 0x40 + (s[2] as int - 0x80)
    else
      (((s[0] as int - 0xF0) * 0x40 + (s[1] as int - 0x80)) * 0x40 + (s[2] as int - 0x80)) * 0x40
      + (s[3] as int - 0x80)
  }

  /** The text that well-formed bytes decode to, one character per UTF8-char. */
  function Decode(s: seq<byte>): (t: string)
    requires WellFormed(s)
    ensures |t| <= |s|
    ensures t == [] <==> s == []
    decreases |s|
  {
    if s == [] then [] else
      var n := CharLen(s);
      [CodePoint(s[..n]) as char] + Decode(s[n..])
  }

  /** The UTF-8 encoding of one character: the UTF8-char whose code point it is. */
  function EncodeChar(c: char): (s: seq<byte>)
    ensures IsChar(s) && CodePoint(s) == c as int
  {
    var cp := c as int;
    var c1 := cp / 0x40;
    var c2 := c1 / 0x40;
    var c3 := c2 / 0x40;
    if cp < 0x80 then
      [cp as byte]
    else if cp < 0x800 then
      [(0xC0 + c1) as byte, (0x80 + cp % 0x40) as byte]
    else if cp < 0x1_0000 then
      [(0xE0 + c2) as byte, (0x80 + c1 % 0x40) as byte, (0x80 + cp % 0x40) as byte]
    else
      [(0xF0 + c3) as byte, (0x80 + c2 % 0x40) as byte, (0x80 + c1 % 0x40) as byte,
       (0x80 + cp % 0x40) as byte]
  }

  function Encode(t: string): (s: seq<byte>)
  {
    if t == [] then [] else EncodeChar(t[0]) + Encode(t[1..])
  }

  lemma DivMod64(q: int, r: int)
    requires 0 <= r < 0x40
    ensures (q * 0x40 + r) / 0x40 == q && (q * 0x40 + r) % 0x40 == r
  {
  }

  lemma CharRoundTrip2(s: seq<byte>)
    requires IsChar2(s)
    ensures EncodeChar(CodePoint(s) as char) == s
  {
    DivMod64(s[0] as int - 0xC0, s[1] as int - 0x80);
  }

  lemma CharRoundTrip3(s: seq<byte>)
    requires IsChar3(s)
    ensures EncodeChar(CodePoint(s) as char) == s
  {
    var hi := (s[0] as int - 0xE0) * 0x40 + (s[1] as int - 0x80);
    DivMod64(hi, s[2] as int - 0x80);
    DivMod64(s[0] as int - 0xE0, s[1] as int - 0x80);
  }

  lemma CharRoundTrip4(s: seq<byte>)
    requires IsChar4(s)
    ensures EncodeChar(CodePoint(s) as char) == s
  {
    var h2 := (s[0] as int - 0xF0) * 0x40 + (s[1] as int - 0x80);
    var h1 := h2 * 0x40 + (s[2] as int - 0x80);
    DivMod64(h1, s[3] as int - 0x80);
    DivMod64(h2, s[2] as int - 0x80);
    DivMod64(s[0] as int - 0xF0, s[1] as int - 0x80);
  }

  /** Every UTF8-char is the encoding of the character it decodes to. */
  lemma CharRoundTrip(s: seq<byte>)
    requires IsChar(s)
    ensures EncodeChar(CodePoint(s) as char) == s
  {
    if IsChar2(s) {
      CharRoundTrip2(s);
    } else if IsChar3(s) {
      CharRoundTrip3(s);
    } else if IsChar4(s) {
      CharRoundTrip4(s);
    }
  }

  /** At most one prefix of `s` is a UTF8-char, the one CharLen measures. */
  lemma CharLenUnique(s: seq<byte>, k: nat)
    requires 1 <= k <= |s| && IsChar(s[..k])
    ensures CharLen(s) == k
  {
  }

  /** A UTF8-char followed by anything: the head is that UTF8-char. */
  lemma CharLenOfPrefix(c: seq<byte>, rest: seq<byte>)
    requires IsChar(c)
    ensures CharLen(c + rest) == |c|
    ensures (c + rest)[..|c|] == c && (c + rest)[|c|..] == rest
  {
    var s := c + rest;
    assert s[..|c|] == c;
    CharLenUnique(s, |c|);
  }

  /** Encoded text is well-formed. */
  lemma {:induction false} EncodeWellFormed(t: string)
    ensures WellFormed(Encode(t))
  {
    if t != [] {
      var c := EncodeChar(t[0]);
      CharLenOfPrefix(c, Encode(t[1..]));
      EncodeWellFormed(t[1..]);
    }
  }

  /** Decoding inverts encoding. */
  lemma {:induction false} DecodeEncode(t: string)
    ensures WellFormed(Encode(t)) && Decode(Encode(t)) == t
  {
    EncodeWellFormed(t);
    if t != [] {
      var c := EncodeChar(t[0]);
      CharLenOfPrefix(c, Encode(t[1..]));
      DecodeEncode(t[1..]);
      assert (CodePoint(c) as char) == t[0];
    }
  }

  /** Encoding inverts decoding: well-formed bytes are exactly the encodings of text. */
  lemma {:induction false} EncodeDecode(s: seq<byte>)
    requires WellFormed(s)
    ensures Encode(Decode(s)) == s
  {
    if s != [] {
      var n := CharLen(s);
      var t := Decode(s);
      assert t[0] == CodePoint(s[..n]) as char && t[1..] == Decode(s[n..]);
      calc {
        Encode(t);
        EncodeChar(t[0]) + Encode(t[1..]);
        { CharRoundTrip(s[..n]); }
        s[..n] + Encode(Decode(s[n..]));
        { EncodeDecode(s[n..]); }
        s[..n] + s[n..];
      }
      assert s == s[..n] + s[n..];
    }
  }

  /** A UTF8-char in front of well-formed bytes leaves them well-formed and decodes first. */
  lemma ConsChar(c: seq<byte>, rest: seq<byte>)
    requires IsChar(c) && WellFormed(rest)
    ensures WellFormed(c + rest) && Decode(c + rest) == [CodePoint(c) as char] + Decode(rest)
  {
    CharLenOfPrefix(c, rest);
  }

  lemma DecodeUnfold(a: seq<byte>)
    requires WellFormed(a) && a != []
    ensures CharLen(a) > 0 && WellFormed(a[CharLen(a)..])
    ensures Decode(a) == [CodePoint(a[..CharLen(a)]) as char] + Decode(a[CharLen(a)..])
  {
  }

  /** Decoding distributes over concatenation. */
  lemma {:induction false} DecodeAppend(a: seq<byte>, b: seq<byte>)
    requires WellFormed(a) && WellFormed(b)
    ensures WellFormed(a + b) && Decode(a + b) == Decode(a) + Decode(b)
    decreases |a|
  {
    if a == [] {
      assert a + b == b;
    } else {
      var n := CharLen(a);
      var c, rest := a[..n], a[n..];
      DecodeUnfold(a);
      SplitAppend(a, b, n);
      DecodeAppend(rest, b);
      ConsChar(c, rest + b);
      var ch := CodePoint(c) as char;
      calc {
        Decode(a + b);
        Decode(c + (rest + b));
        [ch] + Decode(rest + b);
        [ch] + (Decode(rest) + Decode(b));
        { AppendAssoc([ch], Decode(rest), Decode(b)); }
        ([ch] + Decode(rest)) + Decode(b);
        Decode(a) + Decode(b);
      }
    }
  }

  /** ASCII bytes are well-formed and decode to the same characters. */
  lemma {:induction false} AsciiDecode(s: seq<byte>)
    requires forall i :: 0 <= i < |s| ==> s[i] < 0x80
    ensures WellFormed(s)
    ensures |Decode(s)| == |s| && forall i :: 0 <= i < |s| ==> Decode(s)[i] as int == s[i] as int
  {
    if s != [] {
      assert IsChar1(s[..1]);
      AsciiDecode(s[1..]);
    }
  }
}
