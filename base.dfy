/** Small shared vocabulary: bytes, optional values, results, and the two
    text conversions the servers rely on (decimal rendering of an integer and
    strict UTF-8 decoding, with the encoder it inverts). */
module Base {

  /** One octet, as Python's `bytes` and `bytearray` hold them. */
  type byte = x: int | 0 <= x < 256

  datatype Option<+T> = None | Some(value: T)

  /** A value, or the exception the source raises instead of returning one. */
  datatype Result<+T, +E> = Ok(value: T) | Err(error: E)

  /** The number a run of decimal digits denotes, most significant first. */
  function DigitsValue(s: string): nat
    requires forall i :: 0 <= i < |s| ==> '0' <= s[i] <= '9'
    decreases |s|
  {
    if s == [] then 0 else DigitsValue(s[..|s| - 1]) * 10 + (s[|s| - 1] as int - '0' as int)
  }

  /** Decimal digits of a natural number, most significant first: they
      denote the number, and only 0 itself starts with the digit 0. */
  function Digits(n: nat): (s: string)
    ensures |s| >= 1
    ensures forall i :: 0 <= i < |s| ==> '0' <= s[i] <= '9'
    ensures DigitsValue(s) == n
    ensures s[0] == '0' ==> n == 0
    decreases n
  {
    var d := ['0' + (n % 10) as char];
    if n < 10 then d
    else
      var s := Digits(n / 10) + d;
      assert s[..|s| - 1] == Digits(n / 10);
      s
  }

  /** What Python's `str(n)` (and an f-string) renders for an integer. */
  function Decimal(n: int): string
  {
    if n < 0 then "-" + Digits(-n) else Digits(n)
  }

  predicate IsContinuation(b: byte) { 0x80 <= b <= 0xBF }

  /** Length of the well-formed UTF-8 sequence that starts `s`, or 0 when `s`
      does not start with one; this is the byte syntax of section 4 of
      RFC 3629, which is what a strict UTF-8 decoder accepts. */
  function SequenceLength(s: seq<byte>): (n: nat)
    requires |s| > 0
    ensures n <= |s|
    ensures s[0] < 0x80 ==> n == 1
  {
    var b := s[0];
    if b < 0x80 then 1
    else if 0xC2 <= b <= 0xDF then
      if |s| >= 2 && IsContinuation(s[1]) then 2 else 0
    else if 0xE0 <= b <= 0xEF then
      var lo := if b == 0xE0 then 0xA0 else 0x80;
      var hi := if b == 0xED then 0x9F else 0xBF;
      if |s| >= 3 && lo <= s[1] <= hi && IsContinuation(s[2]) then 3 else 0
    else if 0xF0 <= b <= 0xF4 then
      var lo := if b == 0xF0 then 0x90 else 0x80;
      var hi := if b == 0xF4 then 0x8F else 0xBF;
      if |s| >= 4 && lo <= s[1] <= hi && IsContinuation(s[2]) && IsContinuation(s[3]) then 4 else 0
    else 0
  }

  /** Whether decoding `s` as UTF-8 succeeds (Python's `bytes.decode("utf-8")`
      raises `UnicodeDecodeError` exactly when this is false). */
  predicate ValidUtf8(s: seq<byte>)
    ensures IsAscii(s) ==> ValidUtf8(s)
    decreases |s|
  {
    s == [] || (SequenceLength(s) > 0 && ValidUtf8(s[SequenceLength(s)..]))
  }

  /** The code point a well-formed sequence at the start of `s` encodes. */
  function CodePoint(s: seq<byte>): (c: int)
    requires |s| > 0 && SequenceLength(s) > 0
    ensures 0 <= c < 0xD800 || 0xE000 <= c < 0x11_0000
    ensures s[0] < 0x80 ==> c == s[0]
  {
    var n := SequenceLength(s);
    var b0: int := s[0];
    if n == 1 then b0
    else
      var b1: int := s[1];
      if n == 2 then (b0 - 0xC0) * 0x40 + (b1 - 0x80)
      else
        var b2: int := s[2];
        if n == 3 then (b0 - 0xE0) * 0x1000 + (b1 - 0x80) * 0x40 + (b2 - 0x80)
        else
          var b3: int := s[3];
          (b0 - 0xF0) * 0x4_0000 + (b1 - 0x80) * 0x1000 + (b2 - 0x80) * 0x40 + (b3 - 0x80)
  }

  /** The text a well-formed UTF-8 byte sequence decodes to. */
  function DecodeUtf8(s: seq<byte>): (t: string)
    requires ValidUtf8(s)
    ensures |t| <= |s|
    ensures s == [] <==> t == []
    decreases |s|
  {
    if s == [] then "" else [CodePoint(s) as char] + DecodeUtf8(s[SequenceLength(s)..])
  }

  /** The text starts with the code point of the first sequence. */
  lemma DecodeFirst(s: seq<byte>)
    requires ValidUtf8(s) && s != []
    ensures DecodeUtf8(s)[0] as int == CodePoint(s)
  {
  }

  /** A Unicode scalar value: a code point that is not a surrogate. */
  predicate IsScalar(c: int)
  {
    0 <= c < 0xD800 || 0xE000 <= c < 0x11_0000
  }

  /** The shortest UTF-8 sequence for one scalar value (section 3 of
      RFC 3629): the value's bits, six at a time from the low end, behind
      a lead byte that gives the length. */
  function EncodeScalar(c: int): (b: seq<byte>)
    requires IsScalar(c)
    ensures 1 <= |b| <= 4
    ensures b[0] < 0x80 <==> c < 0x80
  {
    var x0, c1 := c % 0x40, c / 0x40;
    var x1, c2 := c1 % 0x40, c1 / 0x40;
    var x2, c3 := c2 % 0x40, c2 / 0x40;
    if c < 0x80 then [c]
    else if c < 0x800 then [0xC0 + c1, 0x80 + x0]
    else if c < 0x1_0000 then [0xE0 + c2, 0x80 + x1, 0x80 + x0]
    else [0xF0 + c3, 0x80 + x2, 0x80 + x1, 0x80 + x0]
  }

  /** The encoding of a scalar value is one well-formed sequence, whatever
      follows it, and it decodes to that value. */
  lemma ScalarDecodes(c: int, rest: seq<byte>)
    requires IsScalar(c)
    ensures SequenceLength(EncodeScalar(c) + rest) == |EncodeScalar(c)|
    ensures CodePoint(EncodeScalar(c) + rest) == c
  {
    var b := EncodeScalar(c) + rest;
    assert b[..|EncodeScalar(c)|] == EncodeScalar(c);
  }

  /** A well-formed sequence is the encoding of the value it decodes to:
      there is one way to write each scalar value. */
  lemma SequenceEncodes(s: seq<byte>)
    requires |s| > 0 && SequenceLength(s) > 0
    ensures EncodeScalar(CodePoint(s)) == s[..SequenceLength(s)]
  {
    var n := SequenceLength(s);
    if n == 2 {
      TwoBytesEncode(s);
    } else if n == 3 {
      ThreeBytesEncode(s);
    } else if n == 4 {
      FourBytesEncode(s);
    }
  }

  lemma TwoBytesEncode(s: seq<byte>)
    requires |s| > 0 && SequenceLength(s) == 2
    ensures EncodeScalar(CodePoint(s)) == s[..2]
  {
    var b0: int, b1: int := s[0], s[1];
    assert CodePoint(s) == (b0 - 0xC0) * 0x40 + (b1 - 0x80);
    Sextet(b0 - 0xC0, b1 - 0x80);
    assert s[..2] == [s[0], s[1]];
  }

  lemma ThreeBytesEncode(s: seq<byte>)
    requires |s| > 0 && SequenceLength(s) == 3
    ensures EncodeScalar(CodePoint(s)) == s[..3]
  {
    var b0: int, b1: int, b2: int := s[0], s[1], s[2];
    var c1 := (b0 - 0xE0) * 0x40 + (b1 - 0x80);
    assert CodePoint(s) == c1 * 0x40 + (b2 - 0x80);
    Sextet(c1, b2 - 0x80);
    Sextet(b0 - 0xE0, b1 - 0x80);
    assert s[..3] == [s[0], s[1], s[2]];
  }

  lemma FourBytesEncode(s: seq<byte>)
    requires |s| > 0 && SequenceLength(s) == 4
    ensures EncodeScalar(CodePoint(s)) == s[..4]
  {
    var b0: int, b1: int, b2: int, b3: int := s[0], s[1], s[2], s[3];
    var c2 := (b0 - 0xF0) * 0x40 + (b1 - 0x80);
    var c1 := c2 * 0x40 + (b2 - 0x80);
    assert CodePoint(s) == c1 * 0x40 + (b3 - 0x80);
    Sextet(c1, b3 - 0x80);
    Sextet(c2, b2 - 0x80);
    Sextet(b0 - 0xF0, b1 - 0x80);
    assert s[..4] == [s[0], s[1], s[2], s[3]];
  }

  /** Splitting off the low six bits of `q * 64 + x` gives back `q` and `x`. */
  lemma Sextet(q: int, x: int)
    requires 0 <= x < 0x40
    ensures (q * 0x40 + x) / 0x40 == q && (q * 0x40 + x) % 0x40 == x
  {
  }

  /** UTF-8 encoding of a text, as Python's `str.encode("utf-8")`. */
  function EncodeUtf8(t: string): (b: seq<byte>)
    ensures |t| <= |b| <= 4 * |t|
  {
    if t == [] then [] else EncodeScalar(t[0] as int) + EncodeUtf8(t[1..])
  }

  /** Encoding a text gives well-formed UTF-8 that decodes to the text. */
  lemma {:induction false} EncodeDecodes(t: string)
    ensures ValidUtf8(EncodeUtf8(t)) && DecodeUtf8(EncodeUtf8(t)) == t
  {
    if t != [] {
      var head, rest := EncodeScalar(t[0] as int), EncodeUtf8(t[1..]);
      ScalarDecodes(t[0] as int, rest);
      assert (head + rest)[|head|..] == rest;
      EncodeDecodes(t[1..]);
      assert EncodeUtf8(t) == head + rest;
      assert DecodeUtf8(head + rest) == [t[0]] + t[1..];
    }
  }

  /** Every well-formed UTF-8 sequence is the encoding of the text it
      decodes to, so decoding loses nothing. */
  lemma {:induction false} DecodeEncodes(s: seq<byte>)
    requires ValidUtf8(s)
    ensures EncodeUtf8(DecodeUtf8(s)) == s
    decreases |s|
  {
    if s != [] {
      var n := SequenceLength(s);
      calc {
        EncodeUtf8(DecodeUtf8(s));
        == { DecodeStep(s); }
        s[..n] + EncodeUtf8(DecodeUtf8(s[n..]));
        == { DecodeEncodes(s[n..]); }
        s[..n] + s[n..];
        == { assert s == s[..n] + s[n..]; }
        s;
      }
    }
  }

  /** Re-encoding the first decoded character gives the first sequence back. */
  lemma DecodeStep(s: seq<byte>)
    requires ValidUtf8(s) && s != []
    ensures EncodeUtf8(DecodeUtf8(s)) ==
              s[..SequenceLength(s)] + EncodeUtf8(DecodeUtf8(s[SequenceLength(s)..]))
  {
    var n, t := SequenceLength(s), DecodeUtf8(s);
    assert t[0] as int == CodePoint(s) && t[1..] == DecodeUtf8(s[n..]);
    SequenceEncodes(s);
  }

  predicate IsAscii(s: seq<byte>)
  {
    forall i :: 0 <= i < |s| ==> s[i] < 0x80
  }

  /** Pure ASCII bytes always decode, one character per byte, each with
      the byte's value as its code point. */
  lemma {:induction false} AsciiDecodes(s: seq<byte>)
    requires IsAscii(s)
    ensures ValidUtf8(s)
    ensures |DecodeUtf8(s)| == |s|
    ensures forall i :: 0 <= i < |s| ==> DecodeUtf8(s)[i] as int == s[i]
    decreases |s|
  {
    if s != [] {
      assert SequenceLength(s) == 1;
      AsciiDecodes(s[1..]);
      assert DecodeUtf8(s) == [s[0] as char] + DecodeUtf8(s[1..]);
    }
  }

  /** The ASCII encoding of a text whose characters are all below 0x80. */
  function AsciiBytes(t: string): (b: seq<byte>)
    requires forall i :: 0 <= i < |t| ==> t[i] as int < 0x80
    ensures |b| == |t| && IsAscii(b)
  {
    seq(|t|, i requires 0 <= i < |t| => t[i] as int)
  }

  /** Decoding the ASCII encoding of a text gives the text back. */
  lemma AsciiRoundTrip(t: string)
    requires forall i :: 0 <= i < |t| ==> t[i] as int < 0x80
    ensures ValidUtf8(AsciiBytes(t)) && DecodeUtf8(AsciiBytes(t)) == t
  {
    AsciiDecodes(AsciiBytes(t));
  }

  /** A sequence of `n` zero bytes. */
  function Zeros(n: nat): (z: seq<byte>)
    ensures |z| == n
    ensures forall i :: 0 <= i < n ==> z[i] == 0
  {
    seq(n, _ => 0)
  }

  /** The head and tail of a concatenation whose left part is non-empty. */
  lemma ConsAppend<T>(a: seq<T>, b: seq<T>)
    requires a != []
    ensures (a + b)[0] == a[0] && (a + b)[1..] == a[1..] + b
  {
  }

  lemma Associative<T>(x: seq<T>, y: seq<T>, z: seq<T>)
    ensures x + (y + z) == (x + y) + z
  {
  }
}
