/** UTF-8 as section 3 of RFC 3629 defines it, standing for the
    `Encoding.UTF8` the marshaler calls: the encoder of scalar values, and the
    decoder that replaces each maximal ill-formed subpart by U+FFFD, as the
    .NET decoder does. */
module Utf8 {
  import opened Common

  /** A continuation byte, 10xxxxxx. */
  predicate IsContinuation(b: byte) {
    0x80 <= b <= 0xBF
  }

  /** The UTF-8 encoding of one scalar value. */
  function EncodeChar(c: char): (r: seq<byte>)
    ensures 1 <= |r| <= 4
    ensures |r| == 1 <==> c as int < 0x80
    ensures |r| == 1 ==> r[0] == c as int
    ensures |r| > 1 ==> 0xC2 <= r[0] <= 0xF4 && forall i | 1 <= i < |r| :: IsContinuation(r[i])
  {
    var n := c as int;
    if n < 0x80 then [n]
    else if n < 0x800 then [0xC0 + n / 0x40, 0x80 + n % 0x40]
    else if n < 0x1_0000 then [0xE0 + n / 0x1000, 0x80 + (n / 0x40) % 0x40, 0x80 + n % 0x40]
    else [0xF0 + n / 0x4_0000, 0x80 + (n / 0x1000) % 0x40, 0x80 + (n / 0x40) % 0x40, 0x80 + n % 0x40]
  }

  /** `Encoding.UTF8.GetBytes(s)`. */
  function Encode(s: string): seq<byte> {
    if s == [] then [] else EncodeChar(s[0]) + Encode(s[1..])
  }

  const ReplacementChar: char := '�'

  /** The bounds of the second byte of a sequence led by `b0` (table 3-7 of
      the Unicode standard, the well-formed byte sequences of RFC 3629). */
  function SecondLow(b0: byte): byte {
    if b0 == 0xE0 then 0xA0 else if b0 == 0xF0 then 0x90 else 0x80
  }
  function SecondHigh(b0: byte): byte {
    if b0 == 0xED then 0x9F else if b0 == 0xF4 then 0x8F else 0xBF
  }

  /** The first character decoded from `b` and the number of bytes it takes:
      a well-formed sequence gives its scalar value; otherwise the longest
      prefix of a well-formed sequence (at least one byte) gives U+FFFD. */
  function DecodeOne(b: seq<byte>): (r: (char, nat))
    requires |b| > 0
    ensures 1 <= r.1 <= |b| && r.1 <= 4
  {
    var b0 := b[0];
    if b0 < 0x80 then (b0 as char, 1)
    else if 0xC2 <= b0 <= 0xDF then
      if |b| > 1 && IsContinuation(b[1]) then (((b0 as int - 0xC0) * 0x40 + (b[1] as int - 0x80)) as char, 2)
      else (ReplacementChar, 1)
    else if 0xE0 <= b0 <= 0xEF then
      if |b| > 1 && SecondLow(b0) <= b[1] <= SecondHigh(b0) then
        if |b| > 2 && IsContinuation(b[2]) then
          var n := (b0 as int - 0xE0) * 0x1000 + (b[1] as int - 0x80) * 0x40 + (b[2] as int - 0x80);
          assert n < 0xD800 || 0xE000 <= n < 0x1_0000;
          (n as char, 3)
        else (ReplacementChar, 2)
      else (ReplacementChar, 1)
    else if 0xF0 <= b0 <= 0xF4 then
      if |b| > 1 && SecondLow(b0) <= b[1] <= SecondHigh(b0) then
        if |b| > 2 && IsContinuation(b[2]) then
          if |b| > 3 && IsContinuation(b[3]) then
            var n := (b0 as int - 0xF0) * 0x4_0000 + (b[1] as int - 0x80) * 0x1000 + (b[2] as int - 0x80) * 0x40 + (b[3] as int - 0x80);
            assert 0x1_0000 <= n < 0x11_0000;
            (n as char, 4)
          else (ReplacementChar, 3)
        else (ReplacementChar, 2)
      else (ReplacementChar, 1)
    else (ReplacementChar, 1)
  }

  /** `Encoding.UTF8.GetString(b)`. */
  function Decode(b: seq<byte>): string
    decreases |b|
  {
    if b == [] then []
    else
      var (c, n) := DecodeOne(b);
      [c] + Decode(b[n..])
  }

  /** Decoding the encoding of a character reads it back and consumes
      exactly its bytes, whatever follows. */
  lemma DecodeOneEncodeChar(c: char, rest: seq<byte>)
    ensures DecodeOne(EncodeChar(c) + rest) == (c, |EncodeChar(c)|)
  {
    var n := c as int;
    if n < 0x80 {
    } else if n < 0x800 {
      DecodeTwo(c, rest);
    } else if n < 0x1_0000 {
      DecodeThree(c, rest);
    } else {
      DecodeFour(c, rest);
    }
  }

  lemma DecodeTwo(c: char, rest: seq<byte>)
    requires 0x80 <= c as int < 0x800
    ensures DecodeOne(EncodeChar(c) + rest) == (c, 2)
  {
    var n := c as int;
    var b0, b1 := 0xC0 + n / 0x40, 0x80 + n % 0x40;
    assert EncodeChar(c) == [b0, b1];
    assert (b0 - 0xC0) * 0x40 + (b1 - 0x80) == n;
    var b := EncodeChar(c) + rest;
    assert b[0] == b0 && b[1] == b1;
  }

  lemma DecodeThree(c: char, rest: seq<byte>)
    requires 0x800 <= c as int < 0x1_0000
    ensures DecodeOne(EncodeChar(c) + rest) == (c, 3)
  {
    var n := c as int;
    var b0, b1, b2 := 0xE0 + n / 0x1000, 0x80 + (n / 0x40) % 0x40, 0x80 + n % 0x40;
    assert EncodeChar(c) == [b0, b1, b2];
    ThreeByteArithmetic(n);
    var b := EncodeChar(c) + rest;
    assert b[0] == b0 && b[1] == b1 && b[2] == b2;
  }

  lemma ThreeByteArithmetic(n: int)
    requires 0x800 <= n < 0xD800 || 0xE000 <= n < 0x1_0000
    ensures var b0, b1, b2 := 0xE0 + n / 0x1000, 0x80 + (n / 0x40) % 0x40, 0x80 + n % 0x40;
      SecondLow(b0) <= b1 <= SecondHigh(b0) &&
      (b0 - 0xE0) * 0x1000 + (b1 - 0x80) * 0x40 + (b2 - 0x80) == n
  {
    var q := n / 0x40;
    assert n == q * 0x40 + n % 0x40;
    assert q == (n / 0x1000) * 0x40 + q % 0x40;
  }

  lemma DecodeFour(c: char, rest: seq<byte>)
    requires 0x1_0000 <= c as int
    ensures DecodeOne(EncodeChar(c) + rest) == (c, 4)
  {
    var n := c as int;
    var b0, b1 := 0xF0 + n / 0x4_0000, 0x80 + (n / 0x1000) % 0x40;
    var b2, b3 := 0x80 + (n / 0x40) % 0x40, 0x80 + n % 0x40;
    assert EncodeChar(c) == [b0, b1, b2, b3];
    FourByteArithmetic(n);
    var b := EncodeChar(c) + rest;
    assert b[0] == b0 && b[1] == b1 && b[2] == b2 && b[3] == b3;
  }

  lemma FourByteArithmetic(n: int)
    requires 0x1_0000 <= n < 0x11_0000
    ensures var b0, b1 := 0xF0 + n / 0x4_0000, 0x80 + (n / 0x1000) % 0x40;
      var b2, b3 := 0x80 + (n / 0x40) % 0x40, 0x80 + n % 0x40;
      0xF0 <= b0 <= 0xF4 && SecondLow(b0) <= b1 <= SecondHigh(b0) &&
      (b0 - 0xF0) * 0x4_0000 + (b1 - 0x80) * 0x1000 + (b2 - 0x80) * 0x40 + (b3 - 0x80) == n
  {
    var q := n / 0x40;
    var r := n / 0x1000;
    assert n == q * 0x40 + n % 0x40;
    assert q == r * 0x40 + q % 0x40;
    assert r == (n / 0x4_0000) * 0x40 + r % 0x40;
  }

  /** Decoding inverts encoding. */
  lemma {:induction false} DecodeEncode(s: string)
    ensures Decode(Encode(s)) == s
  {
    if s != [] {
      var e := EncodeChar(s[0]);
      var rest := Encode(s[1..]);
      DecodeOneEncodeChar(s[0], rest);
      assert (e + rest)[|e|..] == rest;
      DecodeEncode(s[1..]);
    }
  }

  /** Encoding a concatenation concatenates the encodings. */
  lemma {:induction false} EncodeAppend(a: string, b: string)
    ensures Encode(a + b) == Encode(a) + Encode(b)
  {
    if a == [] {
      assert a + b == b;
    } else {
      assert (a + b)[1..] == a[1..] + b;
      EncodeAppend(a[1..], b);
    }
  }

  /** The encoding holds a zero byte exactly where the string holds U+0000:
      every byte of a multi-byte sequence is at least 0x80. */
  lemma {:induction false} EncodeZeroIffNul(s: string)
    ensures 0 in Encode(s) <==> '\0' in s
  {
    if s != [] {
      EncodeZeroIffNul(s[1..]);
      var e := EncodeChar(s[0]);
      assert 0 in e <==> s[0] == '\0' by {
        if |e| > 1 {
          assert forall i | 0 <= i < |e| :: e[i] >= 0x80;
        }
      }
      assert s == [s[0]] + s[1..];
    }
  }
}
