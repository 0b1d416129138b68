/** UTF-8 as Java's StandardCharsets.UTF_8 applies it: `String.getBytes` on the way out,
    `new String(bytes, UTF_8)` on the way back. Table 3-7 of section 3.9 of the Unicode
    Standard lists the well-formed byte sequences; ill-formed input is replaced by U+FFFD,
    one per maximal subpart. */
module Utf8 {

  /** An octet; Java's signed `byte` is read as its unsigned value. */
  type Byte = b: int | 0 <= b < 256

  const Replacement: char := '\U{FFFD}'

  predicate IsContinuation(b: Byte) {
    0x80 <= b <= 0xBF
  }

  /** The bytes of one Unicode scalar value, shortest form. */
  function EncodeChar(c: char): (r: seq<Byte>)
    ensures 1 <= |r| <= 4
  {
    var cp := c as int;
    if cp < 0x80 then
      [cp]
    else if cp < 0x800 then
      [0xC0 + cp / 0x40, 0x80 + cp % 0x40]
    else if cp < 0x1_0000 then
      [0xE0 + cp / 0x40 / 0x40, 0x80 + cp / 0x40 % 0x40, 0x80 + cp % 0x40]
    else
      [0xF0 + cp / 0x40 / 0x40 / 0x40, 0x80 + cp / 0x40 / 0x40 % 0x40, 0x80 + cp / 0x40 % 0x40, 0x80 + cp % 0x40]
  }

  /** String.getBytes(StandardCharsets.UTF_8). */
  function Encode(s: string): (r: seq<Byte>)
  {
    if s == [] then [] else EncodeChar(s[0]) + Encode(s[1..])
  }

  /** The number of bytes of the sequence that `lead` begins, or 0 when no
      well-formed sequence begins with it (80..C1 and F5..FF). */
  function SequenceLength(lead: Byte): nat {
    if lead < 0x80 then 1
    else if 0xC2 <= lead <= 0xDF then 2
    else if 0xE0 <= lead <= 0xEF then 3
    else if 0xF0 <= lead <= 0xF4 then 4
    else 0
  }

  /** Whether `b` may follow `lead` as the second byte (table 3-7): the narrowed
      ranges after E0, ED, F0 and F4 exclude overlong forms, surrogates and
      values above U+10FFFF. */
  predicate SecondByteOk(lead: Byte, b: Byte) {
    if lead == 0xE0 then 0xA0 <= b <= 0xBF
    else if lead == 0xED then 0x80 <= b <= 0x9F
    else if lead == 0xF0 then 0x90 <= b <= 0xBF
    else if lead == 0xF4 then 0x80 <= b <= 0x8F
    else IsContinuation(b)
  }

  /** How many bytes after the lead byte `b[0]` extend a well-formed prefix of a
      sequence of `n` bytes. */
  function ValidTail(b: seq<Byte>, n: nat): (k: nat)
    requires |b| >= 1 && n >= 2
    ensures k < n && k < |b|
  {
    if |b| < 2 || !SecondByteOk(b[0], b[1]) then 0
    else if n == 2 || |b| < 3 || !IsContinuation(b[2]) then 1
    else if n == 3 || |b| < 4 || !IsContinuation(b[3]) then 2
    else 3
  }

  /** The character at the head of `b` and the number of bytes it takes; an
      ill-formed head gives U+FFFD for its maximal subpart. */
  function DecodeOne(b: seq<Byte>): (r: (char, nat))
    requires |b| >= 1
    ensures 1 <= r.1 <= |b|
  {
    var n := SequenceLength(b[0]);
    if n == 0 then
      (Replacement, 1)
    else if n == 1 then
      (b[0] as char, 1)
    else
      var k := ValidTail(b, n);
      if k < n - 1 then
        (Replacement, k + 1)
      else if n == 2 then
        (((b[0] as int - 0xC0) * 0x40 + (b[1] as int - 0x80)) as char, 2)
      else if n == 3 then
        (((b[0] as int - 0xE0) * 0x1000 + (b[1] as int - 0x80) * 0x40 + (b[2] as int - 0x80)) as char, 3)
      else
        (((b[0] as int - 0xF0) * 0x4_0000 + (b[1] as int - 0x80) * 0x1000 + (b[2] as int - 0x80) * 0x40 + (b[3] as int - 0x80)) as char, 4)
  }

  /** new String(bytes, StandardCharsets.UTF_8). */
  function Decode(b: seq<Byte>): (s: string)
    decreases |b|
  {
    if b == [] then []
    else
      var (c, n) := DecodeOne(b);
      [c] + Decode(b[n..])
  }

  /** Encoding never shrinks a string and takes at most four bytes per character. */
  lemma {:induction false} EncodeLength(s: string)
    ensures |s| <= |Encode(s)| <= 4 * |s|
  {
    if s != [] {
      EncodeLength(s[1..]);
    }
  }

  /** The decoder reads back exactly the bytes of one encoded character. */
  lemma DecodeOneEncodeChar(c: char, rest: seq<Byte>)
    ensures DecodeOne(EncodeChar(c) + rest) == (c, |EncodeChar(c)|)
  {
    var cp := c as int;
    if cp < 0x80 {
    } else if cp < 0x800 {
      DecodeOneTwoBytes(c, rest);
    } else if cp < 0x1_0000 {
      DecodeOneThreeBytes(c, rest);
    } else {
      DecodeOneFourBytes(c, rest);
    }
  }

  lemma DecodeOneTwoBytes(c: char, rest: seq<Byte>)
    requires 0x80 <= c as int < 0x800
    ensures DecodeOne(EncodeChar(c) + rest) == (c, 2)
  {
    var cp := c as int;
    var b := EncodeChar(c) + rest;
    var q, l := cp / 0x40, cp % 0x40;
    assert cp == q * 0x40 + l;
    assert b[0] == 0xC0 + q && b[1] == 0x80 + l;
    assert SequenceLength(b[0]) == 2;
  }

  lemma DecodeOneThreeBytes(c: char, rest: seq<Byte>)
    requires 0x800 <= c as int < 0x1_0000
    ensures DecodeOne(EncodeChar(c) + rest) == (c, 3)
  {
    var cp := c as int;
    var b := EncodeChar(c) + rest;
    var q, l := cp / 0x40, cp % 0x40;
    var h, m := q / 0x40, q % 0x40;
    assert cp == q * 0x40 + l;
    assert q == h * 0x40 + m;
    assert b[0] == 0xE0 + h && b[1] == 0x80 + m && b[2] == 0x80 + l;
    assert SequenceLength(b[0]) == 3;
    assert SecondByteOk(b[0], b[1]);
    assert (b[0] as int - 0xE0) * 0x1000 + (b[1] as int - 0x80) * 0x40 + (b[2] as int - 0x80) == cp;
  }

  lemma DecodeOneFourBytes(c: char, rest: seq<Byte>)
    requires 0x1_0000 <= c as int
    ensures DecodeOne(EncodeChar(c) + rest) == (c, 4)
  {
    var cp := c as int;
    var b := EncodeChar(c) + rest;
    var q, l := cp / 0x40, cp % 0x40;
    var p, m := q / 0x40, q % 0x40;
    var h, n := p / 0x40, p % 0x40;
    assert cp == q * 0x40 + l;
    assert q == p * 0x40 + m;
    assert p == h * 0x40 + n;
    assert b[0] == 0xF0 + h && b[1] == 0x80 + n && b[2] == 0x80 + m && b[3] == 0x80 + l;
    assert SequenceLength(b[0]) == 4;
    assert SecondByteOk(b[0], b[1]);
    assert (b[0] as int - 0xF0) * 0x4_0000 + (b[1] as int - 0x80) * 0x1000 + (b[2] as int - 0x80) * 0x40 + (b[3] as int - 0x80) == cp;
  }

  /** Decoding inverts encoding: the bytes stored for a string give that string back. */
  lemma {:induction false} DecodeEncode(s: string)
    ensures Decode(Encode(s)) == s
  {
    if s != [] {
      var e := EncodeChar(s[0]);
      var rest := Encode(s[1..]);
      assert Encode(s) == e + rest;
      DecodeOneEncodeChar(s[0], rest);
      assert (e + rest)[|e|..] == rest;
      DecodeEncode(s[1..]);
    }
  }

  /** Hence encoding is injective: different strings never share their bytes. */
  lemma EncodeInjective(s: string, t: string)
    requires Encode(s) == Encode(t)
    ensures s == t
  {
    DecodeEncode(s);
    DecodeEncode(t);
  }
}
