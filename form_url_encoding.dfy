/** The application/x-www-form-urlencoded serialisation of a string, as java.net.URLEncoder
    and java.net.URLDecoder apply it with StandardCharsets.UTF_8 (the WHATWG URL Standard,
    section 5.2, describes the same format). Letters, digits and `.-*_` are kept, a space
    becomes `+`, and every other character becomes `%XX` for each byte of its UTF-8 encoding,
    with upper-case hexadecimal digits. */
module FormUrlEncoding {
  import opened Errors
  import Utf8

  /** The characters URLEncoder leaves as they are. */
  predicate IsUnreserved(c: char) {
    'a' <= c <= 'z' || 'A' <= c <= 'Z' || '0' <= c <= '9' || c == '.' || c == '-' || c == '*' || c == '_'
  }

  /** The characters an encoded string is made of. */
  predicate IsEncodedChar(c: char) {
    IsUnreserved(c) || c == '+' || c == '%'
  }

  /** The digits of an escape as URLEncoder writes them. */
  predicate IsUpperHexDigit(c: char) {
    '0' <= c <= '9' || 'A' <= c <= 'F'
  }

  /** The upper-case hexadecimal digit for `d`. */
  function HexDigit(d: int): (c: char)
    requires 0 <= d < 16
    ensures IsUpperHexDigit(c) && IsUnreserved(c)
  {
    if d < 10 then ('0' as int + d) as char else ('A' as int + d - 10) as char
  }

  /** `%XX` for each byte. */
  function EscapeBytes(bs: seq<Utf8.Byte>): (r: string)
  {
    if bs == [] then [] else ['%', HexDigit(bs[0] / 16), HexDigit(bs[0] % 16)] + EscapeBytes(bs[1..])
  }

  function EncodeChar(c: char): string {
    if IsUnreserved(c) then [c]
    else if c == ' ' then ['+']
    else EscapeBytes(Utf8.EncodeChar(c))
  }

  /** URLEncoder.encode(s, StandardCharsets.UTF_8). The Java code gathers a run of
      characters that need escaping and encodes the run at once; UTF-8 encodes
      character by character, so encoding each character on its own gives the same text. */
  function Encode(s: string): (r: string)
  {
    if s == [] then [] else EncodeChar(s[0]) + Encode(s[1..])
  }

  /** Character.digit(c, 16) for ASCII characters; -1 when `c` is not a digit. */
  function HexValue(c: char): (v: int)
    ensures -1 <= v < 16
  {
    if '0' <= c <= '9' then c as int - '0' as int
    else if 'a' <= c <= 'f' then c as int - 'a' as int + 10
    else if 'A' <= c <= 'F' then c as int - 'A' as int + 10
    else -1
  }

  /** Integer.parseInt over the two characters after a '%', radix 16: a leading '+'
      or '-' is accepted as a sign; None stands for NumberFormatException. */
  function ParseHexPair(c1: char, c2: char): (r: Option<int>)
    ensures r.Some? ==> -16 < r.value < 256
  {
    if c1 == '-' || c1 == '+' then
      if HexValue(c2) < 0 then None
      else if c1 == '-' then Some(-HexValue(c2))
      else Some(HexValue(c2))
    else if HexValue(c1) < 0 || HexValue(c2) < 0 then None
    else Some(16 * HexValue(c1) + HexValue(c2))
  }

  /** The inner loop of URLDecoder.decode at a '%': it takes escapes while at least
      three characters remain and the next one is '%', then rejects a '%' left over
      (an incomplete trailing escape). Gives the bytes and the text after the run. */
  function EscapeRun(s: string): (r: Result<(seq<Utf8.Byte>, string)>)
    ensures r.Ok? ==> 3 * |r.value.0| + |r.value.1| == |s|
    ensures r.Ok? ==> r.value.1 == s[|s| - |r.value.1|..]
    ensures r.Ok? ==> r.value.1 == [] || r.value.1[0] != '%'
    ensures r.Err? ==> r.error == IllegalEscape
    decreases |s|
  {
    if |s| >= 3 && s[0] == '%' then
      match ParseHexPair(s[1], s[2])
      case None => Err(IllegalEscape)
      case Some(v) =>
        if v < 0 then Err(IllegalEscape)
        else
          var (bs, rest) :- EscapeRun(s[3..]);
          Ok(([v] + bs, rest))
    else if s != [] && s[0] == '%' then
      Err(IllegalEscape)
    else
      Ok(([], s))
  }

  /** URLDecoder.decode(s, StandardCharsets.UTF_8): '+' is a space, a run of escapes is
      one UTF-8 byte sequence, every other character stands for itself. */
  function Decode(s: string): (r: Result<string>)
    ensures r.Err? ==> r.error == IllegalEscape
    decreases |s|
  {
    if s == [] then
      Ok([])
    else if s[0] == '+' then
      var tail :- Decode(s[1..]);
      Ok([' '] + tail)
    else if s[0] == '%' then
      var (bs, rest) :- EscapeRun(s);
      var tail :- Decode(rest);
      Ok(Utf8.Decode(bs) + tail)
    else
      var tail :- Decode(s[1..]);
      Ok([s[0]] + tail)
  }

  /** Encoding distributes over concatenation. */
  lemma {:induction false} EncodeAppend(a: string, b: string)
    ensures Encode(a + b) == Encode(a) + Encode(b)
  {
    if a == [] {
      assert a + b == b;
    } else {
      assert (a + b)[1..] == a[1..] + b;
      EncodeAppend(a[1..], b);
    }
  }

  lemma {:induction false} EscapeBytesAppend(a: seq<Utf8.Byte>, b: seq<Utf8.Byte>)
    ensures EscapeBytes(a + b) == EscapeBytes(a) + EscapeBytes(b)
  {
    if a == [] {
      assert a + b == b;
    } else {
      assert (a + b)[1..] == a[1..] + b;
      EscapeBytesAppend(a[1..], b);
    }
  }

  /** Escapes are `%XX`, three characters per byte: a '%' then two upper-case
      hexadecimal digits. */
  lemma {:induction false} EscapeBytesAlphabet(bs: seq<Utf8.Byte>)
    ensures |EscapeBytes(bs)| == 3 * |bs|
    ensures forall i :: 0 <= i < |EscapeBytes(bs)| ==>
      if i % 3 == 0 then EscapeBytes(bs)[i] == '%' else IsUpperHexDigit(EscapeBytes(bs)[i])
    ensures forall i :: 0 <= i < |EscapeBytes(bs)| ==> IsEncodedChar(EscapeBytes(bs)[i])
  {
    if bs != [] {
      var e := EscapeBytes(bs);
      var rest := EscapeBytes(bs[1..]);
      EscapeBytesAlphabet(bs[1..]);
      assert e == ['%', HexDigit(bs[0] / 16), HexDigit(bs[0] % 16)] + rest;
      forall i | 3 <= i < |e|
        ensures e[i] == rest[i - 3] && (i - 3) % 3 == i % 3
      {
      }
    }
  }

  /** An encoded string holds only letters, digits, `.-*_`, '+' and '%': in particular
      never a '/'. */
  lemma {:induction false} EncodeAlphabet(s: string)
    ensures forall i :: 0 <= i < |Encode(s)| ==> IsEncodedChar(Encode(s)[i])
  {
    if s != [] {
      EncodeAlphabet(s[1..]);
      if !IsUnreserved(s[0]) && s[0] != ' ' {
        EscapeBytesAlphabet(Utf8.EncodeChar(s[0]));
      }
    }
  }

  /** Each character gives at least one character, and only a character kept as it is
      (or a space) gives exactly one. */
  lemma {:induction false} EncodeLength(s: string)
    ensures |Encode(s)| >= |s|
    ensures |Encode(s)| == |s| ==> forall i :: 0 <= i < |s| ==> IsUnreserved(s[i]) || s[i] == ' '
  {
    if s != [] {
      EncodeLength(s[1..]);
      if !IsUnreserved(s[0]) && s[0] != ' ' {
        assert |EscapeBytes(Utf8.EncodeChar(s[0]))| >= 3;
      }
      assert forall i :: 1 <= i < |s| ==> s[i] == s[1..][i - 1];
    }
  }

  /** A string is its own encoding exactly when every character of it is kept as it is. */
  lemma EncodeIdentityIff(s: string)
    ensures Encode(s) == s <==> forall i :: 0 <= i < |s| ==> IsUnreserved(s[i])
  {
    if Encode(s) == s {
      EncodeFixedPointUnreserved(s);
    } else if forall i :: 0 <= i < |s| ==> IsUnreserved(s[i]) {
      EncodeUnreserved(s);
    }
  }

  lemma {:induction false} EncodeUnreserved(s: string)
    requires forall i :: 0 <= i < |s| ==> IsUnreserved(s[i])
    ensures Encode(s) == s
  {
    if s != [] {
      EncodeUnreserved(s[1..]);
    }
  }

  lemma {:induction false} EncodeFixedPointUnreserved(s: string)
    requires Encode(s) == s
    ensures forall i :: 0 <= i < |s| ==> IsUnreserved(s[i])
  {
    if s != [] {
      EncodeLength(s);
      var e := EncodeChar(s[0]);
      assert Encode(s) == e + Encode(s[1..]);
      assert |e| == 1 && e[0] == s[0];
      assert Encode(s[1..]) == s[1..];
      EncodeFixedPointUnreserved(s[1..]);
      assert forall i :: 1 <= i < |s| ==> s[i] == s[1..][i - 1];
    }
  }

  /** Decoding the two digits written for a byte gives the byte. */
  lemma ParseHexDigits(b: Utf8.Byte)
    ensures ParseHexPair(HexDigit(b / 16), HexDigit(b % 16)) == Some(b)
  {
  }

  /** The escape loop reads back the bytes of a run of escapes, and stops where the
      run ends. */
  lemma {:induction false} EscapeRunOfEscapes(bs: seq<Utf8.Byte>, rest: string)
    requires rest == [] || rest[0] != '%'
    ensures EscapeRun(EscapeBytes(bs) + rest) == Ok((bs, rest))
  {
    if bs == [] {
      assert EscapeBytes(bs) + rest == rest;
    } else {
      var s := EscapeBytes(bs) + rest;
      ParseHexDigits(bs[0]);
      assert s[3..] == EscapeBytes(bs[1..]) + rest;
      EscapeRunOfEscapes(bs[1..], rest);
      assert [bs[0]] + bs[1..] == bs;
    }
  }

  /** The encoding of characters that all need escaping is the escapes of their UTF-8 bytes. */
  lemma {:induction false} EncodeEscapedRun(a: string)
    requires forall i :: 0 <= i < |a| ==> !IsUnreserved(a[i]) && a[i] != ' '
    ensures Encode(a) == EscapeBytes(Utf8.Encode(a))
  {
    if a != [] {
      EncodeEscapedRun(a[1..]);
      EscapeBytesAppend(Utf8.EncodeChar(a[0]), Utf8.Encode(a[1..]));
    }
  }

  /** The length of the longest prefix of `s` whose characters all need escaping. */
  function EscapedPrefixLength(s: string): (k: nat)
    ensures k <= |s|
    ensures forall i :: 0 <= i < k ==> !IsUnreserved(s[i]) && s[i] != ' '
    ensures k < |s| ==> IsUnreserved(s[k]) || s[k] == ' '
  {
    if s == [] || IsUnreserved(s[0]) || s[0] == ' ' then 0
    else 1 + EscapedPrefixLength(s[1..])
  }

  /** Round trip: URLDecoder.decode gives back what URLEncoder.encode was given. */
  lemma {:induction false} DecodeEncode(s: string)
    ensures Decode(Encode(s)) == Ok(s)
    decreases |s|
  {
    if s == [] {
    } else if IsUnreserved(s[0]) || s[0] == ' ' {
      var e := Encode(s);
      assert e == EncodeChar(s[0]) + Encode(s[1..]);
      assert e[0] == (if s[0] == ' ' then '+' else s[0]);
      assert e[1..] == Encode(s[1..]);
      DecodeEncode(s[1..]);
      assert [s[0]] + s[1..] == s;
    } else {
      var k := EscapedPrefixLength(s);
      var a, b := s[..k], s[k..];
      assert s == a + b;
      EncodeAppend(a, b);
      EncodeEscapedRun(a);
      var bytes := Utf8.Encode(a);
      assert b == [] || Encode(b)[0] == EncodeChar(b[0])[0];
      EscapeRunOfEscapes(bytes, Encode(b));
      assert Encode(s)[0] == '%';
      DecodeEncode(b);
      Utf8.DecodeEncode(a);
    }
  }

  /** Hence encoding is injective: two names never share an encoding. */
  lemma EncodeInjective(s: string, t: string)
    requires Encode(s) == Encode(t)
    ensures s == t
  {
    DecodeEncode(s);
    DecodeEncode(t);
  }

  /** URLDecoder rejects every text that ends in '%': the '%' can neither start a
      complete escape nor be a digit of one. */
  lemma {:induction false} DecodeRejectsTrailingPercent(s: string)
    requires s != [] && s[|s| - 1] == '%'
    ensures Decode(s) == Err(IllegalEscape)
    decreases |s|
  {
    if s[0] == '%' {
      EscapeRunKeepsTrailingPercent(s);
      if EscapeRun(s).Ok? {
        DecodeRejectsTrailingPercent(EscapeRun(s).value.1);
      }
      DecodeFailsAfterEscapeRun(s);
    } else {
      var t := s[1..];
      assert t != [] && t[|t| - 1] == '%';
      DecodeRejectsTrailingPercent(t);
      DecodeFailsAfterChar(s);
    }
  }

  /** A failure in the escape run at the head of a text, or in what follows it, is a
      failure of the whole text. */
  lemma DecodeFailsAfterEscapeRun(s: string)
    requires s != [] && s[0] == '%'
    requires EscapeRun(s).Ok? ==> Decode(EscapeRun(s).value.1).Err?
    ensures Decode(s).Err?
  {
  }

  /** A failure after the first character of a text that does not start an escape is a
      failure of the whole text. */
  lemma DecodeFailsAfterChar(s: string)
    requires s != [] && s[0] != '%' && Decode(s[1..]).Err?
    ensures Decode(s).Err?
  {
  }

  lemma {:induction false} EscapeRunKeepsTrailingPercent(s: string)
    requires s != [] && s[0] == '%' && s[|s| - 1] == '%'
    ensures EscapeRun(s).Ok? ==> var rest := EscapeRun(s).value.1; rest != [] && rest[|rest| - 1] == '%' && |rest| < |s|
    decreases |s|
  {
    if |s| >= 3 && ParseHexPair(s[1], s[2]).Some? && ParseHexPair(s[1], s[2]).value >= 0 {
      assert HexValue('%') < 0;
      assert |s| > 3;
      var t := s[3..];
      assert t[|t| - 1] == '%';
      if t[0] == '%' {
        EscapeRunKeepsTrailingPercent(t);
      } else {
        assert EscapeRun(t) == Ok(([], t));
      }
    }
  }
}
