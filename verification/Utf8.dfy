/** Bytes, and the check `core::str::from_utf8` makes (the table of well-formed sequences in section 3.9 of Unicode). */
module Utf8 {
  import opened Wrappers

  type byte = x: int | 0 <= x < 256

  predicate Continuation(b: byte) {
    0x80 <= b <= 0xBF
  }

  /** The payload bits of a byte, above the marker bits `base`. */
  function Bits(b: byte, base: int): int {
    b - base
  }

  /** The first code point of `s` and how many bytes spell it. */
  function DecodeFirst(s: seq<byte>): (r: Option<(char, nat)>)
    requires s != []
    ensures r.Some? ==> 1 <= r.value.1 <= |s|
  {
    var b0 := s[0];
    if b0 < 0x80 then Some((b0 as char, 1))
    else if 0xC2 <= b0 <= 0xDF && |s| >= 2 && Continuation(s[1]) then
      Some(((Bits(b0, 0xC0) * 0x40 + Bits(s[1], 0x80)) as char, 2))
    else if 0xE0 <= b0 <= 0xEF && |s| >= 3 && Continuation(s[1]) && Continuation(s[2]) then
      var point := Bits(b0, 0xE0) * 0x1000 + Bits(s[1], 0x80) * 0x40 + Bits(s[2], 0x80);
      if point < 0x800 || 0xD800 <= point <= 0xDFFF then None else Some((point as char, 3))
    else if && 0xF0 <= b0 <= 0xF4 && |s| >= 4
            && Continuation(s[1]) && Continuation(s[2]) && Continuation(s[3]) then
      var point := Bits(b0, 0xF0) * 0x40000 + Bits(s[1], 0x80) * 0x1000 + Bits(s[2], 0x80) * 0x40 + Bits(s[3], 0x80);
      if point < 0x10000 || point > 0x10FFFF then None else Some((point as char, 4))
    else None
  }

  /** The text `s` spells, or `None` when it is not UTF-8. */
  function FromUtf8(s: seq<byte>): Option<string> {
    if s == [] then Some("")
    else
      match DecodeFirst(s)
      case None => None
      case Some((c, width)) =>
        match FromUtf8(s[width..])
        case None => None
        case Some(rest) => Some([c] + rest)
  }

  predicate IsAscii(text: string) {
    forall i | 0 <= i < |text| :: text[i] as int < 0x80
  }

  function AsciiBytes(text: string): (s: seq<byte>)
    requires IsAscii(text)
    ensures |s| == |text|
  {
    seq(|text|, i requires 0 <= i < |text| => text[i] as byte)
  }

  lemma {:induction false} AsciiRoundTrip(text: string)
    requires IsAscii(text)
    ensures FromUtf8(AsciiBytes(text)) == Some(text)
  {
    if text != "" {
      assert AsciiBytes(text)[1..] == AsciiBytes(text[1..]);
      AsciiRoundTrip(text[1..]);
      assert text == [text[0]] + text[1..];
    }
  }

  // ----- UTF-8 as it is written

  /** One to four bytes, the code point's bits in order (table 3-6 of Unicode). */
  function EncodeChar(c: char): (s: seq<byte>)
    ensures s != []
  {
    var n := c as int;
    if n < 0x80 then [n]
    else if n < 0x800 then [0xC0 + n / 0x40, 0x80 + n % 0x40]
    else if n < 0x1_0000 then [0xE0 + n / 0x1000, 0x80 + n / 0x40 % 0x40, 0x80 + n % 0x40]
    else [0xF0 + n / 0x4_0000, 0x80 + n / 0x1000 % 0x40, 0x80 + n / 0x40 % 0x40, 0x80 + n % 0x40]
  }

  function EncodeText(text: string): seq<byte> {
    if text == "" then [] else EncodeChar(text[0]) + EncodeText(text[1..])
  }

  /** Six bits on top of a number, and back. */
  lemma SixBits(high: nat, low: nat)
    requires low < 0x40
    ensures (high * 0x40 + low) / 0x40 == high && (high * 0x40 + low) % 0x40 == low
  {
  }

  lemma SixBitsOf(n: nat)
    ensures n / 0x40 * 0x40 + n % 0x40 == n && n % 0x40 < 0x40
  {
  }

  lemma ThousandsAre(n: nat)
    ensures n / 0x40 / 0x40 == n / 0x1000 && n / 0x1000 / 0x40 == n / 0x4_0000
  {
  }

  lemma FirstIsEncoded(s: seq<byte>)
    requires s != [] && DecodeFirst(s).Some?
    ensures var (c, width) := DecodeFirst(s).value; s[..width] == EncodeChar(c)
  {
    var (c, width) := DecodeFirst(s).value;
    var n := c as int;
    if width == 2 {
      SixBits(s[0] - 0xC0, s[1] - 0x80);
    } else if width == 3 {
      ThreeBytes(s[0] - 0xE0, s[1] - 0x80, s[2] - 0x80);
    } else if width == 4 {
      FourBytes(s[0] - 0xF0, s[1] - 0x80, s[2] - 0x80, s[3] - 0x80);
    }
  }

  lemma ThreeBytes(a: nat, b: nat, c: nat)
    requires b < 0x40 && c < 0x40
    ensures var n := a * 0x1000 + b * 0x40 + c; n / 0x1000 == a && n / 0x40 % 0x40 == b && n % 0x40 == c
  {
    var n := a * 0x1000 + b * 0x40 + c;
    SixBits(a * 0x40 + b, c);
    SixBits(a, b);
    assert n == (a * 0x40 + b) * 0x40 + c;
    ThousandsAre(n);
  }

  lemma FourBytes(a: nat, b: nat, c: nat, d: nat)
    requires b < 0x40 && c < 0x40 && d < 0x40
    ensures var n := a * 0x4_0000 + b * 0x1000 + c * 0x40 + d;
            n / 0x4_0000 == a && n / 0x1000 % 0x40 == b && n / 0x40 % 0x40 == c && n % 0x40 == d
  {
    var n := a * 0x4_0000 + b * 0x1000 + c * 0x40 + d;
    ThreeBytes(a * 0x40 + b, c, d);
    SixBits(a, b);
    assert n == (a * 0x40 + b) * 0x1000 + c * 0x40 + d;
    ThousandsAre(n);
  }

  /** The digits of a code point in base 64. */
  lemma Recombine(n: nat)
    ensures n / 0x1000 * 0x1000 + n / 0x40 % 0x40 * 0x40 + n % 0x40 == n
    ensures n / 0x4_0000 * 0x4_0000 + n / 0x1000 % 0x40 * 0x1000 + n / 0x40 % 0x40 * 0x40 + n % 0x40 == n
  {
    SixBitsOf(n);
    SixBitsOf(n / 0x40);
    SixBitsOf(n / 0x1000);
    ThousandsAre(n);
  }

  lemma EncodedIsFirst(c: char, rest: seq<byte>)
    ensures DecodeFirst(EncodeChar(c) + rest) == Some((c, |EncodeChar(c)|))
  {
    hide DecodeFirst;
    var n := c as int;
    Recombine(n);
    if n < 0x80 {
      OneFirst(n, rest);
    } else if n < 0x800 {
      SixBitsOf(n);
      TwoFirst(n / 0x40, n % 0x40, rest);
    } else if n < 0x1_0000 {
      ThreeFirst(n / 0x1000, n / 0x40 % 0x40, n % 0x40, rest);
    } else {
      FourFirst(n / 0x4_0000, n / 0x1000 % 0x40, n / 0x40 % 0x40, n % 0x40, rest);
    }
  }

  lemma OneFirst(n: nat, rest: seq<byte>)
    requires n < 0x80
    ensures DecodeFirst([n] + rest) == Some((n as char, 1))
  {
  }

  lemma TwoFirst(a: nat, b: nat, rest: seq<byte>)
    requires 0x80 <= a * 0x40 + b < 0x800 && b < 0x40
    ensures DecodeFirst([0xC0 + a, 0x80 + b] + rest) == Some(((a * 0x40 + b) as char, 2))
  {
    var s: seq<byte> := [0xC0 + a, 0x80 + b] + rest;
    assert s[0] == 0xC0 + a && s[1] == 0x80 + b;
    assert Bits(s[0], 0xC0) * 0x40 + Bits(s[1], 0x80) == a * 0x40 + b;
  }

  lemma ThreeFirst(a: nat, b: nat, c: nat, rest: seq<byte>)
    requires 0x800 <= a * 0x1000 + b * 0x40 + c < 0x1_0000 && b < 0x40 && c < 0x40
    requires !(0xD800 <= a * 0x1000 + b * 0x40 + c <= 0xDFFF)
    ensures DecodeFirst([0xE0 + a, 0x80 + b, 0x80 + c] + rest) == Some(((a * 0x1000 + b * 0x40 + c) as char, 3))
  {
    var s: seq<byte> := [0xE0 + a, 0x80 + b, 0x80 + c] + rest;
    assert s[0] == 0xE0 + a && s[1] == 0x80 + b && s[2] == 0x80 + c;
    assert Bits(s[0], 0xE0) * 0x1000 + Bits(s[1], 0x80) * 0x40 + Bits(s[2], 0x80) == a * 0x1000 + b * 0x40 + c;
  }

  lemma FourFirst(a: nat, b: nat, c: nat, d: nat, rest: seq<byte>)
    requires 0x1_0000 <= a * 0x4_0000 + b * 0x1000 + c * 0x40 + d <= 0x10_FFFF && b < 0x40 && c < 0x40 && d < 0x40
    ensures DecodeFirst([0xF0 + a, 0x80 + b, 0x80 + c, 0x80 + d] + rest) ==
            Some(((a * 0x4_0000 + b * 0x1000 + c * 0x40 + d) as char, 4))
  {
    var s: seq<byte> := [0xF0 + a, 0x80 + b, 0x80 + c, 0x80 + d] + rest;
    assert s[0] == 0xF0 + a && s[1] == 0x80 + b && s[2] == 0x80 + c && s[3] == 0x80 + d;
    assert Bits(s[0], 0xF0) * 0x40000 + Bits(s[1], 0x80) * 0x1000 + Bits(s[2], 0x80) * 0x40 + Bits(s[3], 0x80)
        == a * 0x4_0000 + b * 0x1000 + c * 0x40 + d;
  }

  /** Bytes are read as a text exactly when they are that text's one encoding. */
  lemma {:induction false} Utf8Exactly(s: seq<byte>, text: string)
    ensures FromUtf8(s) == Some(text) <==> s == EncodeText(text)
    decreases |s| + |text|
  {
    hide DecodeFirst, EncodeChar;
    if s != [] && DecodeFirst(s).Some? {
      var (c, width) := DecodeFirst(s).value;
      FirstIsEncoded(s);
      if FromUtf8(s) == Some(text) {
        Utf8Exactly(s[width..], text[1..]);
        assert s == s[..width] + s[width..];
      }
    }
    if text != "" && s == EncodeText(text) {
      EncodedIsFirst(text[0], EncodeText(text[1..]));
      assert s[|EncodeChar(text[0])|..] == EncodeText(text[1..]);
      Utf8Exactly(EncodeText(text[1..]), text[1..]);
      assert text == [text[0]] + text[1..];
    }
  }
}
