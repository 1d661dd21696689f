/** Unpadded base64url (section 5 of RFC 4648): one spelling per byte string. */
module Base64Url {
  import opened Wrappers
  import opened Utf8

  type sextet = x: int | 0 <= x < 64

  // ----- The alphabet

  function SextetChar(v: int): char
    requires 0 <= v < 64
  {
    if v < 26 then (v + 65) as char
    else if v < 52 then (v + 71) as char
    else if v < 62 then (v - 4) as char
    else if v == 62 then '-'
    else '_'
  }

  predicate InAlphabet(c: char) {
    'A' <= c <= 'Z' || 'a' <= c <= 'z' || '0' <= c <= '9' || c == '-' || c == '_'
  }

  function CharSextet(c: char): (v: int)
    requires InAlphabet(c)
    ensures 0 <= v < 64
  {
    if 'A' <= c <= 'Z' then c as int - 65
    else if 'a' <= c <= 'z' then c as int - 71
    else if '0' <= c <= '9' then c as int + 4
    else if c == '-' then 62
    else 63
  }

  /** The alphabet's two directions are inverse. */
  lemma AlphabetInverse(c: char, v: int)
    requires 0 <= v < 64
    ensures InAlphabet(SextetChar(v)) && CharSextet(SextetChar(v)) == v
    ensures InAlphabet(c) ==> SextetChar(CharSextet(c)) == c
  {
  }

  /** The characters in order (table 2 of RFC 4648). */
  lemma AlphabetIs(v: int)
    requires 0 <= v < 64
    ensures SextetChar(v) == ("ABCDEFGHIJKLMNOPQRSTUVWXYZ" + "abcdefghijklmnopqrstuvwxyz" + "0123456789" + "-_")[v]
  {
    if v < 26 {
      CapitalsAre(v);
    } else if v < 52 {
      SmallLettersAre(v - 26);
    } else if v < 62 {
      DigitsAre(v - 52);
    }
  }

  lemma CapitalsAre(v: int)
    requires 0 <= v < 26
    ensures "ABCDEFGHIJKLMNOPQRSTUVWXYZ"[v] as int == 65 + v
  {
  }

  lemma SmallLettersAre(v: int)
    requires 0 <= v < 26
    ensures "abcdefghijklmnopqrstuvwxyz"[v] as int == 97 + v
  {
  }

  lemma DigitsAre(v: int)
    requires 0 <= v < 10
    ensures "0123456789"[v] as int == 48 + v
  {
  }

  function Chars(sextets: seq<sextet>): (text: string)
    ensures |text| == |sextets|
  {
    seq(|sextets|, i requires 0 <= i < |sextets| => SextetChar(sextets[i]))
  }

  function Sextets(text: string): Option<seq<sextet>> {
    if forall i | 0 <= i < |text| :: InAlphabet(text[i])
    then Some(seq(|text|, i requires 0 <= i < |text| => CharSextet(text[i])))
    else None
  }

  // ----- The bits

  function Pack(bytes: seq<byte>): seq<sextet> {
    if |bytes| == 0 then []
    else if |bytes| == 1 then [bytes[0] / 4, Low(bytes[0], 4) * 16]
    else if |bytes| == 2 then [bytes[0] / 4, Low(bytes[0], 4) * 16 + bytes[1] / 16, Low(bytes[1], 16) * 4]
    else
      [bytes[0] / 4, Low(bytes[0], 4) * 16 + bytes[1] / 16, Low(bytes[1], 16) * 4 + bytes[2] / 64, bytes[2] % 64]
      + Pack(bytes[3..])
  }

  /** `x % n`, in plain integers. */
  function Low(x: int, n: int): int
    requires n > 0
  {
    x % n
  }

  /** A lone trailing sextet and non-zero trailing bits are refused. */
  function Unpack(s: seq<sextet>): Option<seq<byte>> {
    if |s| == 0 then Some([])
    else if |s| == 1 then None
    else if |s| == 2 then
      if s[1] % 16 == 0 then Some([First(s[0], s[1])]) else None
    else if |s| == 3 then
      if s[2] % 4 == 0 then Some([First(s[0], s[1]), Second(s[1], s[2])]) else None
    else
      match Unpack(s[4..])
      case None => None
      case Some(rest) => Some([First(s[0], s[1]), Second(s[1], s[2]), Third(s[2], s[3])] + rest)
  }

  function First(a: int, b: int): (r: int)
    requires 0 <= a < 64 && 0 <= b < 64
    ensures 0 <= r < 256
  {
    a * 4 + b / 16
  }

  function Second(b: int, c: int): (r: int)
    requires 0 <= b < 64 && 0 <= c < 64
    ensures 0 <= r < 256
  {
    b % 16 * 16 + c / 4
  }

  function Third(c: int, d: int): (r: int)
    requires 0 <= c < 64 && 0 <= d < 64
    ensures 0 <= r < 256
  {
    c % 4 * 64 + d
  }

  lemma GroupUnpacks(x: byte, y: byte, z: byte)
    ensures var a, b, c, d := x / 4, Low(x, 4) * 16 + y / 16, Low(y, 16) * 4 + z / 64, z % 64;
            && First(a, b) == x && Second(b, c) == y && Third(c, d) == z
            && (y == 0 ==> b % 16 == 0)
            && (z == 0 ==> c % 4 == 0)
  {
  }

  /** The bits are taken in order: four sextets are three bytes, as numbers with the first one highest. */
  lemma GroupIsInOrder(x: byte, y: byte, z: byte)
    ensures var s := Pack([x, y, z]);
            && |s| == 4
            && s[0] as int * 0x4_0000 + s[1] as int * 0x1000 + s[2] as int * 0x40 + s[3] == x as int * 0x1_0000 + y as int * 0x100 + z
    ensures var s := Pack([x, y]);
            |s| == 3 && s[0] as int * 0x1000 + s[1] as int * 0x40 + s[2] == (x as int * 0x100 + y) * 4
    ensures var s := Pack([x]); |s| == 2 && s[0] as int * 0x40 + s[1] == x as int * 16
  {
    assert [x, y, z][3..] == [];
    hide Low;
    LowOf(x, 4);
    LowOf(y, 16);
  }

  lemma LowOf(x: int, n: int)
    requires n > 0
    ensures x / n * n + Low(x, n) == x
  {
  }

  lemma GroupPacks(a: sextet, b: sextet, c: sextet, d: sextet)
    ensures First(a, b) / 4 == a
    ensures Low(First(a, b), 4) * 16 + Second(b, c) / 16 == b
    ensures Low(Second(b, c), 16) * 4 + Third(c, d) / 64 == c
    ensures Third(c, d) % 64 == d
    ensures b % 16 == 0 ==> Second(b, 0) == 0
    ensures c % 4 == 0 ==> Third(c, 0) == 0
  {
  }

  lemma {:induction false} UnpackPack(bytes: seq<byte>)
    ensures Unpack(Pack(bytes)) == Some(bytes)
  {
    hide First, Second, Third, Low;
    var s := Pack(bytes);
    if |bytes| == 1 {
      GroupUnpacks(bytes[0], 0, 0);
      assert bytes == [bytes[0]];
    } else if |bytes| == 2 {
      GroupUnpacks(bytes[0], bytes[1], 0);
      assert bytes == [bytes[0], bytes[1]];
    } else if |bytes| >= 3 {
      GroupUnpacks(bytes[0], bytes[1], bytes[2]);
      assert s[4..] == Pack(bytes[3..]);
      UnpackPack(bytes[3..]);
      assert bytes == [bytes[0], bytes[1], bytes[2]] + bytes[3..];
    }
  }

  lemma {:induction false} PackUnpack(s: seq<sextet>)
    requires Unpack(s).Some?
    ensures Pack(Unpack(s).value) == s
  {
    hide First, Second, Third, Low;
    var bytes := Unpack(s).value;
    if |s| == 2 {
      GroupPacks(s[0], s[1], 0, 0);
      assert Pack(bytes) == [s[0], s[1]];
    } else if |s| == 3 {
      GroupPacks(s[0], s[1], s[2], 0);
      assert Pack(bytes) == [s[0], s[1], s[2]];
    } else if |s| >= 4 {
      PackUnpack(s[4..]);
      assert bytes[3..] == Unpack(s[4..]).value;
      GroupPacks(s[0], s[1], s[2], s[3]);
      assert s == [s[0], s[1], s[2], s[3]] + s[4..];
    }
  }

  // ----- The encoding

  function Encode(bytes: seq<byte>): string {
    Chars(Pack(bytes))
  }

  function Decode(text: string): Option<seq<byte>> {
    match Sextets(text)
    case None => None
    case Some(sextets) => Unpack(sextets)
  }

  lemma CharsOfSextets(text: string, sextets: seq<sextet>)
    ensures Sextets(text) == Some(sextets) <==> text == Chars(sextets)
  {
    if text == Chars(sextets) {
      forall i | 0 <= i < |text| ensures InAlphabet(text[i]) && CharSextet(text[i]) == sextets[i] {
        AlphabetInverse(text[i], sextets[i]);
      }
      assert Sextets(text).value == sextets;
    }
    if Sextets(text) == Some(sextets) {
      forall i | 0 <= i < |text| ensures text[i] == Chars(sextets)[i] {
        AlphabetInverse(text[i], sextets[i]);
      }
      assert text == Chars(sextets);
    }
  }

  /** A text decodes to a byte string exactly when it is that string's one encoding. */
  lemma OneSpelling(text: string, bytes: seq<byte>)
    ensures Decode(text) == Some(bytes) <==> text == Encode(bytes)
  {
    UnpackPack(bytes);
    CharsOfSextets(text, Pack(bytes));
    if Decode(text) == Some(bytes) {
      PackUnpack(Sextets(text).value);
    }
  }
}
