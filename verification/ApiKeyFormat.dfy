/** The printed form of an API key: `mso_<environment>_<prefix>_<secret>`. */
module ApiKeyFormat {
  import opened Wrappers
  import opened Text
  import opened Utf8
  import B64 = Base64Url

  const KEY_PREFIX: string := "mso"
  const PREFIX_LENGTH: nat := 8
  const SECRET_BYTES: nat := 32
  const MAX_PRESENTED_LENGTH: nat := 256

  datatype Environment = Live | Test {
    function Name(): string {
      if Live? then "live" else "test"
    }
  }

  function ParseEnvironment(segment: string): Option<Environment> {
    if segment == "live" then Some(Live) else if segment == "test" then Some(Test) else None
  }

  /** `splitn`: at most `n` pieces, the last one the whole remainder. */
  function SplitN(s: string, n: nat): (pieces: seq<string>)
    requires n > 0
    ensures pieces != []
    decreases n
  {
    var found := Find(s, "_");
    if n == 1 || found.None? then [s] else [s[..found.value]] + SplitN(s[found.value + 1..], n - 1)
  }

  predicate IsLowerHex(c: char) {
    '0' <= c <= '9' || 'a' <= c <= 'f'
  }

  predicate ValidPrefix(prefix: string) {
    |prefix| == PREFIX_LENGTH && forall i | 0 <= i < |prefix| :: IsLowerHex(prefix[i])
  }

  predicate ValidSecret(secret: string) {
    secret != "" && forall i | 0 <= i < |secret| :: B64.InAlphabet(secret[i])
  }

  /** The environment, prefix and secret of a presented key; every malformed one is the same refusal. */
  function Parse(presented: string): Option<(Environment, string, string)> {
    var parts := SplitN(presented, 4);
    if |presented| > MAX_PRESENTED_LENGTH || |parts| < 4 || parts[0] != KEY_PREFIX then None
    else
      match ParseEnvironment(parts[1])
      case None => None
      case Some(environment) =>
        if ValidPrefix(parts[2]) && ValidSecret(parts[3]) then Some((environment, parts[2], parts[3])) else None
  }

  function Print(environment: Environment, prefix: string, secret: string): string {
    KEY_PREFIX + "_" + environment.Name() + "_" + prefix + "_" + secret
  }

  // ----- Splitting

  lemma FirstUnderscore(piece: string, rest: string)
    requires '_' !in piece
    ensures Find(piece + "_" + rest, "_") == Some(|piece|)
  {
    var s := piece + "_" + rest;
    assert s[|piece|..|piece| + 1] == "_";
    assert MatchesAt(s, "_", |piece|);
    var i := Find(s, "_").value;
    assert s[i..i + 1][0] == s[i];
    assert forall k | 0 <= k < |piece| :: s[k] == piece[k] && piece[k] in piece;
  }

  lemma SplitNCons(piece: string, rest: string, n: nat)
    requires '_' !in piece && n > 1
    ensures SplitN(piece + "_" + rest, n) == [piece] + SplitN(rest, n - 1)
  {
    FirstUnderscore(piece, rest);
    var s := piece + "_" + rest;
    assert s[..|piece|] == piece && s[|piece| + 1..] == rest;
  }

  lemma SplitNJoins(s: string, n: nat)
    requires n > 1 && |SplitN(s, n)| > 1
    ensures var pieces := SplitN(s, n);
            s == pieces[0] + "_" + s[|pieces[0]| + 1..] && pieces[1..] == SplitN(s[|pieces[0]| + 1..], n - 1)
  {
    var i := Find(s, "_").value;
    assert s[i..i + 1] == "_";
  }

  /** A key is accepted exactly when it is the printed form of what it parses to, well formed and not too long. */
  lemma ParseExact(presented: string, environment: Environment, prefix: string, secret: string)
    ensures Parse(presented) == Some((environment, prefix, secret)) <==>
            && presented == Print(environment, prefix, secret)
            && ValidPrefix(prefix) && ValidSecret(secret)
            && |presented| <= MAX_PRESENTED_LENGTH
  {
    hide SplitN;
    if presented == Print(environment, prefix, secret) && ValidPrefix(prefix) {
      PrintSplits(environment, prefix, secret);
    }
    if Parse(presented) == Some((environment, prefix, secret)) {
      ParsedPrints(presented, environment, prefix, secret);
    }
  }

  lemma PrintSplits(environment: Environment, prefix: string, secret: string)
    requires ValidPrefix(prefix)
    ensures SplitN(Print(environment, prefix, secret), 4) == [KEY_PREFIX, environment.Name(), prefix, secret]
  {
    hide SplitN;
    var tail := prefix + "_" + secret;
    var rest := environment.Name() + "_" + tail;
    assert Print(environment, prefix, secret) == KEY_PREFIX + "_" + rest;
    SplitNCons(KEY_PREFIX, rest, 4);
    SplitNCons(environment.Name(), tail, 3);
    assert '_' !in prefix;
    SplitNCons(prefix, secret, 2);
    assert SplitN(secret, 1) == [secret] by { LastPiece(secret); }
  }

  lemma LastPiece(s: string)
    ensures SplitN(s, 1) == [s]
  {
  }

  lemma ParsedPrints(presented: string, environment: Environment, prefix: string, secret: string)
    requires Parse(presented) == Some((environment, prefix, secret))
    ensures presented == Print(environment, prefix, secret)
  {
    hide SplitN, ValidPrefix, ValidSecret;
    FourPieces(presented);
    var parts := SplitN(presented, 4);
    assert parts[0] == KEY_PREFIX && parts[1] == environment.Name() && parts[2] == prefix && parts[3] == secret;
  }

  /** Four pieces, joined by underscores, are the text they came from. */
  lemma FourPieces(s: string)
    requires |SplitN(s, 4)| >= 4
    ensures var parts := SplitN(s, 4); s == parts[0] + "_" + parts[1] + "_" + parts[2] + "_" + parts[3]
  {
    hide SplitN;
    var parts := SplitN(s, 4);
    SplitNJoins(s, 4);
    var rest := s[|parts[0]| + 1..];
    SplitNJoins(rest, 3);
    var tail := rest[|parts[1]| + 1..];
    assert parts[1..][1..] == SplitN(tail, 2);
    SplitNJoins(tail, 2);
    var last := tail[|parts[2]| + 1..];
    assert parts[1..][1..][1..] == SplitN(last, 1);
    LastPiece(last);
    JoinFour(parts[0], parts[1], parts[2], last, tail, rest, s);
  }

  lemma JoinFour(a: string, b: string, c: string, d: string, tail: string, rest: string, s: string)
    requires tail == c + "_" + d && rest == b + "_" + tail && s == a + "_" + rest
    ensures s == a + "_" + b + "_" + c + "_" + d
  {
    assert s == a + "_" + (b + "_" + (c + "_" + d));
  }

  /** The printed form spelled out: the two environments, eight lowercase hexadecimal digits, a base64url secret. */
  lemma ParseSpelledOut(presented: string, environment: Environment, prefix: string, secret: string)
    ensures Parse(presented) == Some((environment, prefix, secret)) <==>
            && presented == (if environment == Live then "mso_live_" else "mso_test_") + prefix + "_" + secret
            && |prefix| == 8 && (forall c | c in prefix :: c in "0123456789abcdef")
            && secret != ""
            && (forall c | c in secret :: 'a' <= c <= 'z' || 'A' <= c <= 'Z' || '0' <= c <= '9' || c == '-' || c == '_')
            && |presented| <= 256
  {
    hide Parse;
    ParseExact(presented, environment, prefix, secret);
    HexDigitsAre(prefix);
    SecretCharactersAre(secret);
    assert Print(Live, prefix, secret) == "mso_live_" + prefix + "_" + secret;
    assert Print(Test, prefix, secret) == "mso_test_" + prefix + "_" + secret;
  }

  lemma HexDigitsAre(prefix: string)
    ensures ValidPrefix(prefix) <==> |prefix| == 8 && forall c | c in prefix :: c in "0123456789abcdef"
  {
    if ValidPrefix(prefix) {
      forall c | c in prefix ensures c in "0123456789abcdef" {
        HexDigitIs(c);
      }
    }
    if forall c | c in prefix :: c in "0123456789abcdef" {
      forall i | 0 <= i < |prefix| ensures IsLowerHex(prefix[i]) {
        assert prefix[i] in prefix;
        HexDigitIs(prefix[i]);
      }
    }
  }

  lemma HexDigitIs(c: char)
    ensures IsLowerHex(c) <==> c in "0123456789abcdef"
  {
    var all := "0123456789abcdef";
    if '0' <= c <= '9' {
      assert all[c as int - 48] == c;
    } else if 'a' <= c <= 'f' {
      assert all[c as int - 87] == c;
    }
  }

  lemma SecretCharactersAre(secret: string)
    ensures ValidSecret(secret) <==>
            secret != "" && forall c | c in secret ::
              'a' <= c <= 'z' || 'A' <= c <= 'Z' || '0' <= c <= '9' || c == '-' || c == '_'
  {
    if forall c | c in secret :: 'a' <= c <= 'z' || 'A' <= c <= 'Z' || '0' <= c <= '9' || c == '-' || c == '_' {
      forall i | 0 <= i < |secret| ensures B64.InAlphabet(secret[i]) {
        assert secret[i] in secret;
      }
    }
  }

  // ----- Generating

  function HexDigit(nibble: nat): char
    requires nibble < 16
  {
    "0123456789abcdef"[nibble]
  }

  /** Lowercase hex: two digits a byte, high one first. */
  function Hex(bytes: seq<byte>): (text: string)
    ensures |text| == 2 * |bytes|
    ensures forall i | 0 <= i < |bytes| ::
              DigitValue(text[2 * i]) == Some(bytes[i] / 16) && DigitValue(text[2 * i + 1]) == Some(bytes[i] % 16)
    ensures forall i | 0 <= i < |text| :: IsLowerHex(text[i])
  {
    if bytes == [] then ""
    else
      var last := bytes[|bytes| - 1];
      Hex(bytes[..|bytes| - 1]) + [HexDigit(last / 16), HexDigit(last % 16)]
  }

  method HexText(bytes: seq<byte>) returns (text: string)
    ensures text == Hex(bytes)
  {
    text := "";
    for i := 0 to |bytes|
      invariant text == Hex(bytes[..i])
    {
      assert bytes[..i + 1][..i] == bytes[..i];
      text := text + [HexDigit(bytes[i] / 16)];
      text := text + [HexDigit(bytes[i] % 16)];
    }
    assert bytes[..|bytes|] == bytes;
  }

  /** The presented form of a generated key, from the bytes the generator drew. */
  function Generated(environment: Environment, prefixBytes: seq<byte>, secretBytes: seq<byte>): string {
    Print(environment, Hex(prefixBytes), B64.Encode(secretBytes))
  }

  /** Four characters for three bytes, rounded up. */
  lemma {:induction false} PackedLength(bytes: seq<byte>)
    ensures |B64.Pack(bytes)| == (4 * |bytes| + 2) / 3
  {
    if |bytes| >= 3 {
      PackedLength(bytes[3..]);
    }
  }

  /** Every generated key parses to its own parts, whatever was drawn: underscores in the secret are no delimiter. */
  lemma GeneratedParses(environment: Environment, prefixBytes: seq<byte>, secretBytes: seq<byte>)
    requires |prefixBytes| == 4 && |secretBytes| == 32
    ensures Parse(Generated(environment, prefixBytes, secretBytes)) ==
            Some((environment, Hex(prefixBytes), B64.Encode(secretBytes)))
    ensures |B64.Encode(secretBytes)| == 43 && |Generated(environment, prefixBytes, secretBytes)| == 61
  {
    hide Parse, B64.Pack;
    PackedLength(secretBytes);
    var secret := B64.Encode(secretBytes);
    forall i | 0 <= i < |secret| ensures B64.InAlphabet(secret[i]) {
      B64.AlphabetInverse(secret[i], B64.Pack(secretBytes)[i]);
    }
    ParseExact(Generated(environment, prefixBytes, secretBytes), environment, Hex(prefixBytes), secret);
  }

  /** Different draws print different keys. */
  lemma GeneratedInjective(
      e1: Environment, p1: seq<byte>, s1: seq<byte>, e2: Environment, p2: seq<byte>, s2: seq<byte>)
    requires |p1| == |p2| == PREFIX_LENGTH / 2 && |s1| == |s2| == SECRET_BYTES
    requires Generated(e1, p1, s1) == Generated(e2, p2, s2)
    ensures e1 == e2 && p1 == p2 && s1 == s2
  {
    hide Parse, Generated, B64.Encode;
    GeneratedParses(e1, p1, s1);
    GeneratedParses(e2, p2, s2);
    B64.OneSpelling(B64.Encode(s1), s1);
    B64.OneSpelling(B64.Encode(s2), s2);
    assert forall i | 0 <= i < |p1| :: p1[i] == p1[i] / 16 * 16 + p1[i] % 16;
    forall i | 0 <= i < |p1| ensures p1[i] == p2[i] {
      assert DigitValue(Hex(p1)[2 * i]) == Some(p1[i] / 16) && DigitValue(Hex(p2)[2 * i]) == Some(p2[i] / 16);
      assert DigitValue(Hex(p1)[2 * i + 1]) == Some(p1[i] % 16) && DigitValue(Hex(p2)[2 * i + 1]) == Some(p2[i] % 16);
    }
  }
}
