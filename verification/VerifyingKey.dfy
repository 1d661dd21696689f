/** Public keys: the encodings a verifying key is parsed from, and its JWK form (RFC 7518 section 6, RFC 8037 section 2). */
module VerifyingKey {
  import opened Wrappers
  import opened Utf8
  import opened Der
  import B64 = Base64Url

  datatype Algorithm = EdDSA | ES256 | RS256 | HS256 {
    function Name(): string {
      match this
      case EdDSA => "EdDSA"
      case ES256 => "ES256"
      case RS256 => "RS256"
      case HS256 => "HS256"
    }
  }

  const ED25519_KEY_LEN: nat := 32
  const P256_POINT_LEN: nat := 65
  const P256_COORD_LEN: nat := 32

  datatype Key =
    | Ed25519(key: seq<byte>)
    | P256(point: seq<byte>)
    | Rsa(n: seq<byte>, e: seq<byte>)
    | Hmac(secret: seq<byte>)
  {
    /** The key is one the algorithm uses, in the shape it uses it. */
    predicate Fits(algorithm: Algorithm) {
      match this
      case Ed25519(key) => algorithm.EdDSA? && |key| == ED25519_KEY_LEN
      case P256(point) => algorithm.ES256? && |point| == P256_POINT_LEN && point[0] == 0x04
      case Rsa(_, _) => algorithm.RS256?
      case Hmac(secret) => algorithm.HS256? && secret != []
    }
  }

  datatype ConfigError = BadKey(algorithm: Algorithm) | BadJwk(algorithm: Algorithm) | NeverPublished

  // ----- Parsing

  function NormaliseP256(bytes: seq<byte>): Option<seq<byte>> {
    if |bytes| == P256_POINT_LEN && bytes[0] == 0x04 then Some(bytes)
    else if |bytes| == 64 then Some([0x04] + bytes)
    else None
  }

  function Parse(algorithm: Algorithm, bytes: seq<byte>): Result<Key, ConfigError> {
    match algorithm
    case EdDSA =>
      if |bytes| == ED25519_KEY_LEN then Ok(Ed25519(bytes))
      else
        match SpkiKeyBits(bytes) {
          case Some(key) => if |key| == ED25519_KEY_LEN then Ok(Ed25519(key)) else Err(BadKey(algorithm))
          case None => Err(BadKey(algorithm))
        }
    case ES256 =>
      match NormaliseP256(bytes) {
        case Some(point) => Ok(P256(point))
        case None =>
          match SpkiKeyBits(bytes)
          case None => Err(BadKey(algorithm))
          case Some(bits) =>
            match NormaliseP256(bits)
            case Some(point) => Ok(P256(point))
            case None => Err(BadKey(algorithm))
      }
    case RS256 =>
      match RsaPublicKey(bytes) {
        case Some((n, e)) => Ok(Rsa(n, e))
        case None =>
          match SpkiKeyBits(bytes)
          case None => Err(BadKey(algorithm))
          case Some(bits) =>
            match RsaPublicKey(bits)
            case Some((n, e)) => Ok(Rsa(n, e))
            case None => Err(BadKey(algorithm))
      }
    case HS256 =>
      if bytes == [] then Err(BadKey(algorithm)) else Ok(Hmac(bytes))
  }

  // ----- The encodings of a key

  /** `bytes` is a P-256 point written out in full, or its bare coordinates. */
  ghost predicate PointForm(bytes: seq<byte>, point: seq<byte>) {
    |point| == P256_POINT_LEN && point[0] == 0x04 && (bytes == point || bytes == point[1..])
  }

  /** `bytes` is a PKCS#1 key whose integers have the values of `n` and `e`, both minimal. */
  ghost predicate RsaForm(bytes: seq<byte>, n: seq<byte>, e: seq<byte>) {
    exists modulus, exponent ::
      && Pkcs1(bytes, modulus, exponent)
      && Minimal(n) && Value(n) == Value(modulus)
      && Minimal(e) && Value(e) == Value(exponent)
  }

  predicate Minimal(s: seq<byte>) {
    s != [] ==> s[0] != 0
  }

  /** `bytes` is an accepted encoding of `key`: a bare form, or an SPKI wrapping one. */
  ghost predicate Encodes(algorithm: Algorithm, bytes: seq<byte>, key: Key) {
    match (algorithm, key)
    case (EdDSA, Ed25519(raw)) => |raw| == ED25519_KEY_LEN && (bytes == raw || Spki(bytes, raw))
    case (ES256, P256(point)) =>
      PointForm(bytes, point) || exists bits :: Spki(bytes, bits) && PointForm(bits, point)
    case (RS256, Rsa(n, e)) =>
      RsaForm(bytes, n, e) || exists bits :: Spki(bytes, bits) && RsaForm(bits, n, e)
    case (HS256, Hmac(secret)) => bytes == secret && secret != []
    case _ => false
  }

  lemma NormaliseExact(bytes: seq<byte>, point: seq<byte>)
    ensures NormaliseP256(bytes) == Some(point) <==> PointForm(bytes, point)
  {
    if NormaliseP256(bytes) == Some(point) {
      assert bytes != point ==> point[1..] == bytes;
    }
    if PointForm(bytes, point) {
      assert point == [0x04] + point[1..];
    }
  }

  lemma RsaExact(bytes: seq<byte>, n: seq<byte>, e: seq<byte>)
    ensures RsaPublicKey(bytes) == Some((n, e)) <==> RsaForm(bytes, n, e)
  {
    hide RsaIntegers, Pkcs1, Value, Unsigned;
    if RsaPublicKey(bytes) == Some((n, e)) {
      var (modulus, exponent) := RsaIntegers(bytes).value;
      Pkcs1Exact(bytes, modulus, exponent);
      UnsignedKeepsValue(modulus);
      UnsignedKeepsValue(exponent);
    }
    if RsaForm(bytes, n, e) {
      var modulus, exponent :|
        Pkcs1(bytes, modulus, exponent) && Minimal(n) && Value(n) == Value(modulus)
        && Minimal(e) && Value(e) == Value(exponent);
      Pkcs1Exact(bytes, modulus, exponent);
      UnsignedKeepsValue(modulus);
      UnsignedKeepsValue(exponent);
      MinimalUnique(n, Unsigned(modulus));
      MinimalUnique(e, Unsigned(exponent));
    }
  }

  // ----- No form is mistaken for another

  /** An SPKI is at least seven bytes longer than its key. */
  lemma SpkiSize(bytes: seq<byte>, key: seq<byte>)
    requires Spki(bytes, key)
    ensures |bytes| >= |key| + 7
  {
    hide Element;
    var algorithm, bits, content :|
      Element(bytes, SEQUENCE, algorithm + bits) && Element(algorithm, SEQUENCE, content)
      && Element(bits, BIT_STRING, [0] + key);
    ElementSize(bytes, SEQUENCE, algorithm + bits);
    ElementSize(algorithm, SEQUENCE, content);
    ElementSize(bits, BIT_STRING, [0] + key);
  }

  /** An SPKI starts with the algorithm sequence, a PKCS#1 key with an integer. */
  lemma SpkiIsNotPkcs1(bytes: seq<byte>, key: seq<byte>, modulus: seq<byte>, exponent: seq<byte>)
    requires Spki(bytes, key)
    ensures !Pkcs1(bytes, modulus, exponent)
  {
    hide Element;
    if Pkcs1(bytes, modulus, exponent) {
      var algorithm, bits, content :|
        Element(bytes, SEQUENCE, algorithm + bits) && Element(algorithm, SEQUENCE, content)
        && Element(bits, BIT_STRING, [0] + key);
      var first, second :|
        Element(bytes, SEQUENCE, first + second) && Element(first, INTEGER, modulus)
        && Element(second, INTEGER, exponent);
      ElementSize(algorithm, SEQUENCE, content);
      ElementSize(first, INTEGER, modulus);
      var a, b := (algorithm + bits)[0], (first + second)[0];
      assert a == SEQUENCE && b == INTEGER;
      ElementUnique(bytes, SEQUENCE, algorithm + bits, first + second);
    }
  }

  /** Parsing answers a key exactly for that key's encodings. */
  lemma ParseExact(algorithm: Algorithm, bytes: seq<byte>, key: Key)
    ensures Parse(algorithm, bytes) == Ok(key) <==> Encodes(algorithm, bytes, key)
  {
    match algorithm
    case EdDSA => ParseEd25519(bytes, key);
    case ES256 => ParseP256(bytes, key);
    case RS256 => ParseRsa(bytes, key);
    case HS256 =>
  }

  lemma ParseEd25519(bytes: seq<byte>, key: Key)
    ensures Parse(EdDSA, bytes) == Ok(key) <==> Encodes(EdDSA, bytes, key)
  {
    hide SpkiKeyBits, Spki;
    if key.Ed25519? {
      SpkiExact(bytes, key.key);
      if Spki(bytes, key.key) {
        SpkiSize(bytes, key.key);
      }
    }
  }

  lemma ParseP256(bytes: seq<byte>, key: Key)
    ensures Parse(ES256, bytes) == Ok(key) <==> Encodes(ES256, bytes, key)
  {
    hide SpkiKeyBits, Spki, NormaliseP256, PointForm;
    if key.P256? {
      NormaliseExact(bytes, key.point);
      forall bits ensures SpkiKeyBits(bytes) == Some(bits) <==> Spki(bytes, bits) {
        SpkiExact(bytes, bits);
      }
      forall bits ensures NormaliseP256(bits) == Some(key.point) <==> PointForm(bits, key.point) {
        NormaliseExact(bits, key.point);
      }
      if bits :| Spki(bytes, bits) && PointForm(bits, key.point) {
        SpkiSize(bytes, bits);
        PointSize(bits, key.point);
      }
      NormalisedSize(bytes);
    }
  }

  lemma PointSize(bytes: seq<byte>, point: seq<byte>)
    requires PointForm(bytes, point)
    ensures 64 <= |bytes| <= 65
  {
  }

  lemma NormalisedSize(bytes: seq<byte>)
    ensures NormaliseP256(bytes).Some? ==> 64 <= |bytes| <= 65
  {
  }

  lemma ParseRsa(bytes: seq<byte>, key: Key)
    ensures Parse(RS256, bytes) == Ok(key) <==> Encodes(RS256, bytes, key)
  {
    hide SpkiKeyBits, Spki, RsaPublicKey, RsaForm, Pkcs1;
    if key.Rsa? {
      RsaExact(bytes, key.n, key.e);
      forall bits ensures SpkiKeyBits(bytes) == Some(bits) <==> Spki(bytes, bits) {
        SpkiExact(bytes, bits);
      }
      forall bits ensures RsaPublicKey(bits) == Some((key.n, key.e)) <==> RsaForm(bits, key.n, key.e) {
        RsaExact(bits, key.n, key.e);
      }
      if bits :| Spki(bytes, bits) {
        NotAnRsaKey(bytes, bits);
      }
    }
  }

  lemma NotAnRsaKey(bytes: seq<byte>, bits: seq<byte>)
    requires Spki(bytes, bits)
    ensures RsaPublicKey(bytes).None?
  {
    hide Spki, Pkcs1, RsaIntegers;
    if RsaPublicKey(bytes).Some? {
      var (modulus, exponent) := RsaIntegers(bytes).value;
      Pkcs1Exact(bytes, modulus, exponent);
      SpkiIsNotPkcs1(bytes, bits, modulus, exponent);
    }
  }

  /** Keys come out of parsing in their algorithm's shape. */
  lemma ParsedFits(algorithm: Algorithm, bytes: seq<byte>)
    requires Parse(algorithm, bytes).Ok?
    ensures Parse(algorithm, bytes).value.Fits(algorithm)
  {
    hide SpkiKeyBits, RsaPublicKey;
  }

  // ----- Standard encoders, inverted

  /** A DER INTEGER's content: at least one byte, and a zero in front of a high bit. */
  function SignPadded(n: seq<byte>): seq<byte> {
    if n == [] then [0] else if n[0] >= 0x80 then [0] + n else n
  }

  /** Four length bytes are enough for the key. */
  predicate Pkcs1Fits(n: seq<byte>, e: seq<byte>) {
    && |SignPadded(n)| < LENGTHS && |SignPadded(e)| < LENGTHS
    && |EncodeElement(INTEGER, SignPadded(n))| + |EncodeElement(INTEGER, SignPadded(e))| < LENGTHS
  }

  function EncodePkcs1(n: seq<byte>, e: seq<byte>): seq<byte>
    requires Pkcs1Fits(n, e)
  {
    EncodeElement(SEQUENCE, EncodeElement(INTEGER, SignPadded(n)) + EncodeElement(INTEGER, SignPadded(e)))
  }

  predicate SpkiFits(algorithm: seq<byte>, key: seq<byte>) {
    && |algorithm| < LENGTHS && |key| + 1 < LENGTHS
    && |EncodeElement(SEQUENCE, algorithm)| + |EncodeElement(BIT_STRING, [0] + key)| < LENGTHS
  }

  function EncodeSpki(algorithm: seq<byte>, key: seq<byte>): seq<byte>
    requires SpkiFits(algorithm, key)
  {
    EncodeElement(SEQUENCE, EncodeElement(SEQUENCE, algorithm) + EncodeElement(BIT_STRING, [0] + key))
  }

  lemma SignPaddedValue(n: seq<byte>)
    ensures Value(SignPadded(n)) == Value(n)
  {
    ValueOfPadded(n);
    assert n == [] ==> [0] + n == SignPadded(n);
  }

  lemma EncodedPkcs1(n: seq<byte>, e: seq<byte>)
    requires Pkcs1Fits(n, e) && Minimal(n) && Minimal(e)
    ensures RsaForm(EncodePkcs1(n, e), n, e)
    ensures |EncodePkcs1(n, e)| <= |n| + |e| + 20
  {
    hide Element, Value;
    SignPaddedValue(n);
    SignPaddedValue(e);
    assert Pkcs1(EncodePkcs1(n, e), SignPadded(n), SignPadded(e));
  }

  lemma EncodedSpki(algorithm: seq<byte>, key: seq<byte>)
    requires SpkiFits(algorithm, key)
    ensures Spki(EncodeSpki(algorithm, key), key)
  {
    hide Element;
  }

  /** An Ed25519 key's two encodings parse to that key. */
  lemma Ed25519EncodingsAgree(algorithm: seq<byte>, raw: seq<byte>)
    requires SpkiFits(algorithm, raw) && |raw| == ED25519_KEY_LEN
    ensures Parse(EdDSA, raw) == Parse(EdDSA, EncodeSpki(algorithm, raw)) == Ok(Ed25519(raw))
  {
    hide Parse, Spki;
    ParseExact(EdDSA, raw, Ed25519(raw));
    EncodedSpki(algorithm, raw);
    ParseExact(EdDSA, EncodeSpki(algorithm, raw), Ed25519(raw));
  }

  /** A P-256 key's four encodings parse to that key. */
  lemma P256EncodingsAgree(algorithm: seq<byte>, point: seq<byte>)
    requires |point| == P256_POINT_LEN && point[0] == 0x04
    requires SpkiFits(algorithm, point) && SpkiFits(algorithm, point[1..])
    ensures Parse(ES256, point) == Parse(ES256, point[1..]) == Ok(P256(point))
    ensures Parse(ES256, EncodeSpki(algorithm, point)) == Parse(ES256, EncodeSpki(algorithm, point[1..])) == Ok(P256(point))
  {
    hide Parse, Spki;
    ParseExact(ES256, point, P256(point));
    ParseExact(ES256, point[1..], P256(point));
    EncodedSpki(algorithm, point);
    ParseExact(ES256, EncodeSpki(algorithm, point), P256(point));
    EncodedSpki(algorithm, point[1..]);
    ParseExact(ES256, EncodeSpki(algorithm, point[1..]), P256(point));
  }

  /** An RSA key's two encodings parse to that key. */
  lemma RsaEncodingsAgree(algorithm: seq<byte>, n: seq<byte>, e: seq<byte>)
    requires Minimal(n) && Minimal(e) && Pkcs1Fits(n, e) && SpkiFits(algorithm, EncodePkcs1(n, e))
    ensures Parse(RS256, EncodePkcs1(n, e)) == Ok(Rsa(n, e))
    ensures Parse(RS256, EncodeSpki(algorithm, EncodePkcs1(n, e))) == Ok(Rsa(n, e))
  {
    hide Parse, Spki, RsaForm, EncodePkcs1, EncodeSpki, Encodes;
    EncodedPkcs1(n, e);
    var pkcs1 := EncodePkcs1(n, e);
    BareRsaParses(pkcs1, n, e);
    EncodedSpki(algorithm, pkcs1);
    WrappedRsaParses(EncodeSpki(algorithm, pkcs1), pkcs1, n, e);
  }

  lemma BareRsaParses(bytes: seq<byte>, n: seq<byte>, e: seq<byte>)
    requires RsaForm(bytes, n, e)
    ensures Parse(RS256, bytes) == Ok(Rsa(n, e))
  {
    hide Parse, RsaForm, Spki;
    ParseExact(RS256, bytes, Rsa(n, e));
  }

  lemma WrappedRsaParses(bytes: seq<byte>, bits: seq<byte>, n: seq<byte>, e: seq<byte>)
    requires Spki(bytes, bits) && RsaForm(bits, n, e)
    ensures Parse(RS256, bytes) == Ok(Rsa(n, e))
  {
    hide Parse, RsaForm, Spki;
    ParseExact(RS256, bytes, Rsa(n, e));
  }

  // ----- JWK

  datatype Jwk = Jwk(
    kty: string, crv: Option<string>, kid: Option<string>, alg: Option<string>, keyUse: Option<string>,
    n: Option<string>, e: Option<string>, x: Option<string>, y: Option<string>)

  function Published(kty: string, kid: string, algorithm: Algorithm): Jwk {
    Jwk(kty, None, Some(kid), Some(algorithm.Name()), Some("sig"), None, None, None, None)
  }

  /** `None` for a symmetric key, and for a point too short to split. */
  function ToJwk(key: Key, kid: string, algorithm: Algorithm): Option<Jwk> {
    match key
    case Ed25519(raw) =>
      Some(Published("OKP", kid, algorithm).(crv := Some("Ed25519"), x := Some(B64.Encode(raw))))
    case P256(point) =>
      if |point| < 1 + P256_COORD_LEN then None
      else
        var (x, y) := (point[1..1 + P256_COORD_LEN], point[1 + P256_COORD_LEN..]);
        Some(Published("EC", kid, algorithm).(
          crv := Some("P-256"), x := Some(B64.Encode(x)), y := Some(B64.Encode(y))))
    case Rsa(n, e) =>
      Some(Published("RSA", kid, algorithm).(n := Some(B64.Encode(n)), e := Some(B64.Encode(e))))
    case Hmac(_) => None
  }

  function Field(field: Option<string>): Option<seq<byte>> {
    match field
    case None => None
    case Some(text) => B64.Decode(text)
  }

  function FromJwk(jwk: Jwk, algorithm: Algorithm): Result<Key, ConfigError> {
    match algorithm
    case EdDSA =>
      if jwk.kty != "OKP" || jwk.crv != Some("Ed25519") then Err(BadJwk(algorithm))
      else
        match Field(jwk.x) {
          case Some(key) => if |key| == ED25519_KEY_LEN then Ok(Ed25519(key)) else Err(BadJwk(algorithm))
          case None => Err(BadJwk(algorithm))
        }
    case ES256 =>
      if jwk.kty != "EC" || jwk.crv != Some("P-256") then Err(BadJwk(algorithm))
      else
        match (Field(jwk.x), Field(jwk.y)) {
          case (Some(x), Some(y)) =>
            if |x| == P256_COORD_LEN && |y| == P256_COORD_LEN then Ok(P256([0x04] + x + y))
            else Err(BadJwk(algorithm))
          case _ => Err(BadJwk(algorithm))
        }
    case RS256 =>
      if jwk.kty != "RSA" then Err(BadJwk(algorithm))
      else
        match (Field(jwk.n), Field(jwk.e)) {
          case (Some(n), Some(e)) => if n != [] && e != [] then Ok(Rsa(n, e)) else Err(BadJwk(algorithm))
          case _ => Err(BadJwk(algorithm))
        }
    case HS256 => Err(NeverPublished)
  }

  /** The members of a JWK that carry the key are exactly those publishing it writes. */
  ghost predicate Carries(jwk: Jwk, key: Key) {
    match key
    case Ed25519(raw) => jwk.kty == "OKP" && jwk.crv == Some("Ed25519") && jwk.x == Some(B64.Encode(raw))
    case P256(point) =>
      && |point| == P256_POINT_LEN
      && jwk.kty == "EC" && jwk.crv == Some("P-256")
      && jwk.x == Some(B64.Encode(point[1..1 + P256_COORD_LEN]))
      && jwk.y == Some(B64.Encode(point[1 + P256_COORD_LEN..]))
    case Rsa(n, e) => jwk.kty == "RSA" && jwk.n == Some(B64.Encode(n)) && jwk.e == Some(B64.Encode(e))
    case Hmac(_) => false
  }

  lemma FieldIs(field: Option<string>, bytes: seq<byte>)
    ensures Field(field) == Some(bytes) <==> field == Some(B64.Encode(bytes))
  {
    if field.Some? {
      B64.OneSpelling(field.value, bytes);
    }
  }

  /** A JWK reads as a key exactly when it carries it: there is no second spelling. */
  lemma FromJwkExact(jwk: Jwk, algorithm: Algorithm, key: Key)
    ensures FromJwk(jwk, algorithm) == Ok(key) <==>
            && key.Fits(algorithm) && Carries(jwk, key)
            && (key.Rsa? ==> key.n != [] && key.e != [])
  {
    hide Field, B64.Encode, B64.Decode;
    match key
    case Ed25519(raw) => FieldIs(jwk.x, raw);
    case P256(point) =>
      if |point| == P256_POINT_LEN {
        FieldIs(jwk.x, point[1..1 + P256_COORD_LEN]);
        FieldIs(jwk.y, point[1 + P256_COORD_LEN..]);
        CoordinatesSplit(point);
      }
      if FromJwk(jwk, algorithm) == Ok(key) {
        var x, y := Field(jwk.x).value, Field(jwk.y).value;
        assert point[1..1 + P256_COORD_LEN] == x && point[1 + P256_COORD_LEN..] == y;
      }
    case Rsa(n, e) =>
      FieldIs(jwk.n, n);
      FieldIs(jwk.e, e);
    case Hmac(_) =>
  }

  lemma CoordinatesSplit(point: seq<byte>)
    requires |point| == P256_POINT_LEN
    ensures [point[0]] + point[1..1 + P256_COORD_LEN] + point[1 + P256_COORD_LEN..] == point
  {
  }

  /** Publishing a key and reading it back returns it, exactly for asymmetric keys with non-empty RSA integers. */
  lemma PublishedReadsBack(key: Key, kid: string, algorithm: Algorithm)
    requires key.Fits(algorithm)
    ensures ToJwk(key, kid, algorithm).None? <==> key.Hmac?
    ensures var jwk := ToJwk(key, kid, algorithm);
            jwk.Some? ==>
              (FromJwk(jwk.value, algorithm) == Ok(key) <==> (key.Rsa? ==> key.n != [] && key.e != []))
  {
    hide B64.Encode, FromJwk;
    var jwk := ToJwk(key, kid, algorithm);
    if jwk.Some? {
      FromJwkExact(jwk.value, algorithm, key);
    }
  }

  /** So a configured key survives publication unless it is a secret, or an RSA key with n or e zero. */
  lemma ParsedKeyReadsBack(algorithm: Algorithm, bytes: seq<byte>, kid: string)
    requires Parse(algorithm, bytes).Ok?
    ensures var key := Parse(algorithm, bytes).value;
            var jwk := ToJwk(key, kid, algorithm);
            (jwk.Some? && FromJwk(jwk.value, algorithm) == Ok(key)) <==>
            !algorithm.HS256? && (key.Rsa? ==> Value(key.n) != 0 && Value(key.e) != 0)
  {
    hide FromJwk, ToJwk, SpkiKeyBits;
    var key := Parse(algorithm, bytes).value;
    ParsedFits(algorithm, bytes);
    PublishedReadsBack(key, kid, algorithm);
    if key.Rsa? {
      ParseExact(algorithm, bytes, key);
      RsaIsMinimal(bytes, key.n, key.e);
      MinimalPositive(key.n);
      MinimalPositive(key.e);
    }
  }

  /** A PKCS#1 key whose modulus is zero is one: it parses and is published, and what is published is refused. */
  lemma ZeroModulusIsNotReadBack(e: seq<byte>, kid: string)
    requires Minimal(e) && Pkcs1Fits([], e)
    ensures Parse(RS256, EncodePkcs1([], e)) == Ok(Rsa([], e))
    ensures var jwk := ToJwk(Rsa([], e), kid, RS256);
            jwk.Some? && FromJwk(jwk.value, RS256) == Err(BadJwk(RS256))
    ensures Pkcs1Fits([], [0x01, 0x00, 0x01])
  {
    hide Parse, B64.Encode, B64.Decode, EncodePkcs1, RsaForm;
    EncodedPkcs1([], e);
    BareRsaParses(EncodePkcs1([], e), [], e);
    B64.OneSpelling(B64.Encode([]), []);
    B64.OneSpelling(B64.Encode(e), e);
  }

  lemma RsaIsMinimal(bytes: seq<byte>, n: seq<byte>, e: seq<byte>)
    requires Encodes(RS256, bytes, Rsa(n, e))
    ensures Minimal(n) && Minimal(e)
  {
    hide Spki, Pkcs1, Value;
  }
}
