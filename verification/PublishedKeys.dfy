/** Keys byte by byte: the lengths and encodings that are accepted, and the JWKs that are published, written out. */
module PublishedKeys {
  import opened Wrappers
  import opened Utf8
  import opened Der
  import opened VerifyingKey
  import B64 = Base64Url

  // ----- Lengths and values

  /** The five forms of a length, byte by byte. */
  lemma LengthExactly(form: seq<byte>, n: nat)
    ensures SpellsLength(form, n) <==>
            || (|form| == 1 && form[0] < 0x80 && n == form[0])
            || (|form| == 2 && form[0] == 0x81 && n == form[1])
            || (|form| == 3 && form[0] == 0x82 && n == (form[1] as int) * 0x100 + form[2])
            || (|form| == 4 && form[0] == 0x83 && n == (form[1] as int) * 0x1_0000 + (form[2] as int) * 0x100 + form[3])
            || (|form| == 5 && form[0] == 0x84
                && n == (form[1] as int) * 0x100_0000 + (form[2] as int) * 0x1_0000 + (form[3] as int) * 0x100 + form[4])
  {
    hide Value;
    if 2 <= |form| <= 5 {
      SmallValue(form[1..]);
    }
  }

  lemma SmallValue(s: seq<byte>)
    requires 1 <= |s| <= 4
    ensures Value(s) == if |s| == 1 then s[0]
                        else if |s| == 2 then (s[0] as int) * 0x100 + s[1]
                        else if |s| == 3 then (s[0] as int) * 0x1_0000 + (s[1] as int) * 0x100 + s[2]
                        else (s[0] as int) * 0x100_0000 + (s[1] as int) * 0x1_0000 + (s[2] as int) * 0x100 + s[3]
  {
    hide Value;
    ValueStep(s);
    if |s| > 1 {
      ValueStep(s[..|s| - 1]);
    }
    if |s| > 2 {
      ValueStep(s[..|s| - 1][..|s| - 2]);
      assert s[..|s| - 1][..|s| - 2] == s[..|s| - 2];
    }
    if |s| > 3 {
      ValueStep(s[..1]);
      assert s[..|s| - 2][..|s| - 3] == s[..1];
    }
  }

  lemma ValueStep(s: seq<byte>)
    requires s != []
    ensures Value(s) == (if |s| == 1 then 0 else Value(s[..|s| - 1])) * 0x100 + s[|s| - 1]
  {
    assert |s| == 1 ==> s[..0] == [];
  }

  /** The canonical form of a length is the shortest there is, and the only one of its size. */
  lemma LengthFormIsShortest(form: seq<byte>, n: nat)
    requires n < LENGTHS && SpellsLength(form, n)
    ensures |LengthForm(n)| <= |form| && (|LengthForm(n)| == |form| ==> LengthForm(n) == form)
  {
    hide LengthForm, Value;
    LengthFormSize(n);
    SpelledBound(form, n);
    if |LengthForm(n)| == |form| > 1 {
      SameValue(form[1..], LengthForm(n)[1..]);
      assert form == [form[0]] + form[1..];
      assert LengthForm(n) == [form[0]] + LengthForm(n)[1..];
    }
  }

  /** A form of so many bytes spells no more than they can hold. */
  lemma SpelledBound(form: seq<byte>, n: nat)
    requires SpellsLength(form, n)
    ensures n < if |form| == 1 then 0x80
                else if |form| == 2 then 0x100
                else if |form| == 3 then 0x1_0000
                else if |form| == 4 then 0x100_0000
                else 0x1_0000_0000
  {
    hide Value;
    LengthExactly(form, n);
  }

  lemma {:induction false} SameValue(a: seq<byte>, b: seq<byte>)
    requires |a| == |b| && Value(a) == Value(b)
    ensures a == b
  {
    if a != [] {
      SameValue(a[..|a| - 1], b[..|a| - 1]);
      assert a == a[..|a| - 1] + [a[|a| - 1]] && b == b[..|a| - 1] + [b[|a| - 1]];
    }
  }

  lemma LengthFormSize(n: nat)
    requires n < LENGTHS
    ensures |LengthForm(n)| ==
            if n < 0x80 then 1
            else if n < 0x100 then 2
            else if n < 0x1_0000 then 3
            else if n < 0x100_0000 then 4
            else 5
  {
  }

  /** An element whose bytes are known: the tag, the length form, the content. */
  lemma ElementIs(s: seq<byte>, tag: byte, form: seq<byte>, content: seq<byte>)
    requires s == [tag] + form + content && SpellsLength(form, |content|)
    ensures Element(s, tag, content)
  {
  }

  // ----- Bare keys

  /** Raw keys, points and secrets by their lengths. */
  lemma BareKeysParse(raw: seq<byte>, coordinates: seq<byte>, secret: seq<byte>)
    requires |raw| == 32 && |coordinates| == 64
    ensures Parse(EdDSA, raw) == Ok(Ed25519(raw))
    ensures Parse(ES256, coordinates) == Parse(ES256, [0x04] + coordinates) == Ok(P256([0x04] + coordinates))
    ensures Parse(HS256, secret) == if secret == [] then Err(BadKey(HS256)) else Ok(Hmac(secret))
  {
    hide SpkiKeyBits;
  }

  /** The kinds and shapes of the keys that parsing answers. */
  lemma ShapesAre(algorithm: Algorithm, bytes: seq<byte>)
    requires Parse(algorithm, bytes).Ok?
    ensures match Parse(algorithm, bytes).value
            case Ed25519(key) => algorithm == EdDSA && |key| == 32
            case P256(point) => algorithm == ES256 && |point| == 65 && point[0] == 0x04
            case Rsa(_, _) => algorithm == RS256
            case Hmac(secret) => algorithm == HS256 && secret == bytes != []
  {
    ParsedFits(algorithm, bytes);
    hide SpkiKeyBits, RsaPublicKey;
  }

  // ----- Wrapped keys, as they are found in the world

  /** The SubjectPublicKeyInfo of an Ed25519 key, section 4 of RFC 8410. */
  lemma Ed25519SpkiParses(key: seq<byte>)
    requires |key| == 32
    ensures Parse(EdDSA, [0x30, 0x2A, 0x30, 0x05, 0x06, 0x03, 0x2B, 0x65, 0x70, 0x03, 0x21, 0x00] + key)
         == Ok(Ed25519(key))
  {
    hide Parse, Element, Encodes;
    var bytes: seq<byte> := [0x30, 0x2A, 0x30, 0x05, 0x06, 0x03, 0x2B, 0x65, 0x70, 0x03, 0x21, 0x00] + key;
    var content: seq<byte> := [0x06, 0x03, 0x2B, 0x65, 0x70];
    var algorithm: seq<byte> := [0x30, 0x05] + content;
    var bits: seq<byte> := [0x03, 0x21] + ([0x00] + key);
    assert bytes == [0x30, 0x2A] + (algorithm + bits);
    ShortSpki(bytes, algorithm, bits, content, key);
    WrappedEd25519(bytes, key);
  }

  lemma WrappedEd25519(bytes: seq<byte>, key: seq<byte>)
    requires Spki(bytes, key) && |key| == 32
    ensures Parse(EdDSA, bytes) == Ok(Ed25519(key))
  {
    hide Parse, Spki;
    ParseExact(EdDSA, bytes, Ed25519(key));
  }

  /** An SPKI whose lengths are all of one byte. */
  lemma ShortSpki(bytes: seq<byte>, algorithm: seq<byte>, bits: seq<byte>, content: seq<byte>, key: seq<byte>)
    requires |content| < 0x80 && |key| < 0x7F && |algorithm| + |bits| < 0x80
    requires algorithm == [0x30, |content|] + content && bits == [0x03, |key| + 1] + ([0x00] + key)
    requires bytes == [0x30, |algorithm| + |bits|] + (algorithm + bits)
    ensures Spki(bytes, key)
  {
    hide Element;
    ShortElement(algorithm, 0x30, content);
    ShortElement(bits, 0x03, [0x00] + key);
    ShortElement(bytes, 0x30, algorithm + bits);
  }

  lemma ShortElement(s: seq<byte>, tag: byte, content: seq<byte>)
    requires |content| < 0x80 && s == [tag, |content|] + content
    ensures Element(s, tag, content)
  {
    assert s == [tag] + [|content|] + content;
    LengthExactly([|content|], |content|);
    ElementIs(s, tag, [|content|], content);
  }

  lemma LongElement(s: seq<byte>, tag: byte, high: byte, low: byte, content: seq<byte>)
    requires |content| == high * 0x100 + low && s == [tag, 0x82, high, low] + content
    ensures Element(s, tag, content)
  {
    assert s == [tag] + [0x82, high, low] + content;
    LengthExactly([0x82, high, low], |content|);
    ElementIs(s, tag, [0x82, high, low], content);
  }

  /** The algorithm of an elliptic-curve key over P-256: `ecPublicKey` and `prime256v1`. */
  const EC_ALGORITHM: seq<byte> :=
    [0x06, 0x07, 0x2A, 0x86, 0x48, 0xCE, 0x3D, 0x02, 0x01, 0x06, 0x08, 0x2A, 0x86, 0x48, 0xCE, 0x3D, 0x03, 0x01, 0x07]

  /** The SubjectPublicKeyInfo of an uncompressed P-256 point, section 2 of RFC 5480. */
  lemma P256SpkiParses(point: seq<byte>)
    requires |point| == 65 && point[0] == 0x04
    ensures Parse(ES256, [0x30, 0x59, 0x30, 0x13] + EC_ALGORITHM + [0x03, 0x42, 0x00] + point) == Ok(P256(point))
  {
    hide Parse, Element, Encodes;
    var bytes := [0x30, 0x59, 0x30, 0x13] + EC_ALGORITHM + [0x03, 0x42, 0x00] + point;
    P256Spki(EC_ALGORITHM, point);
    WrappedP256(bytes, point);
  }

  lemma P256Spki(content: seq<byte>, point: seq<byte>)
    requires |content| == 19 && |point| == 65
    ensures Spki([0x30, 0x59, 0x30, 0x13] + content + [0x03, 0x42, 0x00] + point, point)
  {
    hide Element;
    var algorithm: seq<byte> := [0x30, 0x13] + content;
    var bits: seq<byte> := [0x03, 0x42] + ([0x00] + point);
    var bytes: seq<byte> := [0x30, 0x59] + (algorithm + bits);
    assert bytes == [0x30, 0x59, 0x30, 0x13] + content + [0x03, 0x42, 0x00] + point;
    ShortSpki(bytes, algorithm, bits, content, point);
  }

  lemma WrappedP256(bytes: seq<byte>, point: seq<byte>)
    requires Spki(bytes, point) && |point| == 65 && point[0] == 0x04
    ensures Parse(ES256, bytes) == Ok(P256(point))
  {
    hide Parse, Spki;
    ParseExact(ES256, bytes, P256(point));
  }

  /** The RSAPublicKey of a 2048-bit modulus with the usual exponent 65537, appendix A.1.1 of RFC 8017. */
  function UsualRsaKey(n: seq<byte>): seq<byte> {
    [0x30, 0x82, 0x01, 0x0A, 0x02, 0x82, 0x01, 0x01, 0x00] + n + [0x02, 0x03, 0x01, 0x00, 0x01]
  }

  lemma UsualRsaForm(n: seq<byte>)
    requires |n| == 256 && n[0] >= 0x80
    ensures RsaForm(UsualRsaKey(n), n, [0x01, 0x00, 0x01])
  {
    hide Element, Value;
    var e: seq<byte> := [0x01, 0x00, 0x01];
    var first: seq<byte> := [0x02, 0x82, 0x01, 0x01] + ([0x00] + n);
    var second: seq<byte> := [0x02, 0x03] + e;
    assert UsualRsaKey(n) == [0x30, 0x82, 0x01, 0x0A] + (first + second);
    LongElement(UsualRsaKey(n), 0x30, 0x01, 0x0A, first + second);
    LongElement(first, 0x02, 0x01, 0x01, [0x00] + n);
    ShortElement(second, 0x02, e);
    ValueOfPadded(n);
    assert Pkcs1(UsualRsaKey(n), [0x00] + n, e);
  }

  /** The algorithm of an RSA key: `rsaEncryption` with no parameters. */
  const RSA_ALGORITHM: seq<byte> := [0x06, 0x09, 0x2A, 0x86, 0x48, 0x86, 0xF7, 0x0D, 0x01, 0x01, 0x01, 0x05, 0x00]

  /** Such a key parses, alone and in the SubjectPublicKeyInfo of RFC 3279 section 2.3.1. */
  lemma RsaKeyParses(n: seq<byte>)
    requires |n| == 256 && n[0] >= 0x80
    ensures Parse(RS256, UsualRsaKey(n)) == Ok(Rsa(n, [0x01, 0x00, 0x01]))
    ensures Parse(RS256, [0x30, 0x82, 0x01, 0x22, 0x30, 0x0D] + RSA_ALGORITHM
                         + [0x03, 0x82, 0x01, 0x0F, 0x00] + UsualRsaKey(n))
         == Ok(Rsa(n, [0x01, 0x00, 0x01]))
  {
    hide Parse, Element, RsaForm, UsualRsaKey;
    var e: seq<byte> := [0x01, 0x00, 0x01];
    var key := UsualRsaKey(n);
    UsualRsaForm(n);
    BareRsaParses(key, n, e);
    UsualRsaSize(n);
    UsualSpki(RSA_ALGORITHM, key);
    WrappedRsaParses(
      [0x30, 0x82, 0x01, 0x22, 0x30, 0x0D] + RSA_ALGORITHM + [0x03, 0x82, 0x01, 0x0F, 0x00] + key, key, n, e);
  }

  lemma UsualRsaSize(n: seq<byte>)
    requires |n| == 256
    ensures |UsualRsaKey(n)| == 270
  {
  }

  lemma UsualSpki(content: seq<byte>, key: seq<byte>)
    requires |content| == 13 && |key| == 270
    ensures Spki([0x30, 0x82, 0x01, 0x22, 0x30, 0x0D] + content + [0x03, 0x82, 0x01, 0x0F, 0x00] + key, key)
  {
    hide Element;
    var algorithm: seq<byte> := [0x30, 0x0D] + content;
    var bits: seq<byte> := [0x03, 0x82, 0x01, 0x0F] + ([0x00] + key);
    var bytes: seq<byte> := [0x30, 0x82, 0x01, 0x22] + (algorithm + bits);
    ShortElement(algorithm, 0x30, content);
    LongElement(bits, 0x03, 0x01, 0x0F, [0x00] + key);
    LongElement(bytes, 0x30, 0x01, 0x22, algorithm + bits);
    assert bytes == [0x30, 0x82, 0x01, 0x22, 0x30, 0x0D] + content + [0x03, 0x82, 0x01, 0x0F, 0x00] + key;
  }

  // ----- What is published

  /** The member holds these bytes. */
  predicate Holds(member: Option<string>, bytes: seq<byte>) {
    member.Some? && B64.Decode(member.value) == Some(bytes)
  }

  lemma HoldsOne(member: Option<string>, bytes: seq<byte>)
    ensures Holds(member, bytes) <==> member == Some(B64.Encode(bytes))
  {
    hide B64.Encode, B64.Decode;
    FieldIs(member, bytes);
  }

  /**
   The JWK a key is published as, member by member: its key id, the algorithm's name, the use `sig`, the kind of key
   and exactly the members that hold it.
   */
  lemma PublishedExactly(key: Key, kid: string, algorithm: Algorithm, jwk: Jwk)
    ensures ToJwk(key, kid, algorithm) == Some(jwk) <==>
            && jwk.kid == Some(kid) && jwk.keyUse == Some("sig")
            && (match algorithm {
                  case EdDSA => jwk.alg == Some("EdDSA")
                  case ES256 => jwk.alg == Some("ES256")
                  case RS256 => jwk.alg == Some("RS256")
                  case HS256 => jwk.alg == Some("HS256")
                })
            && match key {
                 case Ed25519(raw) =>
                   && jwk.kty == "OKP" && jwk.crv == Some("Ed25519")
                   && Holds(jwk.x, raw) && jwk.y == None && jwk.n == None && jwk.e == None
                 case P256(point) =>
                   && jwk.kty == "EC" && jwk.crv == Some("P-256")
                   && |point| >= 33 && Holds(jwk.x, point[1..33]) && Holds(jwk.y, point[33..])
                   && jwk.n == None && jwk.e == None
                 case Rsa(n, e) =>
                   && jwk.kty == "RSA" && jwk.crv == None
                   && Holds(jwk.n, n) && Holds(jwk.e, e) && jwk.x == None && jwk.y == None
                 case Hmac(_) => false
               }
  {
    hide Holds, B64.Encode;
    match key
    case Ed25519(raw) =>
      HoldsOne(jwk.x, raw);
    case P256(point) =>
      if |point| >= 33 {
        HoldsOne(jwk.x, point[1..33]);
        HoldsOne(jwk.y, point[33..]);
      }
    case Rsa(n, e) =>
      HoldsOne(jwk.n, n);
      HoldsOne(jwk.e, e);
    case Hmac(_) =>
  }
}
