/**
 The distinguished encoding among those the DER reader accepts: section 10.1 of X.690 wants the shortest length
 form, section 8.3.2 the shortest integer. The reader asks for neither.
 */
module DerCanonical {
  import opened Wrappers
  import opened Utf8
  import opened Der
  import opened VerifyingKey

  // ----- One element

  /** The length at `pos` is written in its shortest form. */
  predicate ShortestAt(bytes: seq<byte>, pos: nat) {
    match LengthAt(bytes, pos)
    case None => false
    case Some((n, next)) => n < LENGTHS && bytes[pos..next] == LengthForm(n)
  }

  lemma LengthFits(bytes: seq<byte>, pos: nat)
    ensures LengthAt(bytes, pos).Some? ==> LengthAt(bytes, pos).value.0 < LENGTHS
  {
    if pos < |bytes| && bytes[pos] >= 0x80 && LengthAt(bytes, pos).Some? {
      var count := bytes[pos] - 0x80;
      ValueBound(bytes[pos + 1..pos + 1 + count]);
      Pow256Values();
    }
  }

  /** What is read with a shortest length is the canonical element, and only that is. */
  lemma ReadsCanonical(bytes: seq<byte>, pos: nat, tag: byte)
    requires TlvAt(bytes, pos, tag).Some?
    ensures var (content, next) := TlvAt(bytes, pos, tag).value;
            |content| < LENGTHS && (ShortestAt(bytes, pos + 1) <==> bytes[pos..next] == EncodeElement(tag, content))
  {
    hide LengthAt, LengthForm;
    var (content, next) := TlvAt(bytes, pos, tag).value;
    LengthFits(bytes, pos + 1);
    var (length, start) := LengthAt(bytes, pos + 1).value;
    var form := bytes[pos + 1..start];
    assert bytes[pos..next] == [tag] + form + content;
    if bytes[pos..next] == EncodeElement(tag, content) {
      SameForms([tag] + form, [tag] + LengthForm(|content|), content);
      assert form == ([tag] + form)[1..] == ([tag] + LengthForm(|content|))[1..] == LengthForm(|content|);
    }
  }

  lemma SameForms(a: seq<byte>, b: seq<byte>, c: seq<byte>)
    requires a + c == b + c
    ensures a == b
  {
    assert |a| == |b| && a == (a + c)[..|a|] && b == (b + c)[..|a|];
  }

  // ----- SubjectPublicKeyInfo

  /** The three lengths the reader of an SPKI visits are in their shortest form. */
  predicate SpkiShortest(bytes: seq<byte>) {
    ShortestAt(bytes, 1) && match TlvAt(bytes, 0, SEQUENCE) {
      case None => false
      case Some((body, _)) =>
        ShortestAt(body, 1) && match TlvAt(body, 0, SEQUENCE) {
          case None => false
          case Some((_, mid)) => ShortestAt(body, mid + 1)
        }
    }
  }

  /** Of the accepted SPKIs, those with shortest lengths are exactly the canonical ones. */
  lemma SpkiCanonical(bytes: seq<byte>, key: seq<byte>)
    ensures SpkiKeyBits(bytes) == Some(key) && SpkiShortest(bytes) <==>
            exists algorithm | SpkiFits(algorithm, key) :: bytes == EncodeSpki(algorithm, key)
  {
    hide TlvAt, Element, ShortestAt, EncodeElement;
    if SpkiKeyBits(bytes) == Some(key) && SpkiShortest(bytes) {
      var algorithm := SpkiParts(bytes, key);
    }
    if algorithm :| SpkiFits(algorithm, key) && bytes == EncodeSpki(algorithm, key) {
      EncodedSpkiReads(algorithm, key);
    }
  }

  /** Two elements make up a body, each in canonical form, exactly when both its lengths are shortest. */
  lemma PairCanonical(body: seq<byte>, tag: byte, tag2: byte)
    requires TlvAt(body, 0, tag).Some? && TlvAt(body, TlvAt(body, 0, tag).value.1, tag2).Some?
    requires TlvAt(body, TlvAt(body, 0, tag).value.1, tag2).value.1 == |body|
    ensures var (content, mid) := TlvAt(body, 0, tag).value;
            var content2 := TlvAt(body, mid, tag2).value.0;
            && |content| < LENGTHS && |content2| < LENGTHS
            && (ShortestAt(body, 1) && ShortestAt(body, mid + 1) ==>
                  body == EncodeElement(tag, content) + EncodeElement(tag2, content2))
  {
    hide TlvAt, ShortestAt, EncodeElement;
    var mid := TlvAt(body, 0, tag).value.1;
    ReadsCanonical(body, 0, tag);
    ReadsCanonical(body, mid, tag2);
    assert body == body[0..mid] + body[mid..|body|];
  }

  lemma SpkiParts(bytes: seq<byte>, key: seq<byte>) returns (algorithm: seq<byte>)
    requires SpkiKeyBits(bytes) == Some(key) && SpkiShortest(bytes)
    ensures SpkiFits(algorithm, key) && bytes == EncodeSpki(algorithm, key)
  {
    hide TlvAt, ShortestAt, EncodeElement;
    var body := TlvAt(bytes, 0, SEQUENCE).value.0;
    algorithm := TlvAt(body, 0, SEQUENCE).value.0;
    ReadsCanonical(bytes, 0, SEQUENCE);
    assert bytes[0..|bytes|] == bytes;
    KeyIsRestOfBits(bytes, key);
    PairCanonical(body, SEQUENCE, BIT_STRING);
  }

  /** A canonical pair of elements is read as its contents, with shortest lengths. */
  lemma CanonicalPairReads(tag: byte, content: seq<byte>, tag2: byte, content2: seq<byte>)
    requires |content| < LENGTHS && |content2| < LENGTHS
    ensures var first := EncodeElement(tag, content);
            var body := first + EncodeElement(tag2, content2);
            && TlvAt(body, 0, tag) == Some((content, |first|)) && ShortestAt(body, 1)
            && TlvAt(body, |first|, tag2) == Some((content2, |body|)) && ShortestAt(body, |first| + 1)
  {
    hide TlvAt, ShortestAt, EncodeElement, Element;
    var first, second := EncodeElement(tag, content), EncodeElement(tag2, content2);
    var body := first + second;
    PairReads(first, tag, content, second, tag2, content2);
    ReadsCanonical(body, 0, tag);
    ReadsCanonical(body, |first|, tag2);
    assert body[0..|first|] == first && body[|first|..|body|] == second;
  }

  lemma CanonicalReads(tag: byte, content: seq<byte>)
    requires |content| < LENGTHS
    ensures var s := EncodeElement(tag, content); TlvAt(s, 0, tag) == Some((content, |s|)) && ShortestAt(s, 1)
  {
    hide TlvAt, ShortestAt, EncodeElement, Element;
    var s := EncodeElement(tag, content);
    WholeReads(s, tag, content);
    ReadsCanonical(s, 0, tag);
    assert s[0..|s|] == s;
  }

  lemma EncodedSpkiReads(algorithm: seq<byte>, key: seq<byte>)
    requires SpkiFits(algorithm, key)
    ensures SpkiKeyBits(EncodeSpki(algorithm, key)) == Some(key) && SpkiShortest(EncodeSpki(algorithm, key))
  {
    hide TlvAt, ShortestAt, EncodeElement, Element;
    CanonicalPairReads(SEQUENCE, algorithm, BIT_STRING, [0] + key);
    CanonicalReads(SEQUENCE, EncodeElement(SEQUENCE, algorithm) + EncodeElement(BIT_STRING, [0] + key));
    assert ([0] + key)[1..] == key;
  }

  // ----- RSAPublicKey

  /** The content of a DER INTEGER that is not negative, in the fewest bytes. */
  predicate ShortestInteger(content: seq<byte>) {
    content != [] && content[0] < 0x80 && (content[0] == 0 && |content| > 1 ==> content[1] >= 0x80)
  }

  /** These are the contents that putting the sign padding back restores. */
  lemma ShortestIntegerExact(content: seq<byte>)
    ensures ShortestInteger(content) <==> content == SignPadded(Unsigned(content))
  {
    if content != [] && content[0] == 0 {
      assert Unsigned(content) == Unsigned(content[1..]);
      if |content| > 1 && content[1] >= 0x80 {
        assert Unsigned(content[1..]) == content[1..];
        assert content == [0] + content[1..];
      }
    }
  }

  lemma UnsignedOfPadded(n: seq<byte>)
    requires Minimal(n)
    ensures Unsigned(SignPadded(n)) == n
  {
    UnsignedOfMinimal(n);
    UnsignedDropsZero(n);
    if n == [] {
      assert [0] + n == SignPadded(n);
    }
  }

  lemma UnsignedOfMinimal(n: seq<byte>)
    requires Minimal(n)
    ensures Unsigned(n) == n
  {
  }

  lemma UnsignedDropsZero(n: seq<byte>)
    ensures Unsigned([0] + n) == Unsigned(n)
  {
    assert ([0] + n)[1..] == n;
  }

  /** The three lengths the reader of an RSA key visits, and the two integers, are in their shortest form. */
  predicate Pkcs1Shortest(bytes: seq<byte>) {
    ShortestAt(bytes, 1) && match TlvAt(bytes, 0, SEQUENCE) {
      case None => false
      case Some((body, _)) =>
        ShortestAt(body, 1) && match TlvAt(body, 0, INTEGER) {
          case None => false
          case Some((modulus, mid)) =>
            ShortestAt(body, mid + 1) && ShortestInteger(modulus) && match TlvAt(body, mid, INTEGER) {
              case None => false
              case Some((exponent, _)) => ShortestInteger(exponent)
            }
        }
    }
  }

  /** Of the accepted RSA keys, those in shortest forms are exactly the canonical ones. */
  lemma Pkcs1Canonical(bytes: seq<byte>, n: seq<byte>, e: seq<byte>)
    ensures RsaPublicKey(bytes) == Some((n, e)) && Pkcs1Shortest(bytes) <==>
            Minimal(n) && Minimal(e) && Pkcs1Fits(n, e) && bytes == EncodePkcs1(n, e)
  {
    hide TlvAt, Element, ShortestAt, EncodeElement, Pkcs1Fits, EncodePkcs1, Pkcs1Shortest, RsaPublicKey;
    if RsaPublicKey(bytes) == Some((n, e)) && Pkcs1Shortest(bytes) {
      Pkcs1Parts(bytes, n, e);
    }
    if Minimal(n) && Minimal(e) && Pkcs1Fits(n, e) && bytes == EncodePkcs1(n, e) {
      EncodedPkcs1Reads(n, e);
    }
  }

  lemma Pkcs1Parts(bytes: seq<byte>, n: seq<byte>, e: seq<byte>)
    requires RsaPublicKey(bytes) == Some((n, e)) && Pkcs1Shortest(bytes)
    ensures Minimal(n) && Minimal(e) && Pkcs1Fits(n, e) && bytes == EncodePkcs1(n, e)
  {
    hide TlvAt, ShortestAt, EncodeElement, SignPadded, Unsigned, ShortestInteger;
    var body := TlvAt(bytes, 0, SEQUENCE).value.0;
    var (modulus, mid) := TlvAt(body, 0, INTEGER).value;
    var exponent := TlvAt(body, mid, INTEGER).value.0;
    ReadsCanonical(bytes, 0, SEQUENCE);
    assert bytes[0..|bytes|] == bytes;
    PairCanonical(body, INTEGER, INTEGER);
    ShortestIntegerExact(modulus);
    ShortestIntegerExact(exponent);
  }

  lemma EncodedPkcs1Reads(n: seq<byte>, e: seq<byte>)
    requires Minimal(n) && Minimal(e) && Pkcs1Fits(n, e)
    ensures RsaPublicKey(EncodePkcs1(n, e)) == Some((n, e)) && Pkcs1Shortest(EncodePkcs1(n, e))
  {
    hide TlvAt, ShortestAt, EncodeElement, Element, SignPadded, Unsigned, ShortestInteger;
    CanonicalPairReads(INTEGER, SignPadded(n), INTEGER, SignPadded(e));
    CanonicalReads(SEQUENCE, EncodeElement(INTEGER, SignPadded(n)) + EncodeElement(INTEGER, SignPadded(e)));
    UnsignedOfPadded(n);
    UnsignedOfPadded(e);
    ShortestIntegerExact(SignPadded(n));
    ShortestIntegerExact(SignPadded(e));
  }

  // ----- Accepted and not canonical

  /** The longest form a length below 128 may take with one extra byte, and still be read. */
  lemma ExtraByteReads(before: seq<byte>, n: byte, after: seq<byte>)
    requires n < 0x80
    ensures LengthAt(before + [0x81, n] + after, |before|) == Some((n, |before| + 2))
    ensures !ShortestAt(before + [0x81, n] + after, |before|)
  {
    assert [0x81, n][1..] == [n] && [n][..0] == [];
    assert SpellsLength([0x81, n], n);
    LengthReads(before, [0x81, n], after, n);
    assert |LengthForm(n)| == 1;
  }

  /**
   Writing the outer length of a canonical SPKI in one byte more than it needs gives another accepted SPKI of the
   same key; `30 81 06 30 00 03 02 00 61` is one.
   */
  lemma LongLengthIsAccepted(algorithm: seq<byte>, key: seq<byte>)
    requires SpkiFits(algorithm, key)
    requires |EncodeElement(SEQUENCE, algorithm) + EncodeElement(BIT_STRING, [0] + key)| < 0x80
    ensures var body := EncodeElement(SEQUENCE, algorithm) + EncodeElement(BIT_STRING, [0] + key);
            var bytes := [SEQUENCE] + [0x81, |body|] + body;
            SpkiKeyBits(bytes) == Some(key) && !SpkiShortest(bytes)
    ensures EncodeElement(SEQUENCE, []) + EncodeElement(BIT_STRING, [0, 0x61]) == [0x30, 0x00, 0x03, 0x02, 0x00, 0x61]
  {
    hide ShortestAt, EncodeElement;
    var body := EncodeElement(SEQUENCE, algorithm) + EncodeElement(BIT_STRING, [0] + key);
    ExtraByteReads([SEQUENCE], |body|, body);
    var bytes := [SEQUENCE] + [0x81, |body|] + body;
    SpkiFromParts(bytes, algorithm, key);
    SpkiExact(bytes, key);
    SmallestSpki();
  }

  lemma SpkiFromParts(bytes: seq<byte>, algorithm: seq<byte>, key: seq<byte>)
    requires SpkiFits(algorithm, key)
    requires var body := EncodeElement(SEQUENCE, algorithm) + EncodeElement(BIT_STRING, [0] + key);
             |body| < 0x80 && bytes == [SEQUENCE] + [0x81, |body|] + body
    ensures Spki(bytes, key)
  {
    hide EncodeElement;
    var body := EncodeElement(SEQUENCE, algorithm) + EncodeElement(BIT_STRING, [0] + key);
    var form: seq<byte> := [0x81, |body|];
    var one: seq<byte> := [|body|];
    assert form[1..] == one && one[..0] == [] && Value(one) == |body|;
    assert SpellsLength(form, |body|);
    assert Element(bytes, SEQUENCE, body);
  }

  lemma SmallestSpki()
    ensures EncodeElement(SEQUENCE, []) + EncodeElement(BIT_STRING, [0, 0x61]) == [0x30, 0x00, 0x03, 0x02, 0x00, 0x61]
  {
  }

  /** Whatever the integers' contents, they are read as their unsigned values; the form is shortest when both are. */
  lemma IntegersExact(modulus: seq<byte>, exponent: seq<byte>)
    requires |modulus| + |exponent| + 20 < LENGTHS
    ensures var bytes := EncodeElement(SEQUENCE, EncodeElement(INTEGER, modulus) + EncodeElement(INTEGER, exponent));
            && RsaPublicKey(bytes) == Some((Unsigned(modulus), Unsigned(exponent)))
            && (Pkcs1Shortest(bytes) <==> ShortestInteger(modulus) && ShortestInteger(exponent))
  {
    hide TlvAt, ShortestAt, EncodeElement, Element, Unsigned, ShortestInteger, LengthForm;
    CanonicalPairReads(INTEGER, modulus, INTEGER, exponent);
    CanonicalReads(SEQUENCE, EncodeElement(INTEGER, modulus) + EncodeElement(INTEGER, exponent));
  }

  /** A modulus that DER reads as negative is accepted as its unsigned value. */
  lemma NegativeModulusIsAccepted(modulus: seq<byte>, exponent: seq<byte>)
    requires |modulus| + |exponent| + 20 < LENGTHS && modulus != [] && modulus[0] >= 0x80
    ensures var bytes := EncodeElement(SEQUENCE, EncodeElement(INTEGER, modulus) + EncodeElement(INTEGER, exponent));
            RsaPublicKey(bytes) == Some((modulus, Unsigned(exponent))) && !Pkcs1Shortest(bytes)
  {
    hide RsaPublicKey, Pkcs1Shortest, EncodeElement;
    IntegersExact(modulus, exponent);
  }

  /** An exponent with a zero byte too many is accepted as well, as `00 03` for `03`. */
  lemma PaddedExponentIsAccepted(modulus: seq<byte>, exponent: seq<byte>)
    requires |modulus| + |exponent| + 21 < LENGTHS && ShortestInteger(exponent) && exponent[0] != 0
    ensures var padded := [0] + exponent;
            var bytes := EncodeElement(SEQUENCE, EncodeElement(INTEGER, modulus) + EncodeElement(INTEGER, padded));
            RsaPublicKey(bytes) == Some((Unsigned(modulus), exponent)) && !Pkcs1Shortest(bytes)
  {
    hide RsaPublicKey, Pkcs1Shortest, EncodeElement;
    var padded := [0] + exponent;
    PaddedInteger(exponent);
    IntegersExact(modulus, padded);
  }

  lemma PaddedInteger(content: seq<byte>)
    requires ShortestInteger(content) && content[0] != 0
    ensures Unsigned([0] + content) == content && !ShortestInteger([0] + content)
  {
    UnsignedDropsZero(content);
    UnsignedOfMinimal(content);
    assert ([0] + content)[1] == content[0];
  }
}
