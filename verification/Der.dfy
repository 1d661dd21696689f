/**
 The DER reader that unwraps a SubjectPublicKeyInfo (section 4.1 of RFC 5280) and
 splits an RSAPublicKey (appendix A.1.1 of RFC 8017).
 */
module Der {
  import opened Wrappers
  import opened Utf8

  const SEQUENCE: byte := 0x30
  const INTEGER: byte := 0x02
  const BIT_STRING: byte := 0x03

  /** The most bytes a long-form length may take. */
  const MAX_LENGTH_BYTES: nat := 4

  /** One more than the longest length those bytes can spell. */
  const LENGTHS: nat := 0x1_0000_0000

  // ----- Numbers

  /** The unsigned big-endian value of `s`. */
  function Value(s: seq<byte>): nat {
    if s == [] then 0 else Value(s[..|s| - 1]) * 256 + s[|s| - 1]
  }

  /** `count` bytes that spell `n`. */
  function BigEndian(n: nat, count: nat): (s: seq<byte>)
    ensures |s| == count
  {
    if count == 0 then [] else BigEndian(n / 256, count - 1) + [n % 256]
  }

  function Pow256(count: nat): nat {
    if count == 0 then 1 else 256 * Pow256(count - 1)
  }

  lemma {:induction false} ValueOfBigEndian(n: nat, count: nat)
    requires n < Pow256(count)
    ensures Value(BigEndian(n, count)) == n
  {
    if count > 0 {
      ValueOfBigEndian(n / 256, count - 1);
      assert BigEndian(n, count)[..count - 1] == BigEndian(n / 256, count - 1);
    }
  }

  lemma {:induction false} ValueBound(s: seq<byte>)
    ensures Value(s) < Pow256(|s|)
  {
    if s != [] {
      ValueBound(s[..|s| - 1]);
    }
  }

  lemma Pow256Values()
    ensures Pow256(1) == 0x100 && Pow256(2) == 0x1_0000 && Pow256(3) == 0x100_0000 && Pow256(4) == 0x1_0000_0000
  {
    assert Pow256(1) == 256 * Pow256(0);
    assert Pow256(2) == 256 * Pow256(1);
    assert Pow256(3) == 256 * Pow256(2);
    assert Pow256(4) == 256 * Pow256(3);
  }

  // ----- Lengths and values, as a relation

  /** `form` spells the definite length `n`: short, or long in one to four bytes, minimal or not. */
  ghost predicate SpellsLength(form: seq<byte>, n: nat) {
    || (|form| == 1 && form[0] < 0x80 && n == form[0])
    || (&& 2 <= |form| <= 1 + MAX_LENGTH_BYTES
        && form[0] == 0x80 + |form| - 1
        && n == Value(form[1..]))
  }

  /** `s` is one element: a tag, a length and that many bytes of content. */
  ghost predicate Element(s: seq<byte>, tag: byte, content: seq<byte>) {
    exists form | SpellsLength(form, |content|) :: s == [tag] + form + content
  }

  /** The canonical length form (section 10.1 of X.690): the shortest one. */
  function LengthForm(n: nat): (form: seq<byte>)
    requires n < LENGTHS
    ensures SpellsLength(form, n) && |form| <= 1 + MAX_LENGTH_BYTES
  {
    Pow256Values();
    if n < 0x80 then [n]
    else
      var count := if n < 0x100 then 1 else if n < 0x1_0000 then 2 else if n < 0x100_0000 then 3 else 4;
      ValueOfBigEndian(n, count);
      assert ([0x80 + count] + BigEndian(n, count))[1..] == BigEndian(n, count);
      [0x80 + count] + BigEndian(n, count)
  }

  function EncodeElement(tag: byte, content: seq<byte>): (s: seq<byte>)
    requires |content| < LENGTHS
    ensures Element(s, tag, content) && |s| <= |content| + 6
  {
    [tag] + LengthForm(|content|) + content
  }

  // ----- The cursor

  /** What reading one length at `pos` gives: the length and the position after it. */
  function LengthAt(bytes: seq<byte>, pos: nat): (r: Option<(nat, nat)>)
    ensures r.Some? ==> pos < r.value.1 <= |bytes|
  {
    if pos >= |bytes| then None
    else if bytes[pos] < 0x80 then Some((bytes[pos], pos + 1))
    else
      var count := bytes[pos] - 0x80;
      if count == 0 || count > MAX_LENGTH_BYTES || pos + 1 + count > |bytes| then None
      else Some((Value(bytes[pos + 1..pos + 1 + count]), pos + 1 + count))
  }

  /** What reading one tag-length-value at `pos` gives: the content and the position after it. */
  function TlvAt(bytes: seq<byte>, pos: nat, tag: byte): (r: Option<(seq<byte>, nat)>)
    ensures r.Some? ==> pos < r.value.1 <= |bytes|
  {
    if pos >= |bytes| || bytes[pos] != tag then None
    else
      match LengthAt(bytes, pos + 1)
      case None => None
      case Some((length, start)) =>
        if start + length > |bytes| then None else Some((bytes[start..start + length], start + length))
  }

  class Reader {
    const bytes: seq<byte>
    var pos: nat

    constructor (bytes: seq<byte>)
      ensures this.bytes == bytes && pos == 0
    {
      this.bytes := bytes;
      pos := 0;
    }

    predicate IsEmpty()
      reads this
    {
      pos >= |bytes|
    }

    /** Reads a definite length, moving past it; a failed read leaves the cursor somewhere in between. */
    method Length() returns (r: Option<nat>)
      modifies this
      ensures old(pos) <= pos
      ensures match LengthAt(bytes, old(pos)) {
                case None => r.None?
                case Some((length, next)) => r == Some(length) && pos == next
              }
    {
      if pos >= |bytes| {
        return None;
      }
      var first := bytes[pos];
      pos := pos + 1;
      if first < 0x80 {
        return Some(first);
      }
      var count := first - 0x80;
      if count == 0 || count > MAX_LENGTH_BYTES {
        return None;
      }
      // Four bytes cannot overflow a 64-bit `usize`, so the checked steps never fail.
      var value: nat := 0;
      var start := pos;
      assert bytes[start..start] == [];
      for i := 0 to count
        invariant pos == start + i && start == old(pos) + 1 && pos <= |bytes|
        invariant value == Value(bytes[start..pos])
      {
        if pos >= |bytes| {
          return None;
        }
        assert bytes[start..pos + 1] == bytes[start..pos] + [bytes[pos]];
        value := value * 256 + bytes[pos];
        pos := pos + 1;
      }
      return Some(value);
    }

    /** Reads one element of the given tag, answering its content. */
    method Tlv(tag: byte) returns (r: Option<seq<byte>>)
      modifies this
      ensures old(pos) <= pos
      ensures match TlvAt(bytes, old(pos), tag) {
                case None => r.None?
                case Some((content, next)) => r == Some(content) && pos == next
              }
    {
      if pos >= |bytes| || bytes[pos] != tag {
        return None;
      }
      pos := pos + 1;
      var length := Length();
      if length.None? {
        return None;
      }
      var start := pos;
      var end := start + length.value;
      if end > |bytes| {
        return None;
      }
      pos := end;
      return Some(bytes[start..end]);
    }
  }

  // ----- What the cursor reads

  /** A length form, wherever it stands, is read as the length it spells. */
  lemma LengthReads(before: seq<byte>, form: seq<byte>, after: seq<byte>, n: nat)
    requires SpellsLength(form, n)
    ensures LengthAt(before + form + after, |before|) == Some((n, |before| + |form|))
  {
    var s := before + form + after;
    assert s[|before|] == form[0];
    if form[0] >= 0x80 {
      assert s[|before| + 1..|before| + |form|] == form[1..];
    }
  }

  /** An element, wherever it stands, is read as its content. */
  lemma ElementReads(before: seq<byte>, s: seq<byte>, tag: byte, content: seq<byte>, after: seq<byte>)
    requires Element(s, tag, content)
    ensures TlvAt(before + s + after, |before|, tag) == Some((content, |before| + |s|))
  {
    var form :| SpellsLength(form, |content|) && s == [tag] + form + content;
    var whole := before + s + after;
    assert whole == (before + [tag]) + form + (content + after);
    LengthReads(before + [tag], form, content + after, |content|);
    var start := |before| + 1 + |form|;
    assert whole[start..start + |content|] == content;
  }

  /** Whatever the cursor reads is an element. */
  lemma ReadsElement(bytes: seq<byte>, pos: nat, tag: byte)
    requires TlvAt(bytes, pos, tag).Some?
    ensures var (content, next) := TlvAt(bytes, pos, tag).value;
            Element(bytes[pos..next], tag, content)
  {
    var (content, next) := TlvAt(bytes, pos, tag).value;
    var (length, start) := LengthAt(bytes, pos + 1).value;
    var form := bytes[pos + 1..start];
    if bytes[pos + 1] >= 0x80 {
      assert form[1..] == bytes[pos + 2..start];
    }
    assert SpellsLength(form, |content|);
    assert bytes[pos..next] == [tag] + form + content;
  }

  /** No element is empty, and one is longer than its content by at least two. */
  lemma ElementSize(s: seq<byte>, tag: byte, content: seq<byte>)
    requires Element(s, tag, content)
    ensures |s| >= |content| + 2 && s[0] == tag
  {
  }

  /** One byte string is an element of at most one tag and content. */
  lemma ElementUnique(s: seq<byte>, tag: byte, a: seq<byte>, b: seq<byte>)
    requires Element(s, tag, a) && Element(s, tag, b)
    ensures a == b
  {
    ElementReads([], s, tag, a, []);
    ElementReads([], s, tag, b, []);
  }

  lemma WholeReads(bytes: seq<byte>, tag: byte, content: seq<byte>)
    requires Element(bytes, tag, content)
    ensures TlvAt(bytes, 0, tag) == Some((content, |bytes|))
  {
    hide TlvAt, Element;
    ElementReads([], bytes, tag, content, []);
    assert [] + bytes + [] == bytes;
  }

  lemma PairReads(first: seq<byte>, tag: byte, content: seq<byte>, second: seq<byte>, tag2: byte, content2: seq<byte>)
    requires Element(first, tag, content) && Element(second, tag2, content2)
    ensures TlvAt(first + second, 0, tag) == Some((content, |first|))
    ensures TlvAt(first + second, |first|, tag2) == Some((content2, |first + second|))
  {
    hide TlvAt, Element;
    ElementReads([], first, tag, content, second);
    assert [] + first + second == first + second;
    ElementReads(first, second, tag2, content2, []);
    assert first + second + [] == first + second;
  }

  lemma ReadsWhole(bytes: seq<byte>, tag: byte)
    requires TlvAt(bytes, 0, tag).Some? && TlvAt(bytes, 0, tag).value.1 == |bytes|
    ensures Element(bytes, tag, TlvAt(bytes, 0, tag).value.0)
  {
    hide TlvAt, Element;
    ReadsElement(bytes, 0, tag);
    assert bytes[0..|bytes|] == bytes;
  }

  lemma ReadsPair(body: seq<byte>, tag: byte, tag2: byte) returns (first: seq<byte>, second: seq<byte>)
    requires TlvAt(body, 0, tag).Some? && TlvAt(body, TlvAt(body, 0, tag).value.1, tag2).Some?
    requires TlvAt(body, TlvAt(body, 0, tag).value.1, tag2).value.1 == |body|
    ensures body == first + second
    ensures Element(first, tag, TlvAt(body, 0, tag).value.0)
    ensures Element(second, tag2, TlvAt(body, TlvAt(body, 0, tag).value.1, tag2).value.0)
  {
    hide TlvAt, Element;
    var mid := TlvAt(body, 0, tag).value.1;
    ReadsElement(body, 0, tag);
    ReadsElement(body, mid, tag2);
    first, second := body[0..mid], body[mid..|body|];
    assert body == first + second;
  }

  // ----- SubjectPublicKeyInfo

  /** `bytes` is SEQUENCE { SEQUENCE { .. }, BIT STRING of no unused bits and `key` }. */
  ghost predicate Spki(bytes: seq<byte>, key: seq<byte>) {
    exists algorithm, bits, content ::
      && Element(bytes, SEQUENCE, algorithm + bits)
      && Element(algorithm, SEQUENCE, content)
      && Element(bits, BIT_STRING, [0] + key)
  }

  function SpkiKeyBits(bytes: seq<byte>): Option<seq<byte>> {
    match TlvAt(bytes, 0, SEQUENCE)
    case None => None
    case Some((body, end)) =>
      if end < |bytes| then None
      else
        match TlvAt(body, 0, SEQUENCE)
        case None => None
        case Some((algorithm, mid)) =>
          match TlvAt(body, mid, BIT_STRING)
          case None => None
          case Some((bits, last)) =>
            if last < |body| || bits == [] || bits[0] != 0 then None else Some(bits[1..])
  }

  method SpkiKeyBitsReader(bytes: seq<byte>) returns (r: Option<seq<byte>>)
    ensures r == SpkiKeyBits(bytes)
  {
    var outer := new Reader(bytes);
    var body := outer.Tlv(SEQUENCE);
    if body.None? || !outer.IsEmpty() {
      return None;
    }
    var inner := new Reader(body.value);
    var algorithm := inner.Tlv(SEQUENCE);
    if algorithm.None? {
      return None;
    }
    var bitString := inner.Tlv(BIT_STRING);
    if bitString.None? || !inner.IsEmpty() {
      return None;
    }
    if bitString.value == [] || bitString.value[0] != 0 {
      return None;
    }
    return Some(bitString.value[1..]);
  }

  /** The key bits are read from exactly the byte strings that are an SPKI of them. */
  lemma SpkiExact(bytes: seq<byte>, key: seq<byte>)
    ensures SpkiKeyBits(bytes) == Some(key) <==> Spki(bytes, key)
  {
    hide TlvAt, Element;
    if Spki(bytes, key) {
      var algorithm, bits, content :|
        Element(bytes, SEQUENCE, algorithm + bits) && Element(algorithm, SEQUENCE, content)
        && Element(bits, BIT_STRING, [0] + key);
      WholeReads(bytes, SEQUENCE, algorithm + bits);
      PairReads(algorithm, SEQUENCE, content, bits, BIT_STRING, [0] + key);
      assert ([0] + key)[1..] == key;
    }
    if SpkiKeyBits(bytes) == Some(key) {
      ReadsWhole(bytes, SEQUENCE);
      var algorithm, bits := ReadsPair(TlvAt(bytes, 0, SEQUENCE).value.0, SEQUENCE, BIT_STRING);
      KeyIsRestOfBits(bytes, key);
    }
  }

  lemma KeyIsRestOfBits(bytes: seq<byte>, key: seq<byte>)
    requires SpkiKeyBits(bytes) == Some(key)
    ensures var body := TlvAt(bytes, 0, SEQUENCE).value.0;
            TlvAt(body, TlvAt(body, 0, SEQUENCE).value.1, BIT_STRING).value.0 == [0] + key
  {
    hide TlvAt;
  }

  // ----- RSAPublicKey

  /** Removes every leading zero. */
  function Unsigned(bytes: seq<byte>): (r: seq<byte>)
    ensures r != [] ==> r[0] != 0
    ensures |r| <= |bytes| && r == bytes[|bytes| - |r|..]
  {
    if bytes != [] && bytes[0] == 0 then Unsigned(bytes[1..]) else bytes
  }

  lemma {:induction false} ValueOfPadded(s: seq<byte>)
    ensures Value([0] + s) == Value(s)
  {
    var padded: seq<byte> := [0] + s;
    if s == [] {
      assert padded[..0] == [];
    } else {
      ValueOfPadded(s[..|s| - 1]);
      assert padded[..|padded| - 1] == [0] + s[..|s| - 1];
    }
  }

  /** Stripping the sign padding keeps the integer's value. */
  lemma {:induction false} UnsignedKeepsValue(bytes: seq<byte>)
    ensures Value(Unsigned(bytes)) == Value(bytes)
  {
    hide Value;
    if bytes != [] && bytes[0] == 0 {
      UnsignedKeepsValue(bytes[1..]);
      ValueOfPadded(bytes[1..]);
      assert bytes == [0] + bytes[1..];
    }
  }

  /** Two minimal unsigned spellings of one value are the same. */
  lemma {:induction false} MinimalUnique(a: seq<byte>, b: seq<byte>)
    requires (a != [] ==> a[0] != 0) && (b != [] ==> b[0] != 0) && Value(a) == Value(b)
    ensures a == b
    decreases |a|
  {
    if a == [] {
      MinimalPositive(b);
    } else if b == [] {
      MinimalPositive(a);
    } else {
      var ia, ib := a[..|a| - 1], b[..|b| - 1];
      assert Value(ia) == Value(ib) && a[|a| - 1] == b[|b| - 1];
      MinimalUnique(ia, ib);
      assert a == ia + [a[|a| - 1]] && b == ib + [b[|b| - 1]];
    }
  }

  lemma {:induction false} MinimalPositive(s: seq<byte>)
    requires s != [] ==> s[0] != 0
    ensures Value(s) == 0 <==> s == []
  {
    if |s| == 1 {
      assert Value(s) == Value(s[..0]) * 256 + s[0];
    } else if |s| > 1 {
      MinimalPositive(s[..|s| - 1]);
    }
  }

  /** `bytes` is SEQUENCE { INTEGER n, INTEGER e }, both read as unsigned. */
  ghost predicate Pkcs1(bytes: seq<byte>, modulus: seq<byte>, exponent: seq<byte>) {
    exists first, second ::
      && Element(bytes, SEQUENCE, first + second)
      && Element(first, INTEGER, modulus)
      && Element(second, INTEGER, exponent)
  }

  function RsaIntegers(bytes: seq<byte>): Option<(seq<byte>, seq<byte>)> {
    match TlvAt(bytes, 0, SEQUENCE)
    case None => None
    case Some((body, end)) =>
      if end < |bytes| then None
      else
        match TlvAt(body, 0, INTEGER)
        case None => None
        case Some((modulus, mid)) =>
          match TlvAt(body, mid, INTEGER)
          case None => None
          case Some((exponent, last)) => if last < |body| then None else Some((modulus, exponent))
  }

  /** `(n, e)` with the sign padding removed. */
  function RsaPublicKey(bytes: seq<byte>): Option<(seq<byte>, seq<byte>)> {
    match RsaIntegers(bytes)
    case None => None
    case Some((modulus, exponent)) => Some((Unsigned(modulus), Unsigned(exponent)))
  }

  method RsaPublicKeyReader(bytes: seq<byte>) returns (r: Option<(seq<byte>, seq<byte>)>)
    ensures r == RsaPublicKey(bytes)
  {
    var outer := new Reader(bytes);
    var body := outer.Tlv(SEQUENCE);
    if body.None? || !outer.IsEmpty() {
      return None;
    }
    var inner := new Reader(body.value);
    var modulus := inner.Tlv(INTEGER);
    if modulus.None? {
      return None;
    }
    var exponent := inner.Tlv(INTEGER);
    if exponent.None? || !inner.IsEmpty() {
      return None;
    }
    return Some((Unsigned(modulus.value), Unsigned(exponent.value)));
  }

  /** The two integers are read from exactly the byte strings that are an RSAPublicKey of them. */
  lemma Pkcs1Exact(bytes: seq<byte>, modulus: seq<byte>, exponent: seq<byte>)
    ensures RsaIntegers(bytes) == Some((modulus, exponent)) <==> Pkcs1(bytes, modulus, exponent)
  {
    hide TlvAt, Element;
    if Pkcs1(bytes, modulus, exponent) {
      var first, second :|
        Element(bytes, SEQUENCE, first + second) && Element(first, INTEGER, modulus)
        && Element(second, INTEGER, exponent);
      WholeReads(bytes, SEQUENCE, first + second);
      PairReads(first, INTEGER, modulus, second, INTEGER, exponent);
    }
    if RsaIntegers(bytes) == Some((modulus, exponent)) {
      ReadsWhole(bytes, SEQUENCE);
      var first, second := ReadsPair(TlvAt(bytes, 0, SEQUENCE).value.0, INTEGER, INTEGER);
    }
  }
}
