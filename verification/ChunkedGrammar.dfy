/**
 The chunked coding as section 7.1 of RFC 9112 writes it down (tokens and quoted strings are those of section
 5.6 of RFC 9110), against what the JWKS client accepts.
 */
module ChunkedGrammar {
  import opened Wrappers
  import opened Text
  import opened Utf8
  import opened Chunked

  // ----- Lexical rules

  predicate IsBlank(b: byte) {
    b == 0x20 || b == 0x09
  }

  predicate IsHex(b: byte) {
    0x30 <= b <= 0x39 || 0x41 <= b <= 0x46 || 0x61 <= b <= 0x66
  }

  predicate IsTokenByte(b: byte) {
    || 0x30 <= b <= 0x39 || 0x41 <= b <= 0x5A || 0x61 <= b <= 0x7A
    || b == 0x21 || 0x23 <= b <= 0x27 || b == 0x2A || b == 0x2B || b == 0x2D || b == 0x2E
    || 0x5E <= b <= 0x60 || b == 0x7C || b == 0x7E
  }

  /** Blanks, visible characters, and bytes above ASCII. */
  predicate IsText(b: byte) {
    b == 0x09 || 0x20 <= b <= 0x7E || b >= 0x80
  }

  /** How many bytes at the front of `s` are of a kind. */
  function Run(s: seq<byte>, kind: byte -> bool): (n: nat)
    ensures n <= |s| && (forall i | 0 <= i < n :: kind(s[i])) && (n < |s| ==> !kind(s[n]))
  {
    if s != [] && kind(s[0]) then 1 + Run(s[1..], kind) else 0
  }

  function SkipBlanks(s: seq<byte>): (r: seq<byte>)
    ensures |r| <= |s|
  {
    s[Run(s, IsBlank)..]
  }

  function AfterToken(s: seq<byte>): (r: Option<seq<byte>>)
    ensures r.Some? ==> |r.value| < |s|
  {
    var n := Run(s, IsTokenByte);
    if n > 0 then Some(s[n..]) else None
  }

  /** What follows a quoted string whose opening quote has been read. */
  function AfterQuoted(s: seq<byte>): (r: Option<seq<byte>>)
    ensures r.Some? ==> |r.value| < |s|
  {
    if s == [] then None
    else if s[0] == 0x22 then Some(s[1..])
    else if s[0] == 0x5C then if |s| > 1 && IsText(s[1]) then AfterQuoted(s[2..]) else None
    else if IsText(s[0]) then AfterQuoted(s[1..])
    else None
  }

  function AfterValue(s: seq<byte>): (r: Option<seq<byte>>)
    ensures r.Some? ==> |r.value| < |s|
  {
    if s != [] && s[0] == 0x22 then AfterQuoted(s[1..]) else AfterToken(s)
  }

  // ----- Header lines

  /** One extension: blanks, `;`, blanks, a name, and perhaps `=` and a value with blanks around the sign. */
  function AfterExtension(s: seq<byte>): (r: Option<seq<byte>>)
    ensures r.Some? ==> |r.value| < |s|
  {
    var t := SkipBlanks(s);
    if t == [] || t[0] != 0x3B then None
    else
      match AfterToken(SkipBlanks(t[1..]))
      case None => None
      case Some(named) =>
        var sign := SkipBlanks(named);
        if sign != [] && sign[0] == 0x3D then AfterValue(SkipBlanks(sign[1..])) else Some(named)
  }

  predicate IsExtensions(s: seq<byte>)
    decreases |s|
  {
    s == [] || match AfterExtension(s) { case None => false case Some(rest) => IsExtensions(rest) }
  }

  // ----- No rule above reads a carriage return

  /** A carriage return in `s` is in `r`, which is what a rule leaves of it. */
  ghost predicate CrStays(s: seq<byte>, r: seq<byte>) {
    0x0D in s ==> 0x0D in r
  }

  lemma CrAfter(s: seq<byte>, n: nat)
    requires n <= |s| && forall i | 0 <= i < n :: s[i] != 0x0D
    ensures CrStays(s, s[n..])
  {
    assert s == s[..n] + s[n..];
  }

  lemma RunKeepsCr(s: seq<byte>)
    ensures CrStays(s, SkipBlanks(s)) && (AfterToken(s).Some? ==> CrStays(s, AfterToken(s).value))
  {
    hide CrStays;
    CrAfter(s, Run(s, IsBlank));
    CrAfter(s, Run(s, IsTokenByte));
  }

  lemma {:induction false} QuotedKeepsCr(s: seq<byte>)
    requires AfterQuoted(s).Some?
    ensures CrStays(s, AfterQuoted(s).value)
  {
    CrAfter(s, 1);
    if s[0] == 0x5C {
      CrAfter(s, 2);
      QuotedKeepsCr(s[2..]);
    } else if s[0] != 0x22 {
      QuotedKeepsCr(s[1..]);
    }
  }

  lemma ValueKeepsCr(s: seq<byte>)
    requires AfterValue(s).Some?
    ensures CrStays(s, AfterValue(s).value)
  {
    RunKeepsCr(s);
    if s != [] && s[0] == 0x22 {
      CrAfter(s, 1);
      QuotedKeepsCr(s[1..]);
    }
  }

  lemma ExtensionKeepsCr(s: seq<byte>)
    requires AfterExtension(s).Some?
    ensures CrStays(s, AfterExtension(s).value)
  {
    hide SkipBlanks, AfterToken, AfterValue;
    var t := SkipBlanks(s);
    RunKeepsCr(s);
    CrAfter(t, 1);
    RunKeepsCr(t[1..]);
    RunKeepsCr(SkipBlanks(t[1..]));
    var named := AfterToken(SkipBlanks(t[1..])).value;
    var sign := SkipBlanks(named);
    RunKeepsCr(named);
    if sign != [] && sign[0] == 0x3D {
      CrAfter(sign, 1);
      RunKeepsCr(sign[1..]);
      ValueKeepsCr(SkipBlanks(sign[1..]));
    }
  }

  lemma {:induction false} ExtensionsHaveNoCr(s: seq<byte>)
    requires IsExtensions(s)
    ensures 0x0D !in s
    decreases |s|
  {
    hide AfterExtension;
    if s != [] {
      ExtensionKeepsCr(s);
      ExtensionsHaveNoCr(AfterExtension(s).value);
    }
  }

  // ----- Sizes

  function HexDigitValue(b: byte): nat
    requires IsHex(b)
  {
    if b <= 0x39 then b - 0x30 else if b <= 0x46 then b - 0x37 else b - 0x57
  }

  function HexValue(s: seq<byte>): nat
    requires forall i | 0 <= i < |s| :: IsHex(s[i])
  {
    if s == [] then 0 else HexValue(s[..|s| - 1]) * 16 + HexDigitValue(s[|s| - 1])
  }

  /** The size a header line of the grammar announces: hexadecimal digits, then extensions. */
  function HeaderSize(line: seq<byte>): Option<nat> {
    var n := Run(line, IsHex);
    if n > 0 && IsExtensions(line[n..]) then Some(HexValue(line[..n])) else None
  }

  // ----- Bodies

  predicate IsFieldLine(line: seq<byte>) {
    var n := Run(line, IsTokenByte);
    0 < n < |line| && line[n] == 0x3A && Run(line[n + 1..], IsText) == |line| - n - 1
  }

  /** Field lines, each ended by a CRLF, and a last CRLF. */
  predicate IsTrailer(s: seq<byte>)
    decreases |s|
  {
    match Find(s, CRLF)
    case None => false
    case Some(e) => if e == 0 then |s| == 2 else IsFieldLine(s[..e]) && IsTrailer(s[e + 2..])
  }

  /** `body` is chunks, a last chunk and a trailer section of the grammar. */
  ghost predicate Conforms(body: seq<byte>, chunks: seq<Chunk>, last: seq<byte>, trailer: seq<byte>) {
    && (forall c | c in chunks :: c.data != [] && HeaderSize(c.line) == Some(|c.data|) && c.terminator == CRLF)
    && HeaderSize(last) == Some(0)
    && IsTrailer(trailer)
    && body == Wires(chunks) + (last + CRLF + trailer)
  }

  /** The same, checked from the front. */
  predicate FollowsGrammar(body: seq<byte>)
    decreases |body|
  {
    match Find(body, CRLF)
    case None => false
    case Some(e) =>
      var rest := body[e + 2..];
      match HeaderSize(body[..e])
      case None => false
      case Some(size) =>
        if size == 0 then IsTrailer(rest) else CrlfAt(rest, size) && FollowsGrammar(rest[size + 2..])
  }

  predicate CrlfAt(s: seq<byte>, i: nat): (b: bool)
    ensures b ==> i + 2 <= |s|
  {
    i + 2 <= |s| && s[i..i + 2] == CRLF
  }

  lemma HeaderHasNoCrlf(line: seq<byte>)
    requires HeaderSize(line).Some?
    ensures !Occurs(line, CRLF)
  {
    hide IsExtensions, Occurs, HexValue;
    var n := Run(line, IsHex);
    ExtensionsHaveNoCr(line[n..]);
    CrAfter(line, n);
    NoCrNoCrlf(line);
  }

  lemma NoCrNoCrlf(s: seq<byte>)
    requires 0x0D !in s
    ensures !Occurs(s, CRLF)
  {
    forall i: nat | i <= |s| ensures !MatchesAt(s, CRLF, i) {
      if i + 2 <= |s| {
        assert s[i..i + 2][0] == s[i];
      }
    }
  }

  /** A body that starts with a header line of the grammar is cut there. */
  lemma CutAtLine(line: seq<byte>, rest: seq<byte>)
    requires HeaderSize(line).Some?
    ensures var body := line + CRLF + rest;
            Find(body, CRLF) == Some(|line|) && body[..|line|] == line && body[|line| + 2..] == rest
  {
    hide HeaderSize, Find;
    HeaderHasNoCrlf(line);
    LineEnds(line, rest);
  }

  lemma GrammarStep(line: seq<byte>, rest: seq<byte>)
    requires HeaderSize(line).Some?
    ensures var size := HeaderSize(line).value;
            FollowsGrammar(line + CRLF + rest) <==>
            if size == 0 then IsTrailer(rest) else CrlfAt(rest, size) && FollowsGrammar(rest[size + 2..])
  {
    hide HeaderSize, IsTrailer, Find, CrlfAt;
    CutAtLine(line, rest);
  }

  lemma {:induction false} ConformsFollows(body: seq<byte>, chunks: seq<Chunk>, last: seq<byte>, trailer: seq<byte>)
    requires Conforms(body, chunks, last, trailer)
    ensures FollowsGrammar(body)
    decreases |chunks|
  {
    hide HeaderSize, IsTrailer, FollowsGrammar;
    if chunks == [] {
      assert body == last + CRLF + trailer;
      GrammarStep(last, trailer);
    } else {
      var c := chunks[0];
      assert c in chunks;
      var after := Wires(chunks[1..]) + (last + CRLF + trailer);
      var rest := c.data + CRLF + after;
      assert body == c.line + CRLF + rest;
      assert rest[|c.data|..|c.data| + 2] == CRLF && rest[|c.data| + 2..] == after;
      ConformsFollows(after, chunks[1..], last, trailer);
      GrammarStep(c.line, rest);
    }
  }

  lemma FirstLine(body: seq<byte>) returns (line: seq<byte>, rest: seq<byte>)
    requires FollowsGrammar(body)
    ensures body == line + CRLF + rest && HeaderSize(line).Some?
  {
    hide HeaderSize, IsTrailer;
    var e := Find(body, CRLF).value;
    line, rest := body[..e], body[e + 2..];
    assert body[e..e + 2] == CRLF;
  }

  lemma {:induction false} FollowsConforms(body: seq<byte>)
    returns (chunks: seq<Chunk>, last: seq<byte>, trailer: seq<byte>)
    requires FollowsGrammar(body)
    ensures Conforms(body, chunks, last, trailer)
    decreases |body|
  {
    hide HeaderSize, IsTrailer, FollowsGrammar, Conforms;
    var line, rest := FirstLine(body);
    GrammarStep(line, rest);
    var size := HeaderSize(line).value;
    if size == 0 {
      chunks, last, trailer := [], line, rest;
      ConformsLast(line, rest);
    } else {
      var after := rest[size + 2..];
      assert rest == rest[..size] + CRLF + after;
      var more;
      more, last, trailer := FollowsConforms(after);
      var c := Chunk(line, rest[..size], CRLF);
      chunks := [c] + more;
      ConformsCons(body, c, more, after, last, trailer);
    }
  }

  lemma ConformsLast(last: seq<byte>, trailer: seq<byte>)
    requires HeaderSize(last) == Some(0) && IsTrailer(trailer)
    ensures Conforms(last + CRLF + trailer, [], last, trailer)
  {
    assert Wires([]) + (last + CRLF + trailer) == last + CRLF + trailer;
  }

  lemma ConformsCons(
      body: seq<byte>, c: Chunk, more: seq<Chunk>, after: seq<byte>, last: seq<byte>, trailer: seq<byte>)
    requires c.data != [] && HeaderSize(c.line) == Some(|c.data|) && c.terminator == CRLF
    requires body == c.line + CRLF + (c.data + CRLF + after) && Conforms(after, more, last, trailer)
    ensures Conforms(body, [c] + more, last, trailer)
  {
    hide HeaderSize, IsTrailer;
    var chunks := [c] + more;
    assert chunks[1..] == more;
    var end := last + CRLF + trailer;
    assert c.Wire() + Wires(more) == Wires(chunks);
    assert c.Wire() == c.line + CRLF + c.data + CRLF;
    assert body == c.Wire() + (Wires(more) + end);
    Regroup(c.Wire(), Wires(more), end);
  }

  /** The check from the front decides the grammar. */
  lemma GrammarExact(body: seq<byte>)
    ensures FollowsGrammar(body) <==> exists chunks, last, trailer :: Conforms(body, chunks, last, trailer)
  {
    if FollowsGrammar(body) {
      var chunks, last, trailer := FollowsConforms(body);
    }
    if chunks, last, trailer :| Conforms(body, chunks, last, trailer) {
      ConformsFollows(body, chunks, last, trailer);
    }
  }

  // ----- How the client reads a header line of the grammar

  /** `text` put in front of what was read, if it was. */
  function InFront(text: string, r: Option<string>): Option<string> {
    match r
    case None => None
    case Some(rest) => Some(text + rest)
  }

  lemma AsciiFirst(b: byte, s: seq<byte>)
    requires b < 0x80
    ensures FromUtf8([b] + s) == InFront([b as char], FromUtf8(s))
  {
    assert ([b] + s)[1..] == s;
  }

  /** ASCII in front is read as itself. */
  lemma {:induction false} AsciiInFront(text: string, s: seq<byte>)
    requires IsAscii(text)
    ensures FromUtf8(AsciiBytes(text) + s) == InFront(text, FromUtf8(s))
  {
    hide FromUtf8;
    if text == "" {
      assert AsciiBytes(text) + s == s;
      assert FromUtf8(s).Some? ==> "" + FromUtf8(s).value == FromUtf8(s).value;
    } else {
      var b := text[0] as byte;
      AsciiInFront(text[1..], s);
      AsciiFirst(b, AsciiBytes(text[1..]) + s);
      assert AsciiBytes(text) + s == [b] + (AsciiBytes(text[1..]) + s);
      if FromUtf8(s).Some? {
        Regroup([text[0]], text[1..], FromUtf8(s).value);
        assert text == [text[0]] + text[1..];
      }
    }
  }

  function AsText(s: seq<byte>): (text: string)
    ensures |text| == |s|
  {
    seq(|s|, i requires 0 <= i < |s| => s[i] as char)
  }

  lemma {:induction false} DigitsOfHex(s: seq<byte>)
    requires forall i | 0 <= i < |s| :: IsHex(s[i])
    ensures DigitsValue(AsText(s), 16) == Some(HexValue(s))
  {
    if s != [] {
      DigitsOfHex(s[..|s| - 1]);
      assert AsText(s)[..|s| - 1] == AsText(s[..|s| - 1]);
    }
  }

  lemma {:induction false} TrimEndBlanks(word: string, blanks: string)
    requires word != "" && !IsWhitespace(word[|word| - 1])
    requires forall i | 0 <= i < |blanks| :: IsWhitespace(blanks[i])
    ensures TrimEnd(word + blanks) == word
    decreases |blanks|
  {
    if blanks == "" {
      assert word + blanks == word;
    } else {
      assert (word + blanks)[..|word + blanks| - 1] == word + blanks[..|blanks| - 1];
      TrimEndBlanks(word, blanks[..|blanks| - 1]);
    }
  }

  /** Digits with blanks after them are parsed as the digits. */
  lemma SizeIsParsed(size: seq<byte>, blanks: seq<byte>)
    requires size != [] && (forall i | 0 <= i < |size| :: IsHex(size[i]))
    requires forall i | 0 <= i < |blanks| :: IsBlank(blanks[i])
    ensures ParseUnsigned(Trim(AsText(size) + AsText(blanks)), 16, USIZE_MAX) ==
            if HexValue(size) <= USIZE_MAX then Some(HexValue(size)) else None
  {
    hide DigitsValue, HexValue, TrimEnd, TrimStart, AsText, IsWhitespace, ParseUnsigned;
    var word := AsText(size);
    HexWord(size);
    BlankWord(blanks);
    NothingInFront(word + AsText(blanks));
    TrimEndBlanks(word, AsText(blanks));
    DigitsOfHex(size);
    DigitsAreParsed(word, HexValue(size));
  }

  lemma HexWord(size: seq<byte>)
    requires size != [] && forall i | 0 <= i < |size| :: IsHex(size[i])
    ensures var word := AsText(size);
            word[0] != '+' && !IsWhitespace(word[0]) && !IsWhitespace(word[|word| - 1])
  {
  }

  lemma BlankWord(blanks: seq<byte>)
    requires forall i | 0 <= i < |blanks| :: IsBlank(blanks[i])
    ensures forall i | 0 <= i < |blanks| :: IsWhitespace(AsText(blanks)[i])
  {
  }

  lemma DigitsAreParsed(word: string, n: nat)
    requires word != "" && word[0] != '+' && DigitsValue(word, 16) == Some(n)
    ensures ParseUnsigned(word, 16, USIZE_MAX) == if n <= USIZE_MAX then Some(n) else None
  {
    hide DigitsValue;
  }

  lemma NothingInFront(s: string)
    requires s != "" && !IsWhitespace(s[0])
    ensures TrimStart(s) == s
  {
  }

  /** Extensions are nothing, or blanks and a semicolon with more behind it. */
  lemma ExtensionsStart(s: seq<byte>)
    requires IsExtensions(s)
    ensures var n := Run(s, IsBlank); s == [] || (n < |s| && s[n] == 0x3B)
  {
  }

  /** The client reads the size of a header line of the grammar if it is UTF-8 and fits, and refuses it otherwise. */
  lemma HeaderIsRead(line: seq<byte>)
    requires HeaderSize(line).Some?
    ensures ChunkSize(line) ==
            if FromUtf8(line).Some? && HeaderSize(line).value <= USIZE_MAX then HeaderSize(line) else None
  {
    hide HeaderSize, ParseUnsigned, Trim, HexValue, Split, FromUtf8, AsText, AsciiBytes, IsAscii, IsHex, IsBlank;
    var size, blanks, more := CutHeader(line);
    SizeIsParsed(size, blanks);
    var head := AsText(size) + AsText(blanks);
    HeadIsAscii(size, blanks);
    AsciiInFront(head, more);
    if FromUtf8(line).Some? {
      SemicolonFirst(more);
      HeadBeforeExtension(head, FromUtf8(more).value);
    }
  }

  /** Its digits, the blanks after them, and the rest. */
  lemma CutHeader(line: seq<byte>) returns (size: seq<byte>, blanks: seq<byte>, more: seq<byte>)
    requires HeaderSize(line).Some?
    ensures line == size + blanks + more && size != []
    ensures (forall i | 0 <= i < |size| :: IsHex(size[i])) && forall i | 0 <= i < |blanks| :: IsBlank(blanks[i])
    ensures HeaderSize(line) == Some(HexValue(size)) && (more == [] || more[0] == 0x3B)
  {
    hide IsExtensions, HexValue, IsHex, IsBlank;
    var n := Run(line, IsHex);
    size := line[..n];
    var ext := line[n..];
    ExtensionsStart(ext);
    var k := if ext == [] then 0 else Run(ext, IsBlank);
    blanks, more := ext[..k], ext[k..];
  }

  lemma HeadIsAscii(size: seq<byte>, blanks: seq<byte>)
    requires (forall i | 0 <= i < |size| :: IsHex(size[i])) && forall i | 0 <= i < |blanks| :: IsBlank(blanks[i])
    ensures var head := AsText(size) + AsText(blanks);
            IsAscii(head) && AsciiBytes(head) == size + blanks && forall i | 0 <= i < |head| :: head[i] != ';'
  {
  }

  lemma SemicolonFirst(s: seq<byte>)
    requires FromUtf8(s).Some? && (s == [] || s[0] == 0x3B)
    ensures FromUtf8(s).value == "" || FromUtf8(s).value[0] == ';'
  {
  }

  // ----- What is accepted, against the grammar

  ghost predicate LinesAreUtf8(chunks: seq<Chunk>, last: seq<byte>) {
    (forall c | c in chunks :: FromUtf8(c.line).Some?) && FromUtf8(last).Some?
  }

  lemma DecodedStep(line: seq<byte>, rest: seq<byte>, room: nat)
    requires HeaderSize(line).Some? && room <= USIZE_MAX
    ensures var size := HeaderSize(line).value;
            Decoded(line + CRLF + rest, room) ==
            if FromUtf8(line).None? then None
            else if size == 0 then Some([])
            else if size > room || size + 2 > |rest| then None
            else Prepend(rest[..size], Decoded(rest[size + 2..], room - size))
  {
    hide HeaderSize, ChunkSize, FromUtf8, ReadHeader;
    ReadStep(line, rest);
    HeaderIsRead(line);
  }

  lemma ReadStep(line: seq<byte>, rest: seq<byte>)
    requires HeaderSize(line).Some?
    ensures ReadHeader(line + CRLF + rest) ==
            match ChunkSize(line) { case None => None case Some(size) => Some((size, rest)) }
  {
    hide HeaderSize, ChunkSize, Find;
    CutAtLine(line, rest);
  }

  /** A body of the grammar is accepted exactly when it is within the cap and its header lines are UTF-8. */
  lemma {:induction false} ConformingIsAccepted(
      body: seq<byte>, room: nat, chunks: seq<Chunk>, last: seq<byte>, trailer: seq<byte>)
    requires Conforms(body, chunks, last, trailer) && room <= USIZE_MAX
    ensures Decoded(body, room) ==
            if |Payload(chunks)| <= room && LinesAreUtf8(chunks, last) then Some(Payload(chunks)) else None
    decreases |chunks|
  {
    hide HeaderSize, IsTrailer, FromUtf8, Decoded;
    if chunks == [] {
      assert body == last + CRLF + trailer;
      DecodedStep(last, trailer, room);
    } else {
      var c := chunks[0];
      assert c in chunks;
      var after := Wires(chunks[1..]) + (last + CRLF + trailer);
      var rest := c.data + CRLF + after;
      assert body == c.line + CRLF + rest;
      DecodedStep(c.line, rest, room);
      assert rest[..|c.data|] == c.data && rest[|c.data| + 2..] == after;
      if |c.data| <= room {
        ConformingIsAccepted(after, room - |c.data|, chunks[1..], last, trailer);
        Utf8Cons(chunks, last);
      }
    }
  }

  lemma Utf8Cons(chunks: seq<Chunk>, last: seq<byte>)
    requires chunks != []
    ensures LinesAreUtf8(chunks, last) <==> FromUtf8(chunks[0].line).Some? && LinesAreUtf8(chunks[1..], last)
  {
    assert forall c | c in chunks :: c == chunks[0] || c in chunks[1..];
  }

  /**
   Acceptance against the standard: a body is accepted with an output and follows the grammar exactly when it is
   chunks of that payload as the grammar has them, within the cap, with header lines in UTF-8.
   */
  lemma ConformingExactly(body: seq<byte>, out: seq<byte>)
    ensures Decoded(body, MAX_JWKS_BYTES) == Some(out) && FollowsGrammar(body) <==>
            exists chunks, last, trailer ::
              && Conforms(body, chunks, last, trailer)
              && Payload(chunks) == out && |out| <= MAX_JWKS_BYTES && LinesAreUtf8(chunks, last)
  {
    hide Decoded, Conforms, FollowsGrammar, LinesAreUtf8;
    if Decoded(body, MAX_JWKS_BYTES) == Some(out) && FollowsGrammar(body) {
      var chunks, last, trailer := FollowsConforms(body);
      ConformingIsAccepted(body, MAX_JWKS_BYTES, chunks, last, trailer);
    }
    if chunks, last, trailer :|
        && Conforms(body, chunks, last, trailer)
        && Payload(chunks) == out && |out| <= MAX_JWKS_BYTES && LinesAreUtf8(chunks, last) {
      ConformsFollows(body, chunks, last, trailer);
      ConformingIsAccepted(body, MAX_JWKS_BYTES, chunks, last, trailer);
    }
  }

  // ----- Where an accepted body departs from the grammar

  /** The chunk is one of the grammar's. */
  ghost predicate Conforming(c: Chunk) {
    HeaderSize(c.line).Some? && c.terminator == CRLF
  }

  /**
   Acceptance reads any framed body; it follows the grammar exactly when every chunk's header line and terminator,
   the last chunk's line and the trailer do. So each part can depart from it on its own, and nothing else can.
   */
  lemma {:induction false} FramedConforms(body: seq<byte>, chunks: seq<Chunk>, last: seq<byte>, trailer: seq<byte>)
    requires Framed(body, chunks, last, trailer)
    ensures FollowsGrammar(body) <==>
            (forall c | c in chunks :: Conforming(c)) && HeaderSize(last).Some? && IsTrailer(trailer)
    decreases |chunks|
  {
    hide ChunkSize, HeaderSize, IsTrailer, Occurs, FollowsGrammar;
    if chunks == [] {
      assert body == last + CRLF + trailer;
      FramedStep(last, trailer);
    } else {
      var c := chunks[0];
      assert c in chunks;
      var after := Wires(chunks[1..]) + (last + CRLF + trailer);
      var rest := c.data + c.terminator + after;
      assert body == c.line + CRLF + rest;
      assert rest[|c.data|..|c.data| + 2] == c.terminator && rest[|c.data| + 2..] == after;
      FramedStep(c.line, rest);
      FramedConforms(after, chunks[1..], last, trailer);
      assert forall d | d in chunks :: d == c || d in chunks[1..];
    }
  }

  /** A line that is read as a size either is a header line of the grammar, of that size, or ends the check there. */
  lemma FramedStep(line: seq<byte>, rest: seq<byte>)
    requires ChunkSize(line).Some? && !Occurs(line, CRLF)
    ensures var size := ChunkSize(line).value;
            FollowsGrammar(line + CRLF + rest) <==>
            && HeaderSize(line).Some?
            && if size == 0 then IsTrailer(rest) else CrlfAt(rest, size) && FollowsGrammar(rest[size + 2..])
  {
    hide ChunkSize, HeaderSize, IsTrailer, Occurs, CrlfAt;
    if HeaderSize(line).Some? {
      HeaderIsRead(line);
      GrammarStep(line, rest);
    } else {
      LineEnds(line, rest);
      assert (line + CRLF + rest)[..|line|] == line;
    }
  }

  // ----- The departures, each at an input

  /** A body of one chunk with this header line, the last chunk `0`, and this trailer. */
  function OneChunk(line: seq<byte>, data: seq<byte>, terminator: seq<byte>, trailer: seq<byte>): seq<byte> {
    line + CRLF + (data + terminator + ([0x30] + CRLF + trailer))
  }

  lemma LastChunk()
    ensures HeaderSize([0x30]) == Some(0) && ChunkSize([0x30]) == Some(0) && !Occurs([0x30], CRLF)
  {
    ChunkSizeOfHex(0, "");
    assert HexText(0) + "" == "0" && AsciiBytes("0") == [0x30];
    var last: seq<byte> := [0x30];
    assert last[1..] == [] && last[..1] == last && last[..0] == [];
  }

  /** One chunk whose data has the whole body's cap to itself is a corollary: what is loose about it is accepted. */
  lemma OneChunkExact(line: seq<byte>, data: seq<byte>, terminator: seq<byte>, trailer: seq<byte>)
    requires ChunkSize(line) == Some(|data|) && 0 < |data| <= MAX_JWKS_BYTES
    requires |terminator| == 2 && !Occurs(line, CRLF)
    ensures Decoded(OneChunk(line, data, terminator, trailer), MAX_JWKS_BYTES) == Some(data)
    ensures FollowsGrammar(OneChunk(line, data, terminator, trailer)) <==>
            HeaderSize(line).Some? && terminator == CRLF && IsTrailer(trailer)
  {
    hide ChunkSize, HeaderSize, IsTrailer, Occurs, Decoded, FollowsGrammar;
    LastChunk();
    OneChunkDecodes(line, data, terminator, trailer);
    var c := Chunk(line, data, terminator);
    OneChunkFramed(c, trailer);
    FramedConforms(OneChunk(line, data, terminator, trailer), [c], [0x30], trailer);
    assert c in [c];
  }

  lemma OneChunkFramed(c: Chunk, trailer: seq<byte>)
    requires c.Valid()
    ensures Framed(OneChunk(c.line, c.data, c.terminator, trailer), [c], [0x30], trailer)
  {
    hide ChunkSize, Occurs;
    LastChunk();
    assert [c][1..] == [] && Wires([c]) == c.Wire() + [];
  }

  lemma OneChunkDecodes(line: seq<byte>, data: seq<byte>, terminator: seq<byte>, trailer: seq<byte>)
    requires ChunkSize(line) == Some(|data|) && 0 < |data| <= MAX_JWKS_BYTES
    requires |terminator| == 2 && !Occurs(line, CRLF)
    ensures Decoded(OneChunk(line, data, terminator, trailer), MAX_JWKS_BYTES) == Some(data)
  {
    hide ChunkSize, Occurs, Decoded;
    LastChunk();
    var c := Chunk(line, data, terminator);
    assert [c][1..] == [] && Wires([c]) == c.Wire() + [] && Payload([c]) == data + [] == data;
    var end := [0x30] + CRLF + trailer;
    assert OneChunk(line, data, terminator, trailer) == Wires([c]) + end;
    FramedDecodes(OneChunk(line, data, terminator, trailer), MAX_JWKS_BYTES, [c], [0x30], trailer);
  }

  /** A sign or a blank in front of the size is accepted. */
  lemma LooseSizes()
    ensures ChunkSize([0x2B, 0x31]) == ChunkSize([0x20, 0x31]) == Some(1)
    ensures !Occurs([0x2B, 0x31], CRLF) && !Occurs([0x20, 0x31], CRLF)
    ensures HeaderSize([0x2B, 0x31]) == HeaderSize([0x20, 0x31]) == None
  {
    hide Split, Occurs;
    SizeOf("+1");
    SizeOf(" 1");
    assert AsciiBytes("+1") == [0x2B, 0x31] && AsciiBytes(" 1") == [0x20, 0x31];
    NoCrNoCrlf([0x2B, 0x31]);
    NoCrNoCrlf([0x20, 0x31]);
  }

  lemma SizeOf(text: string)
    requires text == "+1" || text == " 1"
    ensures ChunkSize(AsciiBytes(text)) == Some(1)
  {
    hide Split, FromUtf8, ParseUnsigned, Trim;
    AsciiRoundTrip(text);
    assert text + "" == text;
    HeadBeforeExtension(text, "");
    TrimmedSize(text);
    SizeOne();
  }

  lemma TrimmedSize(text: string)
    requires text == "+1" || text == " 1"
    ensures Trim(text) == if text == "+1" then "+1" else "1"
  {
    assert " 1"[1..] == "1";
    assert Trim("+1") == "+1" && Trim(" 1") == "1";
  }

  lemma SizeOne()
    ensures ParseUnsigned("+1", 16, USIZE_MAX) == ParseUnsigned("1", 16, USIZE_MAX) == Some(1)
  {
    assert "+1"[1..] == "1" && "1"[..0] == "" && DigitsValue("1", 16) == Some(1);
  }

  lemma PlusSignIsAccepted()
    ensures var body: seq<byte> := [0x2B, 0x31, 0x0D, 0x0A, 0x61, 0x0D, 0x0A, 0x30, 0x0D, 0x0A, 0x0D, 0x0A];
            Decoded(body, MAX_JWKS_BYTES) == Some([0x61]) && !FollowsGrammar(body)
  {
    hide Decoded, FollowsGrammar, ChunkSize, HeaderSize, Occurs;
    LooseSizes();
    OneChunkExact([0x2B, 0x31], [0x61], CRLF, CRLF);
    assert OneChunk([0x2B, 0x31], [0x61], CRLF, CRLF)
        == [0x2B, 0x31, 0x0D, 0x0A, 0x61, 0x0D, 0x0A, 0x30, 0x0D, 0x0A, 0x0D, 0x0A];
  }

  lemma BlankIsAccepted()
    ensures var body: seq<byte> := [0x20, 0x31, 0x0D, 0x0A, 0x61, 0x0D, 0x0A, 0x30, 0x0D, 0x0A, 0x0D, 0x0A];
            Decoded(body, MAX_JWKS_BYTES) == Some([0x61]) && !FollowsGrammar(body)
  {
    hide Decoded, FollowsGrammar, ChunkSize, HeaderSize, Occurs;
    LooseSizes();
    OneChunkExact([0x20, 0x31], [0x61], CRLF, CRLF);
    assert OneChunk([0x20, 0x31], [0x61], CRLF, CRLF)
        == [0x20, 0x31, 0x0D, 0x0A, 0x61, 0x0D, 0x0A, 0x30, 0x0D, 0x0A, 0x0D, 0x0A];
  }

  /** So is a body that stops after the last chunk's line, without the final CRLF. */
  lemma MissingEndIsAccepted()
    ensures var body: seq<byte> := [0x31, 0x0D, 0x0A, 0x61, 0x0D, 0x0A, 0x30, 0x0D, 0x0A];
            Decoded(body, MAX_JWKS_BYTES) == Some([0x61]) && !FollowsGrammar(body)
  {
    hide Decoded, FollowsGrammar, ChunkSize, HeaderSize, Occurs;
    ChunkSizeOfHex(1, "");
    assert HexText(1) + "" == "1" && AsciiBytes("1") == [0x31];
    OneChunkExact([0x31], [0x61], CRLF, []);
    assert OneChunk([0x31], [0x61], CRLF, []) == [0x31, 0x0D, 0x0A, 0x61, 0x0D, 0x0A, 0x30, 0x0D, 0x0A];
  }

  /** The other way round: an extension with a byte above ASCII, which the grammar allows, is refused. */
  lemma NonAsciiExtensionIsRefused(data: seq<byte>, after: seq<byte>)
    requires |data| == 1 && FollowsGrammar(after)
    ensures var body := [0x31, 0x3B, 0x61, 0x3D, 0x22, 0x80, 0x22] + CRLF + (data + CRLF + after);
            FollowsGrammar(body) && Decoded(body, MAX_JWKS_BYTES) == None
  {
    hide Decoded, FollowsGrammar, FromUtf8, HeaderSize;
    var line: seq<byte> := [0x31, 0x3B, 0x61, 0x3D, 0x22, 0x80, 0x22];
    NonAsciiLine();
    var rest := data + CRLF + after;
    GrammarStep(line, rest);
    assert rest[1..3] == CRLF && rest[3..] == after;
    DecodedStep(line, rest, MAX_JWKS_BYTES);
  }

  lemma NonAsciiLine()
    ensures var line: seq<byte> := [0x31, 0x3B, 0x61, 0x3D, 0x22, 0x80, 0x22];
            HeaderSize(line) == Some(1) && FromUtf8(line) == None
  {
    hide FromUtf8, IsExtensions, HeaderSize;
    NonAsciiText();
    NonAsciiExtension();
    OneDigitHeader([0x3B, 0x61, 0x3D, 0x22, 0x80, 0x22]);
    assert [0x31] + [0x3B, 0x61, 0x3D, 0x22, 0x80, 0x22] == [0x31, 0x3B, 0x61, 0x3D, 0x22, 0x80, 0x22];
  }

  lemma OneDigitHeader(extensions: seq<byte>)
    requires IsExtensions(extensions) && extensions != [] && !IsHex(extensions[0])
    ensures HeaderSize([0x31] + extensions) == Some(1)
  {
    hide IsExtensions;
    var line: seq<byte> := [0x31] + extensions;
    assert line[1..] == extensions && line[..1] == [0x31] && [0x31][..0] == [];
  }

  lemma NonAsciiText()
    ensures FromUtf8([0x31, 0x3B, 0x61, 0x3D, 0x22, 0x80, 0x22]) == None
  {
    LoneContinuation();
    hide FromUtf8;
    AsciiInFront("1;a=\"", [0x80, 0x22]);
    assert AsciiBytes("1;a=\"") == [0x31, 0x3B, 0x61, 0x3D, 0x22];
    assert [0x31, 0x3B, 0x61, 0x3D, 0x22] + [0x80, 0x22] == [0x31, 0x3B, 0x61, 0x3D, 0x22, 0x80, 0x22];
  }

  lemma LoneContinuation()
    ensures FromUtf8([0x80, 0x22]) == None
  {
  }

  lemma NonAsciiExtension()
    ensures IsExtensions([0x3B, 0x61, 0x3D, 0x22, 0x80, 0x22])
  {
    hide SkipBlanks, AfterToken, AfterQuoted;
    var s: seq<byte> := [0x3B, 0x61, 0x3D, 0x22, 0x80, 0x22];
    NoBlanks(s);
    var name := s[1..];
    NoBlanks(name);
    OneLetterToken(name);
    var sign := name[1..];
    NoBlanks(sign);
    var value := sign[1..];
    NoBlanks(value);
    assert value[1..] == [0x80, 0x22];
    QuotedNonAscii();
  }

  lemma NoBlanks(s: seq<byte>)
    requires s == [] || !IsBlank(s[0])
    ensures SkipBlanks(s) == s
  {
  }

  lemma OneLetterToken(s: seq<byte>)
    requires |s| > 1 && IsTokenByte(s[0]) && !IsTokenByte(s[1])
    ensures AfterToken(s) == Some(s[1..])
  {
  }

  lemma QuotedNonAscii()
    ensures AfterQuoted([0x80, 0x22]) == Some([])
  {
    var s: seq<byte> := [0x80, 0x22];
    assert s[1..] == [0x22] && s[1..][1..] == [];
  }
}
