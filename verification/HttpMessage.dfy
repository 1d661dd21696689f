/**
 HTTP/1.1 responses as sections 3 to 6 of RFC 9112 write them, and what the response reader makes of them. Nothing here is
 said in terms of the reader's own head parse.
 */
module HttpMessage {
  import opened Wrappers
  import opened Text
  import opened TextFacts
  import opened Utf8
  import opened Chunked
  import opened ResponseReader

  // ----- Single lines

  /** A name before the first colon and what follows it. */
  ghost predicate Field(line: string, name: string, value: string) {
    ':' !in name && line == name + ":" + value
  }

  /** The word stands in the value, in whatever case. */
  ghost predicate HoldsWord(value: string, word: string) {
    exists i: nat | i <= |value| :: WordAt(value, word, i)
  }

  predicate WordAt(value: string, word: string, i: nat) {
    i + |word| <= |value| && CaseOf(value[i..i + |word|], word)
  }

  ghost predicate IsChunkedLine(line: string) {
    exists name, value | Field(line, name, value) :: CaseOf(name, "transfer-encoding") && HoldsWord(value, "chunked")
  }

  /** A length in decimal that fits in 64 bits, with white space around it or not. */
  ghost predicate IsLengthLine(line: string, n: nat) {
    n <= 18446744073709551615 && exists name, before, number, after :: LengthLineOf(line, n, name, before, number, after)
  }

  ghost predicate LengthLineOf(line: string, n: nat, name: string, before: string, number: string, after: string) {
    && Field(line, name, before + number + after) && CaseOf(name, "content-length")
    && Blank(before) && Spells(number, n) && Blank(after)
  }

  lemma FieldExactly(line: string, name: string, value: string)
    requires Field(line, name, value)
    ensures NameAndValue(line) == Some((name, Trim(value)))
  {
    FirstCharacter(name, ':', value);
    assert [':'] == ":";
    assert line[..|name|] == name && line[|name| + 1..] == value;
  }

  lemma FieldOf(line: string) returns (name: string, value: string)
    requires NameAndValue(line).Some?
    ensures Field(line, name, value) && NameAndValue(line) == Some((name, Trim(value)))
  {
    var i := Find(line, ":").value;
    name, value := line[..i], line[i + 1..];
    assert line[i..i + 1] == ":";
    forall k | 0 <= k < i ensures line[k] != ':' {
      assert line[k..k + 1] == [line[k]];
      assert !MatchesAt(line, ":", k);
    }
  }

  /** A line has one name and one value. */
  lemma FieldUnique(line: string, name: string, value: string, name2: string, value2: string)
    requires Field(line, name, value) && Field(line, name2, value2)
    ensures name == name2 && value == value2
  {
    FirstCharacter(name, ':', value);
    FirstCharacter(name2, ':', value2);
    assert [':'] == ":";
    assert line[..|name|] == name && line[|name| + 1..] == value;
    assert line[..|name2|] == name2 && line[|name2| + 1..] == value2;
  }

  /** Trimming neither takes a word away nor makes one: white space is no part of it. */
  lemma TrimKeepsWord(value: string, word: string)
    requires word != "" && forall i | 0 <= i < |word| :: 'a' <= word[i] <= 'z'
    ensures HoldsWord(Trim(value), word) <==> HoldsWord(value, word)
  {
    hide Trim, WordAt, IsWhitespace;
    var before, after := TrimParts(value);
    var core := Trim(value);
    if i: nat :| i <= |core| && WordAt(core, word, i) {
      WordShifts(before, core, after, word, i);
    }
    if i: nat :| i <= |value| && WordAt(value, word, i) {
      WordIsInside(before, core, after, word, i);
    }
  }

  lemma WordShifts(before: string, core: string, after: string, word: string, i: nat)
    requires WordAt(core, word, i)
    ensures WordAt(before + core + after, word, |before| + i)
  {
    var j := |before| + i;
    assert (before + core + after)[j..j + |word|] == core[i..i + |word|];
  }

  lemma WordIsInside(before: string, core: string, after: string, word: string, i: nat)
    requires word != "" && (forall k | 0 <= k < |word| :: 'a' <= word[k] <= 'z')
    requires Blank(before) && Blank(after) && WordAt(before + core + after, word, i)
    ensures |before| <= i && WordAt(core, word, i - |before|)
  {
    var value := before + core + after;
    var found := value[i..i + |word|];
    var last := |word| - 1;
    assert found[0] == value[i] && found[last] == value[i + last];
    LetterIsNoBlank(found[0], word[0]);
    LetterIsNoBlank(found[last], word[last]);
    OutsideIsBlank(before, core, after);
    assert core[i - |before|..i - |before| + |word|] == found;
  }

  lemma LetterIsNoBlank(c: char, lower: char)
    requires 'a' <= lower <= 'z' && (c == lower || c as int + 32 == lower as int)
    ensures !IsWhitespace(c)
  {
  }

  lemma WordFound(value: string, word: string)
    requires word != "" && IsLower(word)
    ensures Find(ToAsciiLower(value), word).Some? <==> HoldsWord(value, word)
  {
    var lowered := ToAsciiLower(value);
    forall i: nat ensures MatchesAt(lowered, word, i) <==> WordAt(value, word, i) {
      if i + |word| <= |value| {
        LowerExactly(value[i..i + |word|], word);
        assert lowered[i..i + |word|] == ToAsciiLower(value[i..i + |word|]);
      }
    }
    assert Find(lowered, word).Some? <==> Occurs(lowered, word);
    if i: nat :| i <= |value| && WordAt(value, word, i) {
      assert MatchesAt(lowered, word, i);
    }
  }

  /** The reader takes a line for a chunked declaration exactly when it is one. */
  lemma ChunkedLineExactly(line: string)
    ensures DeclaresChunked(line) <==> IsChunkedLine(line)
  {
    hide Trim, IsWhitespace, HoldsWord, CaseOf, EqIgnoreAsciiCase, ToAsciiLower;
    if NameAndValue(line).Some? {
      var name, value := FieldOf(line);
      LowerExactly(name, "transfer-encoding");
      WordFound(Trim(value), "chunked");
      TrimKeepsWord(value, "chunked");
      forall name2, value2 | Field(line, name2, value2) ensures name2 == name && value2 == value {
        FieldUnique(line, name, value, name2, value2);
      }
    }
    if name, value :| Field(line, name, value) {
      FieldExactly(line, name, value);
    }
  }

  /** The reader takes a length from a line exactly when the line is one of that length. */
  lemma LengthLineExactly(line: string, n: nat)
    ensures DeclaredLength(line) == Some(n) <==> IsLengthLine(line, n)
  {
    hide DeclaredLength, IsLengthLine;
    if DeclaredLength(line) == Some(n) {
      ReadIsLengthLine(line, n);
    }
    if IsLengthLine(line, n) {
      LengthLineIsRead(line, n);
    }
  }

  lemma ReadIsLengthLine(line: string, n: nat)
    requires DeclaredLength(line) == Some(n)
    ensures IsLengthLine(line, n)
  {
    hide Trim, IsWhitespace, CaseOf, EqIgnoreAsciiCase, Spells, ParseUnsigned, Blank, Tight;
    var name, value := FieldOf(line);
    LowerExactly(name, "content-length");
    ParseDecimalExactly(Trim(value), USIZE_MAX, n);
    var before, after := TrimParts(value);
    assert LengthLineOf(line, n, name, before, Trim(value), after);
  }

  lemma LengthLineIsRead(line: string, n: nat)
    requires IsLengthLine(line, n)
    ensures DeclaredLength(line) == Some(n)
  {
    hide Trim, IsWhitespace, CaseOf, EqIgnoreAsciiCase, Spells, ParseUnsigned, Blank, Tight;
    var name, before, number, after :| LengthLineOf(line, n, name, before, number, after);
    FieldExactly(line, name, before + number + after);
    LowerExactly(name, "content-length");
    SpelledIsTight(number, n);
    TrimOf(before, number, after);
    ParseDecimalExactly(number, USIZE_MAX, n);
  }

  lemma SpelledIsTight(s: string, n: nat)
    requires Spells(s, n)
    ensures Tight(s) && s != ""
  {
    var digits :| digits != "" && AllDigits(digits) && DecimalValue(digits) == n && (s == digits || s == "+" + digits);
    assert s[|s| - 1] == digits[|digits| - 1];
  }

  // ----- The head

  /** The framing of section 6.3: chunked if any line says so, else the last length, else up to the end. */
  ghost predicate FramedAs(lines: seq<string>, framing: Framing) {
    match framing
    case Chunks => exists i | 0 <= i < |lines| :: IsChunkedLine(lines[i])
    case Length(n) =>
      && (forall i | 0 <= i < |lines| :: !IsChunkedLine(lines[i]))
      && exists i | 0 <= i < |lines| :: IsLengthLine(lines[i], n) && NoLengthFrom(lines, i + 1)
    case ToEnd => (forall i | 0 <= i < |lines| :: !IsChunkedLine(lines[i])) && NoLengthFrom(lines, 0)
  }

  ghost predicate NoLengthFrom(lines: seq<string>, from: nat) {
    forall i, n: nat | from <= i < |lines| :: !IsLengthLine(lines[i], n)
  }

  lemma {:induction false} LastLengthExactly(lines: seq<string>)
    ensures match LastLength(lines) {
              case ToEnd => NoLengthFrom(lines, 0)
              case Length(n) =>
                exists i | 0 <= i < |lines| :: IsLengthLine(lines[i], n) && NoLengthFrom(lines, i + 1)
              case Chunks => false
            }
    decreases |lines|
  {
    hide IsLengthLine, DeclaredLength;
    if lines != [] {
      var init, last := lines[..|lines| - 1], lines[|lines| - 1];
      LastLengthExactly(init);
      forall n: nat ensures DeclaredLength(last) == Some(n) <==> IsLengthLine(last, n) {
        LengthLineExactly(last, n);
      }
      if DeclaredLength(last).Some? {
        assert IsLengthLine(lines[|lines| - 1], DeclaredLength(last).value) && NoLengthFrom(lines, |lines|);
      } else if LastLength(init).Length? {
        var n := LastLength(init).length;
        var i :| 0 <= i < |init| && IsLengthLine(init[i], n) && NoLengthFrom(init, i + 1);
        assert IsLengthLine(lines[i], n) && NoLengthFrom(lines, i + 1);
      }
    }
  }

  lemma FramingIs(lines: seq<string>)
    ensures FramedAs(lines, FramingOf(lines))
  {
    hide IsChunkedLine, DeclaresChunked, IsLengthLine, LastLength;
    forall i | 0 <= i < |lines| ensures DeclaresChunked(lines[i]) <==> IsChunkedLine(lines[i]) {
      ChunkedLineExactly(lines[i]);
    }
    LastLengthExactly(lines);
  }

  /** Lines without a line break, each with something in it, and the first one the status line. */
  ghost predicate Lines(lines: seq<string>) {
    forall i | 0 <= i < |lines| :: lines[i] != "" && '\r' !in lines[i] && '\n' !in lines[i]
  }

  lemma FirstCrlf(line: string, rest: string)
    requires '\r' !in line
    ensures Find(line + "\r\n" + rest, "\r\n") == Some(|line|) && !Occurs(line, "\r\n")
  {
    var s := line + "\r\n" + rest;
    assert s[|line|..|line| + 2] == "\r\n";
    assert MatchesAt(s, "\r\n", |line|);
    forall k: nat | k < |line| ensures !MatchesAt(s, "\r\n", k) && !MatchesAt(line, "\r\n", k) {
      assert s[k] == line[k] && line[k] in line;
      if k + 2 <= |s| {
        assert s[k..k + 2][0] == s[k];
      }
      if k + 2 <= |line| {
        assert line[k..k + 2][0] == line[k];
      }
    }
  }

  lemma {:induction false} LinesSplit(lines: seq<string>)
    requires Lines(lines) && lines != []
    ensures Split(JoinBy(lines, "\r\n"), "\r\n") == lines
    decreases |lines|
  {
    hide Split, Find, Occurs;
    var first := lines[0];
    FirstCrlf(first, "");
    if |lines| == 1 {
      SplitAlone(first, "\r\n");
    } else {
      var rest := JoinBy(lines[1..], "\r\n");
      FirstCrlf(first, rest);
      LinesSplit(lines[1..]);
      SplitCons(first, rest, "\r\n");
    }
  }

  lemma SplitAlone(s: string, pattern: string)
    requires pattern != "" && !Occurs(s, pattern)
    ensures Split(s, pattern) == [s]
  {
  }

  /** `HTTP/1.`, a minor version, the status in decimal, and a reason or none. */
  ghost predicate StatusLine(line: string, status: nat) {
    status <= 65535 && exists minor, number, rest :: StatusLineOf(line, status, minor, number, rest)
  }

  ghost predicate StatusLineOf(line: string, status: nat, minor: string, number: string, rest: string) {
    && line == "HTTP/1." + minor + " " + number + rest
    && Spells(number, status) && ' ' !in minor && (rest == "" || rest[0] == ' ')
  }

  lemma SpelledHasNoSpace(s: string, n: nat)
    requires Spells(s, n)
    ensures ' ' !in s
  {
    var digits :| digits != "" && AllDigits(digits) && DecimalValue(digits) == n && (s == digits || s == "+" + digits);
    assert ' ' !in digits;
  }

  /** The reader takes a status from a line exactly when it is a status line of that status. */
  lemma StatusExactly(line: string, status: nat)
    ensures StatusOf(line) == Some(status) <==> StatusLine(line, status)
  {
    hide StatusLine, StatusOf;
    if StatusLine(line, status) {
      StatusLineIsRead(line, status);
    }
    if StatusOf(line) == Some(status) {
      ReadIsStatusLine(line, status);
    }
  }

  lemma StatusLineIsRead(line: string, status: nat)
    requires StatusLine(line, status)
    ensures StatusOf(line) == Some(status)
  {
    hide Spells, ParseUnsigned, Split;
    var minor, number, rest :| StatusLineOf(line, status, minor, number, rest);
    SpelledHasNoSpace(number, status);
    var version := "HTTP/1." + minor;
    StatusParts(version, number, rest);
    assert line == version + " " + number + rest;
    ParseDecimalExactly(number, 0xFFFF, status);
  }

  lemma ReadIsStatusLine(line: string, status: nat)
    requires StatusOf(line) == Some(status)
    ensures StatusLine(line, status)
  {
    hide Spells, ParseUnsigned, Split;
    var version, number, rest := SplitStatus(line);
    ParseDecimalExactly(number, 0xFFFF, status);
    assert "HTTP/1." <= version;
    var minor := version[7..];
    assert version == "HTTP/1." + minor;
    assert ' ' !in minor by { assert forall i | 0 <= i < |minor| :: minor[i] == version[i + 7]; }
    assert StatusLineOf(line, status, minor, number, rest);
  }

  lemma StatusParts(version: string, number: string, rest: string)
    requires ' ' !in version && ' ' !in number && (rest == "" || rest[0] == ' ')
    ensures var parts := Split(version + " " + number + rest, " ");
            |parts| > 1 && parts[0] == version && parts[1] == number
  {
    hide Split, Find;
    assert [' '] == " ";
    FirstCharacter(version, ' ', number + rest);
    SplitCons(version, number + rest, " ");
    assert version + " " + (number + rest) == version + " " + number + rest;
    if rest == "" {
      FirstCharacter(number, ' ', "");
      SplitAlone(number, " ");
      assert number + rest == number;
    } else {
      FirstCharacter(number, ' ', rest[1..]);
      assert number + rest == number + " " + rest[1..];
      SplitCons(number, rest[1..], " ");
    }
  }

  lemma CharacterOccurs(s: string, c: char)
    ensures c in s ==> Occurs(s, [c])
  {
    if c in s {
      var k :| 0 <= k < |s| && s[k] == c;
      assert s[k..k + 1] == [c];
      assert MatchesAt(s, [c], k);
    }
  }

  lemma SplitStatus(line: string) returns (version: string, number: string, rest: string)
    requires |Split(line, " ")| > 1
    ensures line == version + " " + number + rest && ' ' !in version && (rest == "" || rest[0] == ' ')
    ensures Split(line, " ")[0] == version && Split(line, " ")[1] == number
  {
    hide Find;
    SplitPieces(line, " ");
    var parts := Split(line, " ");
    version, number := parts[0], parts[1];
    var tail := JoinBy(parts[1..], " ");
    assert line == version + " " + tail;
    rest := tail[|number|..];
    if |parts| == 2 {
      assert parts[1..] == [number] && tail == number;
    } else {
      assert parts[1..][0] == number;
      assert tail == number + " " + JoinBy(parts[1..][1..], " ");
    }
    CharacterOccurs(version, ' ');
    assert [' '] == " ";
    assert tail == number + rest;
    assert line == version + " " + (number + rest);
  }

  // ----- Whole responses

  /** A head of lines, in ASCII, a blank line, and what follows. */
  function Response(lines: seq<string>, body: seq<byte>): seq<byte>
    requires IsAscii(JoinBy(lines, "\r\n"))
  {
    AsciiBytes(JoinBy(lines, "\r\n")) + [13, 10, 13, 10] + body
  }

  lemma BytesOfConcat(a: string, b: string)
    requires IsAscii(a + b)
    ensures IsAscii(a) && IsAscii(b) && AsciiBytes(a + b) == AsciiBytes(a) + AsciiBytes(b)
  {
    assert forall i | 0 <= i < |a| :: a[i] == (a + b)[i];
    assert forall i | 0 <= i < |b| :: b[i] == (a + b)[|a| + i];
  }

  /** Where the lines stop is where the blank line is first found. */
  lemma {:induction false} BlankLineFound(lines: seq<string>, body: seq<byte>)
    requires Lines(lines) && lines != [] && IsAscii(JoinBy(lines, "\r\n"))
    ensures Find(Response(lines, body), CRLF_CRLF) == Some(|JoinBy(lines, "\r\n")|)
    decreases |lines|
  {
    hide Find, Occurs, MatchesAt;
    var line := lines[0];
    if |lines| == 1 {
      LastLineFound(line, body);
      assert JoinBy(lines, "\r\n") == line;
    } else {
      var text := JoinBy(lines[1..], "\r\n");
      BytesOfConcat(line + "\r\n", text);
      BlankLineFound(lines[1..], body);
      JoinStarts(lines[1..]);
      LineInFront(line, text, body);
    }
  }

  lemma JoinStarts(lines: seq<string>)
    requires Lines(lines) && lines != []
    ensures JoinBy(lines, "\r\n") != "" && JoinBy(lines, "\r\n")[0] != '\r'
  {
    assert lines[0][0] in lines[0];
  }

  lemma LastLineFound(line: string, body: seq<byte>)
    requires IsAscii(line) && '\r' !in line
    ensures Find(AsciiBytes(line) + CRLF_CRLF + body, CRLF_CRLF) == Some(|line|)
  {
    hide Find;
    var rest := CRLF_CRLF + body;
    assert AsciiBytes(line) + CRLF_CRLF + body == AsciiBytes(line) + rest;
    assert rest[0..4] == CRLF_CRLF;
    FoundAfterLine(line, rest, 0);
  }

  lemma LineInFront(line: string, text: string, body: seq<byte>)
    requires IsAscii(line + "\r\n" + text) && IsAscii(text) && '\r' !in line && text != "" && text[0] != '\r'
    requires Find(AsciiBytes(text) + CRLF_CRLF + body, CRLF_CRLF) == Some(|text|)
    ensures Find(AsciiBytes(line + "\r\n" + text) + CRLF_CRLF + body, CRLF_CRLF) == Some(|line| + 2 + |text|)
  {
    hide Find, MatchesAt;
    BytesOfConcat(line + "\r\n", text);
    BytesOfConcat(line, "\r\n");
    var rest := AsciiBytes(text) + CRLF_CRLF + body;
    assert AsciiBytes("\r\n") == [13, 10];
    assert AsciiBytes(line + "\r\n" + text) + CRLF_CRLF + body == AsciiBytes(line) + ([13, 10] + rest);
    assert rest[0] == text[0] as byte != 13;
    FoundPastBreak(rest, |text|);
    FoundAfterLine(line, [13, 10] + rest, 2 + |text|);
  }

  lemma NoCrBefore(line: string, rest: seq<byte>)
    requires IsAscii(line) && '\r' !in line
    ensures forall i: nat | i < |line| :: !MatchesAt(AsciiBytes(line) + rest, CRLF_CRLF, i)
  {
    var s := AsciiBytes(line) + rest;
    forall i: nat | i < |line| ensures !MatchesAt(s, CRLF_CRLF, i) {
      assert s[i] == line[i] as byte && line[i] in line;
      if i + 4 <= |s| {
        assert s[i..i + 4][0] == s[i];
      }
    }
  }

  lemma FoundAfterLine(line: string, rest: seq<byte>, at: nat)
    requires IsAscii(line) && '\r' !in line
    requires MatchesAt(rest, CRLF_CRLF, at) && forall i: nat | i < at :: !MatchesAt(rest, CRLF_CRLF, i)
    ensures Find(AsciiBytes(line) + rest, CRLF_CRLF) == Some(|line| + at)
  {
    var s := AsciiBytes(line) + rest;
    NoCrBefore(line, rest);
    MatchShifts(AsciiBytes(line), rest, at);
    forall i: nat | |line| <= i < |line| + at ensures !MatchesAt(s, CRLF_CRLF, i) {
      MatchShifts(AsciiBytes(line), rest, i - |line|);
    }
  }

  lemma FoundPastBreak(rest: seq<byte>, at: nat)
    requires rest != [] && rest[0] != 13 && Find(rest, CRLF_CRLF) == Some(at)
    ensures MatchesAt([13, 10] + rest, CRLF_CRLF, 2 + at)
    ensures forall i: nat | i < 2 + at :: !MatchesAt([13, 10] + rest, CRLF_CRLF, i)
  {
    var s: seq<byte> := [13, 10] + rest;
    MatchShifts([13, 10], rest, at);
    forall i: nat | i < 2 + at ensures !MatchesAt(s, CRLF_CRLF, i) {
      if i < 2 {
        NotAcross(rest, i);
      } else {
        MatchShifts([13, 10], rest, i - 2);
      }
    }
  }

  lemma MatchShifts(front: seq<byte>, rest: seq<byte>, i: nat)
    ensures MatchesAt(front + rest, CRLF_CRLF, |front| + i) <==> MatchesAt(rest, CRLF_CRLF, i)
  {
    if i + 4 <= |rest| {
      assert (front + rest)[|front| + i..|front| + i + 4] == rest[i..i + 4];
    }
  }

  lemma NotAcross(rest: seq<byte>, i: nat)
    requires i < 2 && rest != [] && rest[0] != 13
    ensures !MatchesAt([13, 10] + rest, CRLF_CRLF, i)
  {
    var s: seq<byte> := [13, 10] + rest;
    if i + 4 <= |s| {
      var four := s[i..i + 4];
      assert four[0] == s[i] && four[2] == s[i + 2];
    }
  }

  /** The reader's verdict on such a head. */
  lemma VerdictIs(lines: seq<string>, status: nat)
    requires Lines(lines) && lines != [] && IsAscii(JoinBy(lines, "\r\n")) && StatusLine(lines[0], status)
    ensures var verdict := HeadVerdict(AsciiBytes(JoinBy(lines, "\r\n")));
            if 200 <= status < 300 then verdict.Ok? && FramedAs(lines[1..], verdict.value) else verdict == Err(Answered(status))
  {
    hide StatusOf, FramingOf, FramedAs, Split, FromUtf8, StatusLine;
    AsciiRoundTrip(JoinBy(lines, "\r\n"));
    LinesSplit(lines);
    StatusExactly(lines[0], status);
    FramingIs(lines[1..]);
  }

  /**
   The reader, on a response built from a status line and header lines that end within the header cap, however its
   bytes are cut and the connection ends: another status than a 2xx is answered as it is; a chunked body is
   de-chunked; a length takes that many bytes; without either the body is all there is. Bodies over 256 KiB are refused.
   */
  lemma ResponseIsRead(
      lines: seq<string>, status: nat, framing: Framing, body: seq<byte>, cut: Cut, ending: Ending)
    requires Lines(lines) && lines != [] && IsAscii(JoinBy(lines, "\r\n")) && StatusLine(lines[0], status)
    requires |JoinBy(lines, "\r\n")| + 4 <= 16384 && Flatten(cut) == Response(lines, body)
    requires FramedAs(lines[1..], framing)
    ensures var r := Outcome(cut, ending);
            if status < 200 || status > 299 then r == Err(Answered(status))
            else match framing {
              case Length(n) =>
                r == if n > 262144 then Err(DeclaredTooLong(n))
                     else if |body| < n then Err(if ending == Closed then BodyEndedEarly else ConnectionFailed)
                     else Ok(body[..n])
              case ToEnd =>
                r == if |body| > 262144 then Err(ExceededCap)
                     else if body == [] && ending == Reset then Err(ConnectionFailed)
                     else Ok(body)
              case Chunks =>
                if |body| > 262144 then r == Err(ExceededCap)
                else if body == [] && ending == Reset then r == Err(ConnectionFailed)
                else
                  && (r.Ok? || r == Err(MalformedChunks))
                  && forall out :: r == Ok(out) <==>
                       exists chunks, last, trailer ::
                         Framed(body, chunks, last, trailer) && Payload(chunks) == out && |out| <= 262144
            }
  {
    hide HeadVerdict, FramedAs, Decoded, Find, Lines, StatusLine, Framed;
    var head := AsciiBytes(JoinBy(lines, "\r\n"));
    var stream := Flatten(cut);
    BlankLineFound(lines, body);
    WithinCapIsOnePass(cut, ending);
    VerdictIs(lines, status);
    assert stream[..|head|] == head && stream[|head| + 4..] == body;
    if 200 <= status < 300 {
      FramingUnique(lines[1..], framing, HeadVerdict(head).value);
    }
    if framing.Chunks? {
      forall out ensures Decoded(body, 262144) == Some(out) <==>
                         exists chunks, last, trailer ::
                           Framed(body, chunks, last, trailer) && Payload(chunks) == out && |out| <= 262144 {
        DechunkExact(body, out);
      }
    }
  }

  /** The header cap in numbers: what a stream comes to that has no blank line, or has it late. */
  lemma HeaderCapIs(cut: Cut, ending: Ending)
    ensures var stream, r := Flatten(cut), Outcome(cut, ending);
            match Find(stream, [13, 10, 13, 10]) {
              case None =>
                r == Err(if |stream| > 16384 then HeadersTooLong
                         else if ending == Closed then ClosedBeforeResponse else ConnectionFailed)
              case Some(headEnd) =>
                && (headEnd + 4 <= 16385 ==> r != Err(HeadersTooLong))
                && (headEnd + 4 > 24576 ==> r == Err(HeadersTooLong))
                && (CapSensitive(stream) <==> 16385 < headEnd + 4 <= 24576)
            }
  {
    hide Find, HeadVerdict, BodyOf;
    var stream := Flatten(cut);
    if !CapSensitive(stream) {
      CutOffByBytes(cut);
    }
    OnePassNeverBlamesTheCap(stream, ending);
  }

  /** A head within the cap that is not text, or has no status line, is refused as such. */
  lemma HeadIsRefused(cut: Cut, ending: Ending, headEnd: nat)
    requires Find(Flatten(cut), [13, 10, 13, 10]) == Some(headEnd) && headEnd + 4 <= 16384
    ensures var head := Flatten(cut)[..headEnd];
            && (FromUtf8(head) == None ==> Outcome(cut, ending) == Err(HeadNotText))
            && (FromUtf8(head).Some? && (forall n: nat :: !StatusLine(Split(FromUtf8(head).value, "\r\n")[0], n)) ==>
                  Outcome(cut, ending) == Err(UnreadableHead))
  {
    hide Find, FromUtf8, Split, StatusLine, StatusOf, BodyOf;
    WithinCapIsOnePass(cut, ending);
    var head := Flatten(cut)[..headEnd];
    if FromUtf8(head).Some? {
      var line := Split(FromUtf8(head).value, "\r\n")[0];
      forall n: nat ensures StatusOf(line) == Some(n) <==> StatusLine(line, n) {
        StatusExactly(line, n);
      }
    }
  }

  /** Lines have one framing. */
  lemma FramingUnique(lines: seq<string>, a: Framing, b: Framing)
    requires FramedAs(lines, a) && FramedAs(lines, b)
    ensures a == b
  {
    hide IsChunkedLine, IsLengthLine;
    if a.Length? && b.Length? {
      var i :| 0 <= i < |lines| && IsLengthLine(lines[i], a.length) && NoLengthFrom(lines, i + 1);
      var j :| 0 <= j < |lines| && IsLengthLine(lines[j], b.length) && NoLengthFrom(lines, j + 1);
      assert i == j;
      OneLength(lines[i], a.length, b.length);
    }
  }

  lemma OneLength(line: string, a: nat, b: nat)
    requires IsLengthLine(line, a) && IsLengthLine(line, b)
    ensures a == b
  {
    hide IsLengthLine, DeclaredLength;
    LengthLineExactly(line, a);
    LengthLineExactly(line, b);
  }

  // ----- A response as it is usually written

  /** The usual lines: a status in decimal, and one header or none. */
  function Printed(status: nat, reason: string, header: string): seq<string> {
    ["HTTP/1.1 " + DecimalText(status) + reason] + if header == "" then [] else [header]
  }

  lemma PrintedStatus(status: nat, reason: string)
    requires status <= 65535 && (reason == "" || reason[0] == ' ')
    ensures StatusLine("HTTP/1.1 " + DecimalText(status) + reason, status)
  {
    hide Spells, DecimalText;
    DecimalTextSpells(status);
    assert "HTTP/1.1 " == "HTTP/1." + "1" + " ";
    assert StatusLineOf("HTTP/1.1 " + DecimalText(status) + reason, status, "1", DecimalText(status), reason);
  }

  /** One `content-length` of the body's length, spelled in any case with white space around it, gives back the body. */
  lemma LengthRoundTrip(
      status: nat, reason: string, name: string, before: string, after: string, body: seq<byte>, extra: seq<byte>, cut: Cut)
    requires 200 <= status <= 299 && (reason == "" || reason[0] == ' ') && CaseOf(name, "content-length")
    requires Blank(before) && Blank(after) && |body| <= 262144
    requires var lines := Printed(status, reason, name + ":" + before + DecimalText(|body|) + after);
             && Lines(lines) && IsAscii(JoinBy(lines, "\r\n")) && |JoinBy(lines, "\r\n")| + 4 <= 16384
             && Flatten(cut) == Response(lines, body + extra)
    ensures Outcome(cut, Closed) == Ok(body)
  {
    hide Spells, DecimalText, StatusLine, Outcome, IsWhitespace, Lines, Flatten, Response, JoinBy;
    var header := name + ":" + before + DecimalText(|body|) + after;
    var lines := Printed(status, reason, header);
    PrintedStatus(status, reason);
    LengthHeader(name, before, |body|, after);
    assert lines[1..] == [header];
    ResponseIsRead(lines, status, Length(|body|), body + extra, cut, Closed);
    assert (body + extra)[..|body|] == body;
  }

  lemma LengthHeader(name: string, before: string, n: nat, after: string)
    requires CaseOf(name, "content-length") && Blank(before) && Blank(after) && n <= 262144
    ensures name + ":" + before + DecimalText(n) + after != ""
    ensures FramedAs([name + ":" + before + DecimalText(n) + after], Length(n))
  {
    hide Spells, DecimalText, IsWhitespace, Blank;
    DecimalTextSpells(n);
    var line := name + ":" + before + DecimalText(n) + after;
    var value := before + DecimalText(n) + after;
    assert line == name + ":" + value;
    NoColon(name, "content-length");
    assert Field(line, name, value);
    assert LengthLineOf(line, n, name, before, DecimalText(n), after);
    LengthLineExactly(line, n);
    ChunkedLineExactly(line);
    if DeclaresChunked(line) {
      ChunkedIsNotALength(line);
    }
    assert IsLengthLine([line][0], n) && NoLengthFrom([line], 1);
  }

  lemma NoColon(name: string, lower: string)
    requires CaseOf(name, lower) && ':' !in lower
    ensures ':' !in name
  {
    forall i | 0 <= i < |name| ensures name[i] != ':' {
      assert lower[i] in lower;
    }
  }

  /** One `transfer-encoding: chunked`, in any case, gives back what was chunked. */
  lemma ChunkedRoundTrip(
      status: nat, reason: string, name: string, before: string, coding: string, after: string,
      pieces: seq<(string, seq<byte>)>, trailer: seq<byte>, cut: Cut)
    requires 200 <= status <= 299 && (reason == "" || reason[0] == ' ')
    requires CaseOf(name, "transfer-encoding") && CaseOf(coding, "chunked")
    requires forall p | p in pieces :: Extension(p.0) && p.1 != [] && |p.1| <= USIZE_MAX && IsAscii(HexText(|p.1|) + p.0)
    requires |Encode(pieces, trailer)| <= 262144
    requires var lines := Printed(status, reason, name + ":" + before + coding + after);
             && Lines(lines) && IsAscii(JoinBy(lines, "\r\n")) && |JoinBy(lines, "\r\n")| + 4 <= 16384
             && Flatten(cut) == Response(lines, Encode(pieces, trailer))
    ensures |Joined(pieces)| <= 262144 ==> Outcome(cut, Closed) == Ok(Joined(pieces))
  {
    hide Spells, DecimalText, StatusLine, Outcome, Lines, Flatten, Response, Encode, Framed, JoinBy;
    var header := name + ":" + before + coding + after;
    var lines := Printed(status, reason, header);
    PrintedStatus(status, reason);
    ChunkedHeader(name, before, coding, after);
    assert lines[1..] == [header];
    ResponseIsRead(lines, status, Chunks, Encode(pieces, trailer), cut, Closed);
    var chunks, last := EncodeIsFramed(pieces, trailer);
  }

  lemma ChunkedHeader(name: string, before: string, coding: string, after: string)
    requires CaseOf(name, "transfer-encoding") && CaseOf(coding, "chunked")
    ensures name + ":" + before + coding + after != ""
    ensures FramedAs([name + ":" + before + coding + after], Chunks)
  {
    var line := name + ":" + before + coding + after;
    var value := before + coding + after;
    assert line == name + ":" + value;
    NoColon(name, "transfer-encoding");
    assert value[|before|..|before| + 7] == coding;
    assert WordAt(value, "chunked", |before|);
    assert Field(line, name, value) && HoldsWord(value, "chunked");
    assert IsChunkedLine([line][0]);
  }

  /** Without either header, the rest of the stream is the body. */
  lemma BareRoundTrip(status: nat, reason: string, body: seq<byte>, cut: Cut)
    requires 200 <= status <= 299 && (reason == "" || reason[0] == ' ') && |body| <= 262144
    requires var lines := Printed(status, reason, "");
             && Lines(lines) && IsAscii(JoinBy(lines, "\r\n")) && |JoinBy(lines, "\r\n")| + 4 <= 16384
             && Flatten(cut) == Response(lines, body)
    ensures Outcome(cut, Closed) == Ok(body)
  {
    hide Spells, DecimalText, StatusLine, Outcome, Lines, Flatten, Response, JoinBy;
    var lines := Printed(status, reason, "");
    PrintedStatus(status, reason);
    assert lines[1..] == [];
    ResponseIsRead(lines, status, ToEnd, body, cut, Closed);
  }

  /** Any other status in decimal is answered as that number, whatever else the response has. */
  lemma OtherStatusIsAnswered(status: nat, reason: string, headers: seq<string>, body: seq<byte>, cut: Cut)
    requires status <= 65535 && (status < 200 || status > 299) && (reason == "" || reason[0] == ' ')
    requires var lines := ["HTTP/1.1 " + DecimalText(status) + reason] + headers;
             && Lines(lines) && IsAscii(JoinBy(lines, "\r\n")) && |JoinBy(lines, "\r\n")| + 4 <= 16384
             && Flatten(cut) == Response(lines, body)
    ensures Outcome(cut, Closed) == Err(Answered(status))
  {
    hide Spells, DecimalText, StatusLine, Outcome, Lines, Flatten, Response, FramedAs, JoinBy;
    var lines := ["HTTP/1.1 " + DecimalText(status) + reason] + headers;
    PrintedStatus(status, reason);
    FramingIs(lines[1..]);
    ResponseIsRead(lines, status, FramingOf(lines[1..]), body, cut, Closed);
  }
}
