/**
 The source gate's stripper: a line with its strings and its comment removed. The
 line is its UTF-8 bytes, each byte a `char` below 256.
 */
module StripLine {
  import opened Wrappers
  import opened RustLine
  import opened BraceDelta

  predicate IsIdentByte(c: char) {
    'a' <= c <= 'z' || 'A' <= c <= 'Z' || '0' <= c <= '9' || c == '_'
  }

  /** An `r` right after `before` is not the tail of an identifier; a `b` in front of it is part of the prefix. */
  predicate PrefixStarts(before: string) {
    var n := if before != "" && before[|before| - 1] == 'b' then |before| - 1 else |before|;
    n == 0 || !IsIdentByte(before[n - 1])
  }

  /** A raw string opens at the start of `s`. */
  predicate OpensHere(before: string, s: string) {
    s != "" && s[0] == 'r' && PrefixStarts(before) && OpensRaw(s[1..])
  }

  /** How far the stripper moves: past a literal, or one byte. */
  function StepWidth(before: string, s: string): (n: nat)
    requires s != ""
    ensures 0 < n <= |s|
  {
    var n := if OpensHere(before, s) then RawSkip(s).value
             else if s[0] == '"' then 1 + StringEnd(s[1..])
             else 1;
    if n <= |s| then n else |s|
  }

  predicate IsKept(before: string, s: string)
    requires s != ""
  {
    !OpensHere(before, s) && s[0] != '"'
  }

  /** What is kept of `s`, which follows `before` on its line. */
  function Stripped(before: string, s: string): string
    decreases |s|
  {
    if s == "" || AtComment(s) then ""
    else
      var n := StepWidth(before, s);
      (if IsKept(before, s) then s[..n] else "") + Stripped(before + s[..n], s[n..])
  }

  // ----- The stripper

  method RawStringOpener(bytes: string, index: nat) returns (r: Option<(nat, nat)>)
    requires index < |bytes|
    ensures r.Some? <==> OpensHere(bytes[..index], bytes[index..])
    ensures r.Some? ==> r.value.1 == HashRun(bytes[index + 1..]) && r.value.0 == index + 1 + r.value.1
  {
    hide HashRun;
    if bytes[index] != 'r' {
      return None;
    }
    var prefixStart := if index > 0 && bytes[index - 1] == 'b' then index - 1 else index;
    if prefixStart > 0 && IsIdentByte(bytes[prefixStart - 1]) {
      return None;
    }
    assert PrefixStarts(bytes[..index]);
    assert bytes[index..][1..] == bytes[index + 1..];
    var hashes := CountHashes(bytes, index + 1);
    var at := index + 1 + hashes;
    return if at < |bytes| && bytes[at] == '"' then Some((at, hashes)) else None;
  }

  /** `hashes` of them stand at `at`. */
  predicate HashesAt(bytes: string, at: nat, hashes: nat) {
    at + hashes <= |bytes| && forall k | at <= k < at + hashes :: bytes[k] == '#'
  }

  lemma HashesAtIsRun(bytes: string, at: nat, hashes: nat)
    requires at <= |bytes|
    ensures HashesAt(bytes, at, hashes) <==> HashRun(bytes[at..]) >= hashes
  {
    var run := HashRun(bytes[at..]);
    if at + run < |bytes| {
      assert bytes[at..][run] == bytes[at + run];
    }
    assert forall k | at <= k < at + run :: bytes[k] == bytes[at..][k - at];
  }

  method SkipRawFrom(bytes: string, from: nat, hashes: nat) returns (end: nat)
    requires from <= |bytes|
    ensures end == from + RawEnd(bytes[from..], hashes) && end <= |bytes|
    ensures end == |bytes| || bytes[end - 1] == '"' || bytes[end - 1] == '#'
  {
    hide HashRun, RawEnd;
    var at := from;
    while at < |bytes|
      invariant from <= at <= |bytes|
      invariant from + RawEnd(bytes[from..], hashes) == at + RawEnd(bytes[at..], hashes)
    {
      RawEndStep(bytes, at, hashes);
      if bytes[at] == '"' {
        HashesAtIsRun(bytes, at + 1, hashes);
        if HashesAt(bytes, at + 1, hashes) {
          return at + 1 + hashes;
        }
      }
      at := at + 1;
    }
    RawEndNothing(bytes, hashes);
    return |bytes|;
  }

  method SkipStringFrom(bytes: string, from: nat) returns (end: nat)
    requires from <= |bytes|
    ensures var reach := from + StringEnd(bytes[from..]); end == if reach <= |bytes| then reach else |bytes|
    ensures end == |bytes| || (end > 0 && bytes[end - 1] == '"')
  {
    hide StringEnd, Drop;
    var at := from;
    StringEndStep(bytes, at);
    while at < |bytes|
      invariant from <= at <= |bytes| + 1
      invariant from + StringEnd(bytes[from..]) == at + StringEnd(Drop(bytes, at))
    {
      StringEndStep(bytes, at);
      if bytes[at] == '\\' {
        at := at + 2;
      } else if bytes[at] == '"' {
        return at + 1;
      } else {
        at := at + 1;
      }
    }
    StringEndStep(bytes, at);
    return |bytes|;
  }

  /** What is kept from `index` on. */
  function Rest(line: string, index: nat): string
    requires index <= |line|
  {
    Stripped(line[..index], line[index..])
  }

  /** A byte inside a UTF-8 sequence. */
  predicate IsContinuation(c: char) {
    0x80 <= c as int < 0xC0
  }

  /** The part of being UTF-8 that slicing depends on: a continuation byte never follows an ASCII one. */
  ghost predicate WellEncoded(bytes: string) {
    forall i | 0 <= i < |bytes| && IsContinuation(bytes[i]) :: i > 0 && bytes[i - 1] as int >= 0x80
  }

  /** `&line[i..]` and `&line[..i]` do not panic. */
  predicate IsCharBoundary(bytes: string, i: nat) {
    i == 0 || i == |bytes| || (i < |bytes| && !IsContinuation(bytes[i]))
  }

  /** `strip_comments_and_strings`; every position it slices at is a character boundary. */
  method Strip(line: string) returns (out: string)
    requires WellEncoded(line)
    ensures out == Stripped("", line)
  {
    hide RawEnd, StringEnd, Rest, HashRun, OpensHere, RawSkip, Stripped, WellEncoded, IsCharBoundary;
    out := "";
    var index: nat, keptFrom: nat := 0, 0;
    StrippedStart(line);
    Boundaries(line, 0);
    while index < |line|
      invariant keptFrom <= index <= |line| && IsCharBoundary(line, keptFrom)
      invariant out + line[keptFrom..index] + Rest(line, index) == Stripped("", line)
    {
      StrippedStep(line, index);
      Boundaries(line, index);
      if line[index] == '/' && index + 1 < |line| && line[index + 1] == '/' {
        assert IsCharBoundary(line, index);
        out := out + line[keptFrom..index];
        return;
      }
      ghost var kept := out + line[keptFrom..index];
      var opener := RawStringOpener(line, index);
      if opener.Some? {
        OpensAtR(line, index);
        assert IsCharBoundary(line, index);
        out := out + line[keptFrom..index];
        RawSkipHere(line, index);
        index := SkipRawFrom(line, opener.value.0 + 1, opener.value.1);
        keptFrom := index;
        Boundaries(line, index);
        KeepNothing(kept, line, index);
        continue;
      }
      if line[index] == '"' {
        assert IsCharBoundary(line, index);
        out := out + line[keptFrom..index];
        index := SkipStringFrom(line, index + 1);
        keptFrom := index;
        Boundaries(line, index);
        KeepNothing(kept, line, index);
        continue;
      }
      KeepOne(out, line, keptFrom, index, Rest(line, index + 1));
      index := index + 1;
    }
    StrippedEnd(line);
    out := out + line[keptFrom..];
  }

  /** The ends of a line, an ASCII byte and the position after one are character boundaries. */
  lemma Boundaries(line: string, i: nat)
    requires WellEncoded(line) && i <= |line|
    ensures i == 0 || i == |line| || line[i] as int < 0x80 || line[i - 1] as int < 0x80 ==> IsCharBoundary(line, i)
  {
  }

  lemma OpensAtR(line: string, index: nat)
    requires index < |line| && OpensHere(line[..index], line[index..])
    ensures line[index] == 'r'
  {
  }

  lemma KeepNothing(out: string, line: string, index: nat)
    requires index <= |line|
    ensures out + line[index..index] == out
  {
  }

  lemma KeepOne(out: string, line: string, keptFrom: nat, index: nat, rest: string)
    requires keptFrom <= index < |line|
    ensures out + line[keptFrom..index] + ([line[index]] + rest) == out + line[keptFrom..index + 1] + rest
  {
    assert line[keptFrom..index + 1] == line[keptFrom..index] + [line[index]];
  }

  lemma StrippedStart(line: string)
    ensures "" + line[0..0] + Rest(line, 0) == Stripped("", line)
  {
    assert line[..0] == "" && line[0..] == line;
  }

  lemma StrippedEnd(line: string)
    ensures Rest(line, |line|) == ""
  {
  }

  lemma StrippedStep(line: string, index: nat)
    requires index < |line|
    ensures var s := line[index..];
            if AtComment(s) then Rest(line, index) == ""
            else if OpensHere(line[..index], s) then
              var next := index + RawSkip(s).value;
              Rest(line, index) == Rest(line, if next <= |line| then next else |line|)
            else if s[0] == '"' then
              var next := index + 1 + StringEnd(line[index + 1..]);
              Rest(line, index) == Rest(line, if next <= |line| then next else |line|)
            else Rest(line, index) == [line[index]] + Rest(line, index + 1)
  {
    hide RawEnd, StringEnd, HashRun, PrefixStarts;
    var s := line[index..];
    var n := StepWidth(line[..index], s);
    assert s[1..] == line[index + 1..];
    assert s[..n] == line[index..index + n];
    assert s[n..] == line[index + n..];
    assert line[..index] + s[..n] == line[..index + n];
    assert "" + Rest(line, index + n) == Rest(line, index + n);
  }

  lemma RawSkipHere(line: string, index: nat)
    requires index < |line| && OpensHere(line[..index], line[index..])
    ensures var hashes := HashRun(line[index + 1..]);
            && index + 2 + hashes <= |line|
            && index + RawSkip(line[index..]).value ==
               index + 2 + hashes + RawEnd(line[index + 2 + hashes..], hashes)
  {
    hide RawEnd;
    var hashes := HashRun(line[index + 1..]);
    assert line[index..][1..] == line[index + 1..];
    assert line[index..][2 + hashes..] == line[index + 2 + hashes..];
  }

  // ----- For every line

  /** `a` is what is left of `b` after deleting some of it. */
  predicate Subsequence(a: string, b: string) {
    if a == "" then true
    else if b == "" then false
    else if a[0] == b[0] then Subsequence(a[1..], b[1..])
    else Subsequence(a, b[1..])
  }

  lemma {:induction false} SubsequenceSkip(a: string, b: string, skipped: string)
    requires Subsequence(a, b)
    ensures Subsequence(a, skipped + b)
    decreases |skipped|
  {
    if skipped == "" {
      assert skipped + b == b;
    } else {
      var longer := skipped + b;
      assert longer[1..] == skipped[1..] + b;
      SubsequenceSkip(a, b, skipped[1..]);
      if a != "" && a[0] == longer[0] {
        SubsequenceTail(a, longer[1..]);
      }
    }
  }

  lemma {:induction false} SubsequenceTail(a: string, b: string)
    requires a != "" && Subsequence(a, b)
    ensures Subsequence(a[1..], b)
    decreases |b|
  {
    if a[0] == b[0] {
      if a[1..] != "" {
        SubsequenceTail(a[1..], b[1..]);
      }
      if a[1..] != "" && a[1] != b[0] {
        assert Subsequence(a[1..], b[1..]);
      }
    } else {
      SubsequenceTail(a, b[1..]);
      if a[1..] != "" && a[1..][0] == b[0] {
        SubsequenceTail(a[1..], b[1..]);
      }
    }
  }

  /** Whatever the line, the output has no double quote and only leaves things out. */
  lemma {:induction false} StrippedOnlyRemoves(before: string, s: string)
    ensures '"' !in Stripped(before, s)
    ensures Subsequence(Stripped(before, s), s)
    decreases |s|
  {
    hide StringEnd, RawEnd, HashRun, PrefixStarts;
    if s != "" && !AtComment(s) {
      var n := StepWidth(before, s);
      StrippedOnlyRemoves(before + s[..n], s[n..]);
      var rest := Stripped(before + s[..n], s[n..]);
      assert s == s[..n] + s[n..];
      if IsKept(before, s) {
        assert n == 1 && s[..1] == [s[0]];
        assert ([s[0]] + rest)[1..] == rest;
      } else {
        SubsequenceSkip(rest, s[n..], s[..n]);
        assert "" + rest == rest;
      }
    }
  }

  // ----- Tokens

  /** The token is what Rust reads after `before`, with `rest` to follow; quotes and lifetimes are plain code here. */
  ghost predicate StripFits(before: string, t: Token, rest: string) {
    match t
    case Code(c) =>
      && c != '"'
      && !(c == '/' && rest != "" && rest[0] == '/')
      && !(c == 'r' && PrefixStarts(before) && OpensRaw(rest))
    case Str(items) => ValidItems(items)
    case Raw(hashes, content) => PrefixStarts(before) && NeverCloses(content, hashes)
    case _ => false
  }

  ghost predicate StripReads(before: string, tokens: seq<Token>, tail: Tail)
    decreases |tokens|
  {
    if tokens == [] then tail.Valid() && !tail.OpenEscape? && (tail.OpenRaw? ==> PrefixStarts(before))
    else
      && StripFits(before, tokens[0], Render(tokens[1..], tail))
      && StripReads(before + tokens[0].Text(), tokens[1..], tail)
  }

  /** The code fragments, in order. */
  function CodeText(tokens: seq<Token>): string {
    if tokens == [] then ""
    else (if tokens[0].Code? then [tokens[0].c] else "") + CodeText(tokens[1..])
  }

  lemma CodeStep(before: string, c: char, rest: string)
    requires StripFits(before, Code(c), rest)
    ensures var s := [c] + rest; !AtComment(s) && StepWidth(before, s) == 1 && IsKept(before, s)
  {
    hide RawEnd, StringEnd, HashRun, PrefixStarts;
    assert ([c] + rest)[1..] == rest;
  }

  lemma StrStep(before: string, items: seq<StrItem>, rest: string)
    requires ValidItems(items)
    ensures var s := Str(items).Text() + rest;
            !AtComment(s) && StepWidth(before, s) == |Str(items).Text()| && !IsKept(before, s)
  {
    hide RawSkip, HashRun, PrefixStarts, ItemsText;
    var s := Str(items).Text() + rest;
    assert s[1..] == ItemsText(items) + ("\"" + rest);
    StringEndOf(items, "\"" + rest);
    ClosedString(rest);
  }

  lemma RawStep(before: string, hashes: nat, content: string, rest: string)
    requires PrefixStarts(before) && NeverCloses(content, hashes)
    ensures var s := Raw(hashes, content).Text() + rest;
            !AtComment(s) && StepWidth(before, s) == |Raw(hashes, content).Text()| && !IsKept(before, s)
  {
    hide RawSkip, StringEnd, HashRun, PrefixStarts, NeverCloses, OpensRaw, AtRaw;
    var s := Raw(hashes, content).Text() + rest;
    RawSkipOf(hashes, content, rest);
    OpensFromSkip(s);
  }

  lemma TokenStep(before: string, t: Token, rest: string)
    requires StripFits(before, t, rest)
    ensures var s := t.Text() + rest;
            !AtComment(s) && StepWidth(before, s) == |t.Text()| && (IsKept(before, s) <==> t.Code?)
  {
    hide StepWidth, IsKept, NeverCloses, PrefixStarts, OpensRaw, AtComment;
    match t
    case Code(c) => CodeStep(before, c, rest);
    case Str(items) => StrStep(before, items, rest);
    case Raw(hashes, content) => RawStep(before, hashes, content, rest);
  }

  lemma ClosedString(rest: string)
    ensures StringEnd("\"" + rest) == 1
  {
  }

  lemma OpensFromSkip(s: string)
    requires AtRaw(s)
    ensures OpensRaw(s[1..]) && s[0] == 'r'
  {
    hide RawEnd;
  }

  lemma TailStep(before: string, tail: Tail)
    requires StripReads(before, [], tail)
    ensures Stripped(before, tail.Text()) == ""
  {
    hide RawEnd, StringEnd, HashRun, NeverCloses, PrefixStarts;
    var s := tail.Text();
    match tail
    case Nothing =>
    case Comment(_) =>
      assert AtComment(s);
    case OpenStr(items, backslash) =>
      var rest := if backslash then "\\" else "";
      assert s[1..] == ItemsText(items) + rest;
      StringEndOf(items, rest);
      OpenEnd(rest);
      assert StepWidth(before, s) == |s|;
      assert s[|s|..] == "";
    case OpenRaw(hashes, content) =>
      OpenRawSkip(hashes, content);
      OpensFromSkip(s);
      assert StepWidth(before, s) == |s|;
      assert s[|s|..] == "";
  }

  lemma OpenEnd(rest: string)
    requires rest == "" || rest == "\\"
    ensures StringEnd(rest) >= |rest|
  {
  }

  /** For every line that reads as code, strings, raw strings and a tail, the code is exactly what is kept. */
  lemma {:induction false} StrippedIsCode(before: string, tokens: seq<Token>, tail: Tail)
    requires StripReads(before, tokens, tail)
    ensures Stripped(before, Render(tokens, tail)) == CodeText(tokens)
    decreases |tokens|
  {
    hide StepWidth, IsKept, StripFits;
    if tokens == [] {
      TailStep(before, tail);
    } else {
      var t, rest := tokens[0], Render(tokens[1..], tail);
      var s := t.Text() + rest;
      TokenStep(before, t, rest);
      StrippedIsCode(before + t.Text(), tokens[1..], tail);
      assert s[..|t.Text()|] == t.Text() && s[|t.Text()|..] == rest;
    }
  }

  // ----- Character literals

  /** The token is what Rust reads after `before`, character literals told apart; nothing is asked of a lifetime. */
  ghost predicate LitFits(before: string, t: Token, rest: string) {
    match t
    case CharLit(c) => c != '\\'
    case WideLit(bytes) => |bytes| > 1 && forall i | 0 <= i < |bytes| :: bytes[i] as int >= 0x80
    case EscapedChar(body) => body != "" && '\'' !in body && '/' !in body
    case QuoteChar => true
    case Apostrophe => true
    case Code(c) => c != '\'' && StripFits(before, t, rest)
    case _ => StripFits(before, t, rest)
  }

  ghost predicate LitReads(before: string, tokens: seq<Token>, tail: Tail)
    decreases |tokens|
  {
    if tokens == [] then StripReads(before, [], tail)
    else
      && LitFits(before, tokens[0], Render(tokens[1..], tail))
      && LitReads(before + tokens[0].Text(), tokens[1..], tail)
  }

  predicate IsString(t: Token) {
    t.Str? || t.Raw?
  }

  /** What is left of the line without its strings: code, literals and lifetimes. */
  function Kept(tokens: seq<Token>): string {
    if tokens == [] then ""
    else (if IsString(tokens[0]) then "" else tokens[0].Text()) + Kept(tokens[1..])
  }

  /** A character literal of a double quote, escaped or not. */
  predicate IsQuoteLiteral(t: Token) {
    !IsString(t) && '"' in t.Text()
  }

  predicate HasQuoteLiteral(tokens: seq<Token>) {
    exists i | 0 <= i < |tokens| :: IsQuoteLiteral(tokens[i])
  }

  /** Text of a literal that has no double quote in it and ends in an apostrophe. */
  ghost predicate Inert(text: string) {
    && '"' !in text
    && (text != "" ==> text[|text| - 1] == '\'')
    && forall i | 0 <= i < |text| - 1 :: !(text[i] == '/' && text[i + 1] == '/')
  }

  lemma InertFirst(before: string, text: string, rest: string)
    requires text != "" && Inert(text)
    ensures StripFits(before, Code(text[0]), text[1..] + rest)
  {
    var after := text[1..] + rest;
    assert |text| > 1 ==> after[|text| - 2] == '\'';
  }

  /** Such text is kept, character by character. */
  lemma {:induction false} InertKept(before: string, text: string, rest: string)
    requires Inert(text)
    ensures Stripped(before, text + rest) == text + Stripped(before + text, rest)
    decreases |text|
  {
    hide StepWidth, IsKept, StripFits, AtComment;
    if text == "" {
      assert text + rest == rest && before + text == before;
    } else {
      var s, after := text + rest, text[1..] + rest;
      assert s == [text[0]] + after;
      InertFirst(before, text, rest);
      CodeStep(before, text[0], after);
      assert s[..1] == [text[0]] && s[1..] == after;
      InertKept(before + [text[0]], text[1..], rest);
      assert before + [text[0]] + text[1..] == before + text;
      assert [text[0]] + (text[1..] + Stripped(before + text, rest)) == text + Stripped(before + text, rest);
    }
  }

  lemma LiteralIsInert(before: string, t: Token, rest: string)
    requires LitFits(before, t, rest) && !IsString(t) && !t.Code? && !IsQuoteLiteral(t)
    ensures Inert(t.Text())
  {
  }

  lemma LitTokenStep(before: string, t: Token, rest: string)
    requires LitFits(before, t, rest) && !IsQuoteLiteral(t)
    ensures Stripped(before, t.Text() + rest) ==
            (if IsString(t) then "" else t.Text()) + Stripped(before + t.Text(), rest)
  {
    hide StepWidth, IsKept, StripFits, NeverCloses, PrefixStarts, OpensRaw, AtComment, Inert;
    if IsString(t) || t.Code? {
      var s := t.Text() + rest;
      TokenStep(before, t, rest);
      assert s[..|t.Text()|] == t.Text() && s[|t.Text()|..] == rest;
    } else {
      LiteralIsInert(before, t, rest);
      InertKept(before, t.Text(), rest);
    }
  }

  lemma {:induction false} KeptWithoutQuotes(before: string, tokens: seq<Token>, tail: Tail)
    requires LitReads(before, tokens, tail) && !HasQuoteLiteral(tokens)
    ensures Stripped(before, Render(tokens, tail)) == Kept(tokens)
    decreases |tokens|
  {
    hide LitFits, IsQuoteLiteral, Stripped, IsString;
    if tokens == [] {
      TailStep(before, tail);
    } else {
      assert !IsQuoteLiteral(tokens[0]);
      LitTokenStep(before, tokens[0], Render(tokens[1..], tail));
      assert forall i | 0 <= i < |tokens[1..]| :: tokens[1..][i] == tokens[i + 1];
      KeptWithoutQuotes(before + tokens[0].Text(), tokens[1..], tail);
    }
  }

  lemma {:induction false} QuoteIsKept(tokens: seq<Token>, i: nat)
    requires i < |tokens| && IsQuoteLiteral(tokens[i])
    ensures '"' in Kept(tokens)
    decreases i
  {
    if i > 0 {
      QuoteIsKept(tokens[1..], i - 1);
    }
  }

  lemma {:induction false} QuoteLiteralsAre(before: string, tokens: seq<Token>, tail: Tail)
    requires LitReads(before, tokens, tail)
    ensures forall i | 0 <= i < |tokens| ::
              IsQuoteLiteral(tokens[i]) <==>
              tokens[i] == CharLit('"') || (tokens[i].EscapedChar? && '"' in tokens[i].body)
    decreases |tokens|
  {
    hide LitFits, IsQuoteLiteral;
    if tokens != [] {
      QuoteLiteralIs(before, tokens[0], Render(tokens[1..], tail));
      QuoteLiteralsAre(before + tokens[0].Text(), tokens[1..], tail);
      assert forall i | 0 < i < |tokens| :: tokens[i] == tokens[1..][i - 1];
    }
  }

  lemma QuoteLiteralIs(before: string, t: Token, rest: string)
    requires LitFits(before, t, rest)
    ensures IsQuoteLiteral(t) <==> t == CharLit('"') || (t.EscapedChar? && '"' in t.body)
  {
  }

  /**
   For every line that reads as code, strings, raw strings, character literals, lifetimes and a tail: what is left
   is the line without its strings exactly when no character literal is a double quote, escaped or not.
   */
  lemma StripExact(tokens: seq<Token>, tail: Tail)
    requires LitReads("", tokens, tail)
    ensures Stripped("", Render(tokens, tail)) == Kept(tokens) <==> !HasQuoteLiteral(tokens)
    ensures HasQuoteLiteral(tokens) <==>
            exists i | 0 <= i < |tokens| ::
              tokens[i] == CharLit('"') || (tokens[i].EscapedChar? && '"' in tokens[i].body)
  {
    QuoteLiteralsAre("", tokens, tail);
    hide LitReads, Stripped, Kept, IsQuoteLiteral;
    if HasQuoteLiteral(tokens) {
      var i :| 0 <= i < |tokens| && IsQuoteLiteral(tokens[i]);
      QuoteIsKept(tokens, i);
      StrippedOnlyRemoves("", Render(tokens, tail));
    } else {
      KeptWithoutQuotes("", tokens, tail);
    }
  }

  /** A `'"'` literal is taken for a string that opens: the rest of a line without another quote goes with it. */
  lemma QuoteCharOpensString(rest: string)
    requires '"' !in rest && '\\' !in rest
    ensures Stripped("", "'\"'" + rest) == "'"
  {
    hide Stripped;
    var tail := OpenStr(PlainItems("'" + rest), false);
    var tokens := [Code('\'')];
    assert tokens[1..] == [];
    ItemsOfText("'" + rest);
    assert Render(tokens, tail) == "'\"'" + rest;
    StrippedIsCode("", tokens, tail);
  }

  /** So is the escaped one, `'\"'`, which leaves its backslash as well. */
  lemma EscapedQuoteOpensString(rest: string)
    requires '"' !in rest && '\\' !in rest
    ensures Stripped("", "'\\\"'" + rest) == "'\\"
  {
    hide Stripped, Render, StripReads, CodeText, StripFits;
    var tail := OpenStr(PlainItems("'" + rest), false);
    ItemsOfText("'" + rest);
    TailReads("'" + ['\\'], rest);
    ReadsAfter("'", '\\', [], tail);
    assert [Code('\\')] + [] == [Code('\\')] && "" + ['\''] == "'" && ['\\'] + "" == "\\";
    ReadsAfter("", '\'', [Code('\\')], tail);
    var tokens := [Code('\'')] + [Code('\\')];
    assert ['\''] + (['\\'] + ("\"'" + rest)) == "'\\\"'" + rest;
    assert CodeText(tokens) == ['\''] + "\\" == "'\\";
    StrippedIsCode("", tokens, tail);
  }

  lemma TailReads(before: string, rest: string)
    requires '"' !in rest && '\\' !in rest
    ensures StripReads(before, [], OpenStr(PlainItems("'" + rest), false)) && CodeText([]) == ""
    ensures Render([], OpenStr(PlainItems("'" + rest), false)) == "\"'" + rest
  {
    ItemsOfText("'" + rest);
  }

  lemma ReadsAfter(before: string, c: char, tokens: seq<Token>, tail: Tail)
    requires c == '\'' || c == '\\'
    requires StripReads(before + [c], tokens, tail)
    ensures StripReads(before, [Code(c)] + tokens, tail)
    ensures Render([Code(c)] + tokens, tail) == [c] + Render(tokens, tail)
    ensures CodeText([Code(c)] + tokens) == [c] + CodeText(tokens)
  {
    assert ([Code(c)] + tokens)[1..] == tokens;
  }

  // ----- What starts a raw string

  /** A byte of an ASCII identifier, by its code. */
  predicate IdentCode(code: int) {
    48 <= code <= 57 || 65 <= code <= 90 || code == 95 || 97 <= code <= 122
  }

  lemma RawAlone(before: string, content: string)
    requires '"' !in content && PrefixStarts(before)
    ensures Stripped(before, "r\"" + content + "\"") == ""
  {
    hide Stripped, HashRun, PrefixStarts;
    var tokens := [Raw(0, content)];
    assert tokens[1..] == [] && CodeText([]) == "";
    assert "r" + Hashes(0) + "\"" + content + "\"" + Hashes(0) == "r\"" + content + "\"";
    assert Render(tokens, Nothing) == "r\"" + content + "\"";
    StrippedIsCode(before, tokens, Nothing);
  }

  lemma StringAlone(before: string, content: string)
    requires '"' !in content && '\\' !in content
    ensures Stripped(before, "\"" + content + "\"") == ""
  {
    hide Stripped;
    var tokens := [Str(PlainItems(content))];
    ItemsOfText(content);
    assert tokens[1..] == [] && CodeText([]) == "";
    assert Render(tokens, Nothing) == "\"" + content + "\"";
    StrippedIsCode(before, tokens, Nothing);
  }

  /**
   A string after `r` or `br` is raw and takes its `r` with it, but the `r` that ends an identifier stays: of `r".."`
   nothing is left, of `br".."` the `b`, and of another byte, `r` and a string the byte, and the `r` as well exactly
   when the byte belongs to an identifier.
   */
  lemma RawPrefixes(c: char, content: string)
    requires '"' !in content && '\\' !in content && c !in ['"', '/', 'b']
    ensures Stripped("", "r\"" + content + "\"") == ""
    ensures Stripped("", "br\"" + content + "\"") == "b"
    ensures Stripped("", [c] + "r\"" + content + "\"") == [c] + if IdentCode(c as int) then "r" else ""
  {
    hide Stripped, PrefixStarts;
    PrefixesAre(c);
    RawAlone("", content);
    ByteThenRaw('b', content);
    assert "br\"" + content + "\"" == ['b'] + "r\"" + content + "\"" && ['b'] + "" == "b";
    if IdentCode(c as int) {
      ByteThenString(c, content);
    } else {
      ByteThenRaw(c, content);
    }
  }

  lemma ByteThenRaw(c: char, content: string)
    requires '"' !in content && c != '"' && c != '/' && c != 'r' && PrefixStarts([c])
    ensures Stripped("", [c] + "r\"" + content + "\"") == [c] + ""
  {
    hide Stripped, PrefixStarts;
    RawAlone([c], content);
    OneKept("", c, "r\"" + content + "\"");
    assert [c] + ("r\"" + content + "\"") == [c] + "r\"" + content + "\"" && "" + [c] == [c];
  }

  lemma ByteThenString(c: char, content: string)
    requires '"' !in content && '\\' !in content && c != '"' && c != '/' && !PrefixStarts([c])
    ensures Stripped("", [c] + "r\"" + content + "\"") == [c] + "r"
  {
    hide Stripped, PrefixStarts, OpensRaw;
    var s := "\"" + content + "\"";
    StringAlone([c, 'r'], content);
    assert "r" + s == "r\"" + content + "\"" && [c] + ("r" + s) == [c] + "r\"" + content + "\"";
    NotRawHere(s);
    OneKept([c], 'r', s);
    OneKept("", c, "r" + s);
    assert [c] + ['r'] == [c, 'r'] && "" + [c] == [c] && "r" + "" == "r";
  }

  lemma NotRawHere(s: string)
    requires s != "" && s[0] == '"'
    ensures !OpensRaw("r" + s)
  {
    assert HashRun("r" + s) == 0;
  }

  lemma PrefixesAre(c: char)
    requires c != 'b'
    ensures PrefixStarts("") && PrefixStarts("b") && (PrefixStarts([c]) <==> !IdentCode(c as int))
  {
  }

  lemma OneKept(before: string, c: char, rest: string)
    requires c != '"' && c != '/' && (c == 'r' ==> !PrefixStarts(before) || !OpensRaw(rest))
    ensures Stripped(before, [c] + rest) == [c] + Stripped(before + [c], rest)
  {
    hide StepWidth, IsKept, OpensRaw, PrefixStarts;
    CodeStep(before, c, rest);
    assert ([c] + rest)[..1] == [c] && ([c] + rest)[1..] == rest;
  }

  function PlainItems(s: string): seq<StrItem> {
    seq(|s|, i requires 0 <= i < |s| => Plain(s[i]))
  }

  lemma {:induction false} ItemsOfText(s: string)
    ensures ItemsText(PlainItems(s)) == s
  {
    if s != "" {
      ItemsOfText(s[1..]);
      assert PlainItems(s)[1..] == PlainItems(s[1..]);
      assert s == [s[0]] + s[1..];
    }
  }
}
