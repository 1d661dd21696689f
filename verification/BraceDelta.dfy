/** The brace-depth scanner of the expansion report, against a line's tokens. */
module BraceDelta {
  import opened Wrappers
  import opened RustLine

  // ----- What the scanner's skips come to, on the text from where they start

  /** After an opening quote: how far the ordinary string reaches. */
  function StringEnd(s: string): nat
    decreases |s|
  {
    if s == "" then 0
    else if s[0] == '\\' then 2 + StringEnd(Drop(s, 2))
    else if s[0] == '"' then 1
    else 1 + StringEnd(s[1..])
  }

  /** After a raw string's opening quote: how far it reaches. */
  function RawEnd(s: string, hashes: nat): nat {
    if s == "" then 0
    else if s[0] == '"' && HashRun(s[1..]) >= hashes then 1 + hashes
    else 1 + RawEnd(s[1..], hashes)
  }

  /** From an `r`: past a raw string, if one opens. */
  function RawSkip(s: string): (r: Option<nat>)
    requires s != ""
    ensures r.Some? ==> r.value > 0
  {
    var hashes := HashRun(s[1..]);
    if OpensRaw(s[1..]) then Some(2 + hashes + RawEnd(s[2 + hashes..], hashes)) else None
  }

  function FindQuote(s: string): (n: nat)
    ensures n <= |s|
  {
    if s == "" || s[0] == '\'' then 0 else 1 + FindQuote(s[1..])
  }

  /** From an apostrophe: past a character literal, or past the apostrophe alone. */
  function QuoteSkip(s: string): (n: nat)
    requires s != ""
    ensures n > 0
  {
    if |s| > 1 && s[1] == '\\' then 3 + FindQuote(s[2..])
    else if |s| > 2 && s[2] == '\'' then 3
    else 1
  }

  predicate AtComment(s: string) {
    |s| > 1 && s[0] == '/' && s[1] == '/'
  }

  predicate AtRaw(s: string) {
    |s| > 1 && s[0] == 'r' && (s[1] == '"' || s[1] == '#') && RawSkip(s).Some?
  }

  /** How far one turn of the scanner moves: a comment ends the line. */
  function Width(s: string): (n: nat)
    requires s != ""
    ensures n > 0
  {
    if AtComment(s) then |s|
    else if AtRaw(s) then RawSkip(s).value
    else if s[0] == '"' then 1 + StringEnd(s[1..])
    else if s[0] == '\'' then QuoteSkip(s)
    else 1
  }

  function Change(s: string): int
    requires s != ""
  {
    if s[0] == '{' then 1 else if s[0] == '}' then -1 else 0
  }

  /** The net brace depth of a line's remaining text. */
  function Delta(s: string): int
    decreases |s|
  {
    if s == "" then 0 else Change(s) + Delta(Drop(s, Width(s)))
  }

  // ----- The scanner

  lemma StringEndStep(chars: string, index: nat)
    ensures StringEnd(Drop(chars, index)) ==
            if index >= |chars| then 0
            else if chars[index] == '\\' then 2 + StringEnd(Drop(chars, index + 2))
            else if chars[index] == '"' then 1
            else 1 + StringEnd(Drop(chars, index + 1))
    ensures index <= |chars| ==> Drop(chars, index) == chars[index..]
  {
    if index < |chars| {
      var s := chars[index..];
      assert s[1..] == Drop(chars, index + 1);
      DropTwice(chars, index, 2);
    }
  }

  method SkipString(chars: string, start: nat) returns (end: nat)
    requires start < |chars|
    ensures end == start + 1 + StringEnd(chars[start + 1..])
  {
    hide StringEnd, Drop;
    var index := start + 1;
    StringEndStep(chars, index);
    while index < |chars|
      invariant start < index <= |chars| + 1
      invariant start + 1 + StringEnd(chars[start + 1..]) == index + StringEnd(Drop(chars, index))
    {
      StringEndStep(chars, index);
      if chars[index] == '\\' {
        index := index + 2;
      } else if chars[index] == '"' {
        return index + 1;
      } else {
        index := index + 1;
      }
    }
    StringEndStep(chars, index);
    return index;
  }

  method CountHashes(chars: string, from: nat) returns (n: nat)
    requires from <= |chars|
    ensures n == HashRun(chars[from..])
  {
    n := 0;
    while from + n < |chars| && chars[from + n] == '#'
      invariant from + n <= |chars|
      invariant HashRun(chars[from..]) == n + HashRun(chars[from + n..])
    {
      assert chars[from + n..][1..] == chars[from + n + 1..];
      n := n + 1;
    }
  }

  method SkipRawString(chars: string, start: nat) returns (end: Option<nat>)
    requires start < |chars|
    ensures end == match RawSkip(chars[start..]) { case None => None case Some(n) => Some(start + n) }
  {
    hide HashRun, RawEnd;
    var hashes := CountHashes(chars, start + 1);
    var index := start + 1 + hashes;
    assert chars[start..][1..] == chars[start + 1..];
    if index >= |chars| || chars[index] != '"' {
      return None;
    }
    index := index + 1;
    ghost var from := index;
    assert chars[start..][2 + hashes..] == chars[from..];
    while index < |chars|
      invariant from <= index <= |chars|
      invariant from + RawEnd(chars[from..], hashes) == index + RawEnd(chars[index..], hashes)
    {
      RawEndStep(chars, index, hashes);
      if chars[index] == '"' {
        var closing := CountHashes(chars, index + 1);
        if closing >= hashes {
          return Some(index + 1 + hashes);
        }
      }
      index := index + 1;
    }
    RawEndNothing(chars, hashes);
    return Some(index);
  }

  lemma RawEndStep(chars: string, index: nat, hashes: nat)
    requires index < |chars|
    ensures RawEnd(chars[index..], hashes) ==
            if chars[index] == '"' && HashRun(chars[index + 1..]) >= hashes then 1 + hashes
            else 1 + RawEnd(chars[index + 1..], hashes)
  {
    hide HashRun;
    assert chars[index..][1..] == chars[index + 1..];
  }

  lemma RawEndNothing(chars: string, hashes: nat)
    ensures RawEnd(chars[|chars|..], hashes) == 0
  {
  }

  method SkipCharOrLifetime(chars: string, start: nat) returns (end: nat)
    requires start < |chars|
    ensures end == start + QuoteSkip(chars[start..])
  {
    var next := if start + 1 < |chars| then Some(chars[start + 1]) else None;
    var after := if start + 2 < |chars| then Some(chars[start + 2]) else None;
    if next == Some('\\') {
      var index := start + 2;
      assert chars[start..][2..] == chars[start + 2..];
      while index < |chars| && chars[index] != '\''
        invariant start + 2 <= index <= |chars|
        invariant start + 2 + FindQuote(chars[start + 2..]) == index + FindQuote(chars[index..])
      {
        index := index + 1;
      }
      return index + 1;
    } else if next.Some? && after == Some('\'') {
      return start + 3;
    } else {
      return start + 1;
    }
  }

  /** `brace_delta`: an index moved over literals, stopping at a comment. */
  method Scan(line: string) returns (delta: int)
    ensures delta == Delta(line)
  {
    hide StringEnd, RawSkip, QuoteSkip, Delta, Drop;
    delta := 0;
    var index := 0;
    DeltaAtEnds(line);
    while index < |line|
      invariant delta + Delta(Drop(line, index)) == Delta(line)
      decreases |line| - index
    {
      var c := line[index];
      ghost var rest := line[index..];
      DeltaAt(line, index);
      if c == '/' && index + 1 < |line| && line[index + 1] == '/' {
        DeltaPastEnd(line, index + |rest|);
        return;
      }
      if c == '{' {
        delta := delta + 1;
      } else if c == '}' {
        delta := delta - 1;
      } else if c == 'r' && index + 1 < |line| && (line[index + 1] == '"' || line[index + 1] == '#') {
        var next := SkipRawString(line, index);
        if next.Some? {
          index := next.value;
          continue;
        }
      } else if c == '"' {
        assert rest[1..] == line[index + 1..];
        index := SkipString(line, index);
        continue;
      } else if c == '\'' {
        index := SkipCharOrLifetime(line, index);
        continue;
      }
      index := index + 1;
    }
    DeltaPastEnd(line, index);
  }

  lemma DeltaAtEnds(line: string)
    ensures Delta(Drop(line, 0)) == Delta(line)
  {
  }

  lemma DeltaPastEnd(line: string, index: nat)
    requires index >= |line|
    ensures Delta(Drop(line, index)) == 0
  {
  }

  lemma DeltaAt(line: string, index: nat)
    requires index < |line|
    ensures Delta(Drop(line, index)) == Change(line[index..]) + Delta(Drop(line, index + Width(line[index..])))
  {
    hide Width, Change;
    DropTwice(line, index, Width(line[index..]));
  }

  // ----- Tokens

  /** After a lone apostrophe the scanner goes on with the next character, not past a literal. */
  predicate Resyncs(rest: string) {
    !(|rest| > 0 && rest[0] == '\\') && !(|rest| > 1 && rest[1] == '\'')
  }

  /** The token is what Rust reads there, given the text after it. */
  ghost predicate Fits(t: Token, rest: string) {
    match t
    case Code(c) =>
      && c != '"' && c != '\''
      && !(c == '/' && rest != "" && rest[0] == '/')
      && !(c == 'r' && OpensRaw(rest))
    case Str(items) => ValidItems(items)
    case Raw(hashes, content) => NeverCloses(content, hashes)
    case CharLit(c) => c != '\\'
    case WideLit(_) => false
    case EscapedChar(body) => body != "" && '\'' !in body
    case QuoteChar => Resyncs(rest)
    case Apostrophe => Resyncs(rest)
  }

  ghost predicate Reads(tokens: seq<Token>, tail: Tail) {
    if tokens == [] then tail.Valid() else Fits(tokens[0], Render(tokens[1..], tail)) && Reads(tokens[1..], tail)
  }

  function Weight(t: Token): int {
    if t == Code('{') then 1 else if t == Code('}') then -1 else 0
  }

  /** Opening minus closing braces among the code tokens. */
  function Net(tokens: seq<Token>): int {
    if tokens == [] then 0 else Weight(tokens[0]) + Net(tokens[1..])
  }

  lemma StringItem(item: StrItem, rest: string)
    requires item.Valid()
    ensures StringEnd(item.Text() + rest) == |item.Text()| + StringEnd(rest)
  {
    var s := item.Text() + rest;
    assert item.Plain? ==> s[1..] == rest;
    assert item.Escaped? ==> Drop(s, 2) == rest;
  }

  lemma {:induction false} StringEndOf(items: seq<StrItem>, rest: string)
    requires ValidItems(items)
    ensures StringEnd(ItemsText(items) + rest) == |ItemsText(items)| + StringEnd(rest)
    decreases |items|
  {
    hide StringEnd;
    if items == [] {
      assert ItemsText(items) + rest == rest;
    } else {
      var more := ItemsText(items[1..]) + rest;
      assert ItemsText(items) + rest == items[0].Text() + more;
      assert items[0].Valid();
      StringEndOf(items[1..], rest);
      StringItem(items[0], more);
    }
  }

  lemma {:induction false} RawEndOf(content: string, hashes: nat, rest: string)
    requires NeverCloses(content, hashes)
    ensures RawEnd(content + "\"" + Hashes(hashes) + rest, hashes) == |content| + 1 + hashes
  {
    var s := content + "\"" + Hashes(hashes) + rest;
    if content == "" {
      assert s[1..] == Hashes(hashes) + rest;
      HashRunOf(hashes, rest);
    } else {
      var inner := content[1..];
      var more := inner + "\"" + Hashes(hashes) + rest;
      assert s[1..] == more;
      NeverClosesInside(content, hashes);
      RawEndOf(inner, hashes, rest);
      if content[0] == '"' {
        HashRunInside(inner, "\"" + Hashes(hashes) + rest);
        assert more == inner + ("\"" + Hashes(hashes) + rest);
      }
    }
  }

  lemma {:induction false} OpenRawEnd(content: string, hashes: nat)
    requires NeverCloses(content, hashes)
    ensures RawEnd(content, hashes) == |content|
  {
    if content != "" {
      NeverClosesInside(content, hashes);
      OpenRawEnd(content[1..], hashes);
    }
  }

  lemma NeverClosesInside(content: string, hashes: nat)
    requires content != "" && NeverCloses(content, hashes)
    ensures NeverCloses(content[1..], hashes)
  {
    var inner := content[1..];
    forall i | 0 <= i < |inner| && inner[i] == '"' ensures HashRun(inner[i + 1..]) < hashes {
      assert content[i + 1] == '"';
      assert inner[i + 1..] == content[i + 2..];
    }
  }

  /** A run of hashes does not reach past a following character that is none. */
  lemma {:induction false} HashRunInside(s: string, rest: string)
    requires rest != "" && rest[0] != '#'
    ensures HashRun(s + rest) == HashRun(s)
  {
    if s == "" {
      assert s + rest == rest;
    } else {
      assert (s + rest)[1..] == s[1..] + rest;
      HashRunInside(s[1..], rest);
    }
  }

  lemma {:induction false} FindQuoteOf(body: string, rest: string)
    requires '\'' !in body
    ensures rest == "" ==> FindQuote(body + rest) == |body|
    ensures rest != "" && rest[0] == '\'' ==> FindQuote(body + rest) == |body|
  {
    if body == "" {
      assert body + rest == rest;
    } else {
      assert (body + rest)[1..] == body[1..] + rest;
      FindQuoteOf(body[1..], rest);
    }
  }

  lemma RawSkipOf(hashes: nat, content: string, rest: string)
    requires NeverCloses(content, hashes)
    ensures var t := Raw(hashes, content).Text();
            AtRaw(t + rest) && RawSkip(t + rest) == Some(|t|)
  {
    hide RawEnd, HashRun, NeverCloses;
    var t := Raw(hashes, content).Text();
    var s := t + rest;
    var fromQuote := "\"" + content + "\"" + Hashes(hashes) + rest;
    assert s[1..] == Hashes(hashes) + fromQuote;
    HashRunOf(hashes, fromQuote);
    assert s[1 + hashes] == '"';
    assert s[2 + hashes..] == content + "\"" + Hashes(hashes) + rest;
    RawEndOf(content, hashes, rest);
    assert s[1] == (if hashes == 0 then '"' else '#');
  }

  lemma OpenRawSkip(hashes: nat, content: string)
    requires NeverCloses(content, hashes)
    ensures var t := OpenRaw(hashes, content).Text(); AtRaw(t) && RawSkip(t) == Some(|t|)
  {
    var s := OpenRaw(hashes, content).Text();
    var fromQuote := "\"" + content;
    assert s[1..] == Hashes(hashes) + fromQuote;
    HashRunOf(hashes, fromQuote);
    assert s[1 + hashes] == '"';
    assert s[2 + hashes..] == content;
    OpenRawEnd(content, hashes);
    assert s[1] == (if hashes == 0 then '"' else '#');
  }

  lemma CodeWidth(c: char, rest: string)
    requires Fits(Code(c), rest)
    ensures Width([c] + rest) == 1
  {
    hide StringEnd, RawEnd, QuoteSkip;
    assert ([c] + rest)[1..] == rest;
  }

  lemma StrWidth(items: seq<StrItem>, rest: string)
    requires ValidItems(items)
    ensures Width("\"" + ItemsText(items) + "\"" + rest) == |ItemsText(items)| + 2
  {
    hide RawSkip, QuoteSkip;
    var s := "\"" + ItemsText(items) + "\"" + rest;
    assert s[1..] == ItemsText(items) + ("\"" + rest);
    StringEndOf(items, "\"" + rest);
  }

  lemma EscapedWidth(body: string, rest: string)
    requires '\'' !in body
    ensures Width("'\\" + body + "'" + rest) == |body| + 3
  {
    hide RawSkip, StringEnd;
    var s := "'\\" + body + "'" + rest;
    assert s[2..] == body + ("'" + rest);
    FindQuoteOf(body, "'" + rest);
  }

  lemma LiteralWidth(c: char, rest: string)
    ensures c != '\\' ==> Width(['\'', c, '\''] + rest) == 3
    ensures Resyncs(rest) <==> QuoteSkip("'" + rest) == 1
    ensures Width("'" + rest) == QuoteSkip("'" + rest)
  {
    hide RawSkip, StringEnd;
    assert ("'" + rest)[1..] == rest;
  }

  /** One turn of the scanner passes exactly one token, except that the quote literal takes two. */
  lemma TokenWidth(t: Token, rest: string)
    requires Fits(t, rest) && t != QuoteChar
    ensures Width(t.Text() + rest) == |t.Text()|
  {
    hide Width, RawSkip, QuoteSkip, NeverCloses, OpensRaw;
    match t
    case Code(c) => CodeWidth(c, rest);
    case Str(items) => StrWidth(items, rest);
    case Raw(hashes, content) =>
      RawSkipOf(hashes, content, rest);
      RawWidth(t.Text() + rest);
    case CharLit(c) => LiteralWidth(c, rest);
    case EscapedChar(body) => EscapedWidth(body, rest);
    case Apostrophe => LiteralWidth('a', rest);
  }

  lemma RawWidth(s: string)
    requires AtRaw(s)
    ensures Width(s) == RawSkip(s).value
  {
    hide RawSkip;
  }

  lemma TokenChange(t: Token, rest: string)
    ensures Change(t.Text() + rest) == Weight(t)
  {
  }

  /** The scanner resumes right after the quote literal exactly when the text after it is not taken for a literal. */
  lemma QuoteCharResyncs(rest: string)
    ensures Width("'\\''" + rest) == 3
    ensures QuoteSkip("'" + rest) == 1 <==> Resyncs(rest)
  {
    EscapedWidth("", "'" + rest);
    assert "'\\" + "" + "'" + ("'" + rest) == "'\\''" + rest;
    LiteralWidth('a', rest);
  }

  lemma TokenScanned(t: Token, rest: string)
    requires Fits(t, rest)
    ensures Delta(t.Text() + rest) == Weight(t) + Delta(rest)
  {
    hide Width, Change;
    var s := t.Text() + rest;
    TokenChange(t, rest);
    if t == QuoteChar {
      QuoteCharResyncs(rest);
      assert Drop(s, 3) == "'" + rest;
      assert Apostrophe.Text() + rest == "'" + rest;
      TokenWidth(Apostrophe, rest);
      TokenChange(Apostrophe, rest);
      assert Drop("'" + rest, 1) == rest;
    } else {
      TokenWidth(t, rest);
      assert Drop(s, |t.Text()|) == rest;
    }
  }

  lemma OpenStrScanned(items: seq<StrItem>, backslash: bool)
    requires ValidItems(items)
    ensures Delta(OpenStr(items, backslash).Text()) == 0
  {
    hide RawSkip, QuoteSkip;
    var rest := if backslash then "\\" else "";
    var s := OpenStr(items, backslash).Text();
    assert s[1..] == ItemsText(items) + rest;
    StringEndOf(items, rest);
    assert StringEnd(rest) >= |rest|;
    assert Width(s) >= |s|;
  }

  lemma TailScanned(tail: Tail)
    requires tail.Valid()
    ensures Delta(tail.Text()) == 0
  {
    var s := tail.Text();
    match tail
    case Nothing =>
    case Comment(_) =>
      assert AtComment(s);
    case OpenStr(items, backslash) =>
      OpenStrScanned(items, backslash);
    case OpenRaw(hashes, content) =>
      OpenRawSkip(hashes, content);
    case OpenEscape(body) =>
      assert s[2..] == body + "";
      FindQuoteOf(body, "");
  }

  /** For every line that reads as tokens, the scanner's answer is their net braces. */
  lemma {:induction false} DeltaIsNet(tokens: seq<Token>, tail: Tail)
    requires Reads(tokens, tail)
    ensures Delta(Render(tokens, tail)) == Net(tokens)
  {
    hide Delta, Fits;
    if tokens == [] {
      TailScanned(tail);
    } else {
      TokenScanned(tokens[0], Render(tokens[1..], tail));
      DeltaIsNet(tokens[1..], tail);
    }
  }

  /** A line as Rust reads these tokens, quote literals out of step included. */
  ghost predicate ReadsAnyway(tokens: seq<Token>, tail: Tail) {
    if tokens == [] then tail.Valid()
    else (tokens[0] == QuoteChar || Fits(tokens[0], Render(tokens[1..], tail))) && ReadsAnyway(tokens[1..], tail)
  }

  lemma QuoteCharScanned(rest: string)
    ensures Delta(QuoteChar.Text() + rest) == Delta("'" + rest)
  {
    hide Width, Change;
    var s := QuoteChar.Text() + rest;
    QuoteCharResyncs(rest);
    TokenChange(QuoteChar, rest);
    DeltaTurn(s);
    assert Drop(s, 3) == "'" + rest;
  }

  // ----- The scanner's own reading

  /** The token as the scanner takes it: an escape ends at the first quote, even right after its backslash. */
  ghost predicate ScanFits(t: Token, rest: string) {
    match t
    case EscapedChar(body) => '\'' !in body
    case QuoteChar => false
    case _ => Fits(t, rest)
  }

  ghost predicate ScanReads(tokens: seq<Token>, tail: Tail) {
    if tokens == [] then tail.Valid() else ScanFits(tokens[0], Render(tokens[1..], tail)) && ScanReads(tokens[1..], tail)
  }

  lemma ScanTokenScanned(t: Token, rest: string)
    requires ScanFits(t, rest)
    ensures Delta(t.Text() + rest) == Weight(t) + Delta(rest)
  {
    if t.EscapedChar? {
      hide Width, Change;
      var s := t.Text() + rest;
      EscapedWidth(t.body, rest);
      TokenChange(t, rest);
      DeltaTurn(s);
      assert Drop(s, |t.Text()|) == rest;
    } else {
      TokenScanned(t, rest);
    }
  }

  /** The answer is the net braces of the scanner's reading. */
  lemma {:induction false} ScanIsNet(tokens: seq<Token>, tail: Tail)
    requires ScanReads(tokens, tail)
    ensures Delta(Render(tokens, tail)) == Net(tokens)
  {
    hide Delta, ScanFits;
    if tokens == [] {
      TailScanned(tail);
    } else {
      ScanTokenScanned(tokens[0], Render(tokens[1..], tail));
      ScanIsNet(tokens[1..], tail);
    }
  }

  /** For a line that Rust reads as one sequence of tokens and the scanner as another, the answer is right exactly when both have the same net braces. */
  lemma RightExactly(rust: seq<Token>, tail: Tail, scan: seq<Token>, scanTail: Tail)
    requires ReadsAnyway(rust, tail) && ScanReads(scan, scanTail) && Render(rust, tail) == Render(scan, scanTail)
    ensures Delta(Render(rust, tail)) == Net(scan)
    ensures Delta(Render(rust, tail)) == Net(rust) <==> Net(scan) == Net(rust)
  {
    hide Delta;
    ScanIsNet(scan, scanTail);
  }

  /** The line `['\'','c']`. */
  function Listed(c: char): string {
    "['\\'','" + [c, '\'', ']']
  }

  /** Out of step, the character of the next literal is taken for code: the answer is wrong exactly for a brace. */
  lemma QuoteLiteralMiscounts(c: char)
    requires c != '"' && c != '\'' && c != '\\'
    ensures var tokens := [Code('['), QuoteChar, Code(','), CharLit(c), Code(']')];
            && Render(tokens, Nothing) == Listed(c) && ReadsAnyway(tokens, Nothing)
            && Net(tokens) == 0
            && Delta(Listed(c)) == Weight(Code(c))
    ensures Delta(Listed('{')) == 1
  {
    hide Delta;
    MiscountReading(c);
    MiscountDelta(c);
    MiscountDelta('{');
  }

  lemma MiscountReading(c: char)
    requires c != '\\'
    ensures var tokens := [Code('['), QuoteChar, Code(','), CharLit(c), Code(']')];
            Render(tokens, Nothing) == Listed(c) && Net(tokens) == 0 && ReadsAnyway(tokens, Nothing)
  {
    hide Render, Net, ReadsAnyway;
    ReadsNothing();
    ReadsCons([Code(']')], [], Nothing);
    ReadsCons([CharLit(c), Code(']')], [Code(']')], Nothing);
    ReadsCons([Code(','), CharLit(c), Code(']')], [CharLit(c), Code(']')], Nothing);
    ReadsCons([QuoteChar, Code(','), CharLit(c), Code(']')], [Code(','), CharLit(c), Code(']')], Nothing);
    ReadsCons([Code('['), QuoteChar, Code(','), CharLit(c), Code(']')],
              [QuoteChar, Code(','), CharLit(c), Code(']')], Nothing);
  }

  lemma ReadsNothing()
    ensures Render([], Nothing) == "" && Net([]) == 0 && ReadsAnyway([], Nothing)
  {
  }

  lemma ReadsCons(tokens: seq<Token>, rest: seq<Token>, tail: Tail)
    requires tokens != [] && tokens[1..] == rest && ReadsAnyway(rest, tail)
    requires tokens[0] == QuoteChar || Fits(tokens[0], Render(rest, tail))
    ensures Render(tokens, tail) == tokens[0].Text() + Render(rest, tail)
    ensures Net(tokens) == Weight(tokens[0]) + Net(rest) && ReadsAnyway(tokens, tail)
  {
  }

  /** The scanner's own reading of the text from the literal's closing quote on: `','`, then the character. */
  lemma MisreadDelta(c: char)
    requires c != '"' && c != '\''
    ensures Delta("','" + [c, '\'', ']']) == Weight(Code(c))
  {
    hide Delta;
    var rest := [c, '\'', ']'];
    TokenScanned(CharLit(','), rest);
    assert CharLit(',').Text() + rest == "','" + rest;
    TokenScanned(Code(c), "']");
    assert Code(c).Text() + "']" == rest;
    TokenScanned(Apostrophe, "]");
    assert Apostrophe.Text() + "]" == "']";
    TokenScanned(Code(']'), "");
    assert Code(']').Text() + "" == "]";
    TailScanned(Nothing);
  }

  lemma MiscountDelta(c: char)
    requires c != '"' && c != '\''
    ensures Delta(Listed(c)) == Weight(Code(c))
  {
    hide Width, Delta, Change;
    var rest := ",'" + [c, '\'', ']'];
    QuoteCharScanned(rest);
    assert "'" + rest == "','" + [c, '\'', ']'];
    MisreadDelta(c);
    TokenScanned(Code('['), QuoteChar.Text() + rest);
    assert Code('[').Text() + (QuoteChar.Text() + rest) == Listed(c);
  }

  lemma DeltaTurn(s: string)
    requires s != ""
    ensures Delta(s) == Change(s) + Delta(Drop(s, Width(s)))
  {
  }

  // ----- Every line has a reading

  /** No backslash directly between two apostrophes. */
  ghost predicate NoQuoteLiteral(s: string) {
    forall i | 0 <= i < |s| - 2 :: !(s[i] == '\'' && s[i + 1] == '\\' && s[i + 2] == '\'')
  }

  lemma {:induction false} ReadItems(s: string) returns (items: seq<StrItem>, closed: bool, backslash: bool, after: string)
    ensures ValidItems(items)
    ensures closed ==> s == ItemsText(items) + "\"" + after
    ensures !closed ==> s == ItemsText(items) + (if backslash then "\\" else "")
    decreases |s|
  {
    if s == "" {
      items, closed, backslash, after := [], false, false, "";
    } else if s == "\\" {
      items, closed, backslash, after := [], false, true, "";
    } else if s[0] == '"' {
      items, closed, backslash, after := [], true, false, s[1..];
    } else {
      var first := if s[0] == '\\' then Escaped(s[1]) else Plain(s[0]);
      var n := |first.Text()|;
      items, closed, backslash, after := ReadItems(s[n..]);
      assert s == first.Text() + s[n..];
      ItemsTextCons(first, items);
      items := [first] + items;
    }
  }

  lemma ItemsTextCons(first: StrItem, items: seq<StrItem>)
    requires first.Valid() && ValidItems(items)
    ensures ItemsText([first] + items) == first.Text() + ItemsText(items) && ValidItems([first] + items)
  {
    assert ([first] + items)[1..] == items;
  }

  lemma {:induction false} ReadRaw(s: string, hashes: nat) returns (content: string, closed: bool, after: string)
    ensures NeverCloses(content, hashes)
    ensures s == if closed then content + "\"" + Hashes(hashes) + after else content
    decreases |s|
  {
    if s == "" {
      content, closed, after := "", false, "";
    } else if s[0] == '"' && HashRun(s[1..]) >= hashes {
      content, closed, after := "", true, s[1 + hashes..];
      assert s[1..1 + hashes] == Hashes(hashes);
    } else {
      hide HashRun, NeverCloses;
      content, closed, after := ReadRaw(s[1..], hashes);
      NeverClosesCons(s, content, hashes, if closed then "\"" + Hashes(hashes) + after else "");
      content := [s[0]] + content;
    }
  }

  lemma NeverClosesCons(s: string, content: string, hashes: nat, rest: string)
    requires s != "" && s[1..] == content + rest && NeverCloses(content, hashes)
    requires rest == "" || rest[0] == '"'
    requires s[0] == '"' ==> HashRun(s[1..]) < hashes
    ensures NeverCloses([s[0]] + content, hashes)
  {
    var longer := [s[0]] + content;
    if rest == "" {
      assert content + rest == content;
    } else {
      HashRunInside(content, rest);
    }
    forall i | 0 <= i < |longer| && longer[i] == '"' ensures HashRun(longer[i + 1..]) < hashes {
      assert i > 0 ==> longer[i + 1..] == content[i..] && content[i - 1] == '"';
      assert longer[1..] == content;
    }
  }

  /** A character that no literal and no comment starts at. */
  lemma PlainFits(s: string)
    requires s != "" && !AtComment(s) && !AtRaw(s) && s[0] != '"' && s[0] != '\''
    ensures Fits(Code(s[0]), s[1..])
  {
    hide RawEnd;
  }

  /** The first token of a line as the scanner takes it, or its tail. */
  lemma ReadToken(s: string) returns (t: Option<Token>, tail: Tail, rest: string)
    requires s != ""
    ensures t.Some? ==> s == t.value.Text() + rest && ScanFits(t.value, rest) && |rest| < |s|
    ensures t.None? ==> tail.Valid() && s == tail.Text()
  {
    tail, rest := Nothing, "";
    if AtComment(s) {
      t, tail := None, Comment(s[2..]);
      assert s == "//" + s[2..];
    } else if AtRaw(s) {
      t, tail, rest := ReadRawToken(s);
    } else if s[0] == '"' {
      var items, closed, backslash, after := ReadItems(s[1..]);
      assert s == "\"" + s[1..];
      t, tail, rest := if closed then Some(Str(items)) else None, OpenStr(items, backslash), after;
    } else if s[0] == '\'' {
      t, tail, rest := ReadApostrophe(s);
    } else {
      PlainFits(s);
      t, rest := Some(Code(s[0])), s[1..];
      assert s == [s[0]] + s[1..];
    }
  }

  lemma ReadRawToken(s: string) returns (t: Option<Token>, tail: Tail, rest: string)
    requires AtRaw(s)
    ensures t.Some? ==> s == t.value.Text() + rest && ScanFits(t.value, rest) && |rest| < |s|
    ensures t.None? ==> tail.Valid() && s == tail.Text()
  {
    hide AtRaw, NeverCloses, HashRun;
    var hashes, inside := RawPrefix(s);
    var content, closed, after := ReadRaw(inside, hashes);
    t, tail, rest := if closed then Some(Raw(hashes, content)) else None, OpenRaw(hashes, content), after;
    if closed {
      assert s == Raw(hashes, content).Text() + after;
    }
  }

  lemma RawPrefix(s: string) returns (hashes: nat, inside: string)
    requires AtRaw(s)
    ensures s == "r" + Hashes(hashes) + "\"" + inside
  {
    hide RawEnd;
    hashes := HashRun(s[1..]);
    inside := s[2 + hashes..];
    assert s[1..1 + hashes] == Hashes(hashes);
  }

  lemma ReadApostrophe(s: string) returns (t: Option<Token>, tail: Tail, rest: string)
    requires s != "" && s[0] == '\''
    ensures t.Some? ==> s == t.value.Text() + rest && ScanFits(t.value, rest) && |rest| < |s|
    ensures t.None? ==> tail.Valid() && s == tail.Text()
  {
    tail, rest := Nothing, "";
    if |s| > 1 && s[1] == '\\' {
      var k := FindQuote(s[2..]);
      FindQuoteFirst(s[2..]);
      var body := s[2..][..k];
      if k == |s| - 2 {
        t, tail := None, OpenEscape(body);
        assert s == "'\\" + body;
      } else {
        t, rest := Some(EscapedChar(body)), s[3 + k..];
        assert s == "'\\" + body + "'" + rest;
      }
    } else if |s| > 2 && s[2] == '\'' {
      t, rest := Some(CharLit(s[1])), s[3..];
      assert s == ['\'', s[1], '\''] + rest;
    } else {
      t, rest := Some(Apostrophe), s[1..];
      assert s == "'" + rest;
    }
  }

  lemma {:induction false} FindQuoteFirst(s: string)
    ensures FindQuote(s) < |s| ==> s[FindQuote(s)] == '\''
    ensures '\'' !in s[..FindQuote(s)]
  {
    if s != "" && s[0] != '\'' {
      FindQuoteFirst(s[1..]);
      assert s[..FindQuote(s)] == [s[0]] + s[1..][..FindQuote(s[1..])];
    }
  }

  /** Every line at all has a reading of the scanner's, and the answer is its net braces. */
  lemma {:induction false} EveryLineScans(line: string) returns (tokens: seq<Token>, tail: Tail)
    ensures ScanReads(tokens, tail) && Render(tokens, tail) == line && Delta(line) == Net(tokens)
    decreases |line|
  {
    hide ScanFits, Delta;
    if line == "" {
      tokens, tail := [], Nothing;
    } else {
      var t, end, rest := ReadToken(line);
      if t.None? {
        tokens, tail := [], end;
      } else {
        tokens, tail := EveryLineScans(rest);
        tokens := [t.value] + tokens;
      }
    }
    ScanIsNet(tokens, tail);
  }

  /** Without that literal the scanner's reading is Rust's. */
  lemma {:induction false} ScanIsRust(tokens: seq<Token>, tail: Tail)
    requires ScanReads(tokens, tail) && NoQuoteLiteral(Render(tokens, tail))
    ensures Reads(tokens, tail)
  {
    if tokens != [] {
      var t, rest := tokens[0], Render(tokens[1..], tail);
      SuffixHasNone(t.Text() + rest, t.Text(), rest);
      ScanIsRust(tokens[1..], tail);
      EscapeHasBody(t, rest);
    }
  }

  lemma EscapeHasBody(t: Token, rest: string)
    requires ScanFits(t, rest) && NoQuoteLiteral(t.Text() + rest)
    ensures Fits(t, rest)
  {
    if t.EscapedChar? {
      var s := t.Text() + rest;
      assert s[0] == '\'' && s[1] == '\\' && s[2] == (if t.body == "" then '\'' else t.body[0]);
    }
  }

  /** Every line without that literal reads as tokens, so the scanner's answer on it is the net braces of a reading. */
  lemma EveryLineReads(line: string) returns (tokens: seq<Token>, tail: Tail)
    requires NoQuoteLiteral(line)
    ensures Reads(tokens, tail) && Render(tokens, tail) == line && Delta(line) == Net(tokens)
  {
    tokens, tail := EveryLineScans(line);
    ScanIsRust(tokens, tail);
  }

  lemma SuffixHasNone(s: string, before: string, rest: string)
    requires s == before + rest && NoQuoteLiteral(s)
    ensures NoQuoteLiteral(rest)
  {
    forall i | 0 <= i < |rest| - 2 ensures !(rest[i] == '\'' && rest[i + 1] == '\\' && rest[i + 2] == '\'') {
      var j := |before| + i;
      assert s[j] == rest[i] && s[j + 1] == rest[i + 1] && s[j + 2] == rest[i + 2];
    }
  }
}
