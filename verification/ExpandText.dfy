/**
 The item scanner said of the text alone: which lines open a module, are attributes or end an item, and how
 expansions written as modules and items are scanned.
 */
module ExpandText {
  import opened Wrappers
  import opened Text
  import opened TextFacts
  import opened ExpandScan
  import RustLine
  import Braces = BraceDelta
  import Lines = ExpandLines

  // ----- What a line is

  /** `text` declares the inline module `name`: the keyword, blanks around the name, and a run of braces and spaces. */
  ghost predicate DeclaresWith(
      text: string, keyword: string, before: string, name: string, after: string, tail: string) {
    && (keyword == "pub mod " || keyword == "mod ") && text == keyword + before + name + after + tail
    && Blank(before) && Blank(after) && OneWord(name)
    && OpeningRun(tail) && tail != "" && tail[|tail| - 1] == '{'
    && (before + name + after)[|before + name + after| - 1] !in ['{', ' ']
  }

  /** Something other than white space, with none at its ends and no space inside. */
  predicate OneWord(name: string) {
    name != "" && Tight(name) && ' ' !in name
  }

  predicate OpeningRun(tail: string) {
    forall i | 0 <= i < |tail| :: tail[i] == '{' || tail[i] == ' '
  }

  ghost predicate Declares(text: string, name: string) {
    exists keyword, before, after, tail :: DeclaresWith(text, keyword, before, name, after, tail)
  }

  lemma {:induction false} OpeningParts(s: string) returns (tail: string)
    ensures s == TrimOpening(s) + tail && OpeningRun(tail)
    ensures TrimOpening(s) != "" ==> TrimOpening(s)[|TrimOpening(s)| - 1] !in ['{', ' ']
    decreases |s|
  {
    if s != "" && s[|s| - 1] in ['{', ' '] {
      tail := OpeningParts(s[..|s| - 1]);
      tail := tail + [s[|s| - 1]];
      assert s == s[..|s| - 1] + [s[|s| - 1]];
    } else {
      tail := "";
    }
  }

  lemma {:induction false} OpeningOf(s: string, tail: string)
    requires OpeningRun(tail)
    requires s != "" ==> s[|s| - 1] !in ['{', ' ']
    ensures TrimOpening(s + tail) == s
    decreases |tail|
  {
    if tail == "" {
      assert s + tail == s;
    } else {
      assert (s + tail)[..|s + tail| - 1] == s + tail[..|tail| - 1];
      OpeningOf(s, tail[..|tail| - 1]);
    }
  }

  /** Module names are read off exactly the lines that declare them. */
  lemma DeclaresExactly(text: string, name: string)
    ensures ModuleName(text) == Some(name) <==> Declares(text, name)
  {
    if ModuleName(text) == Some(name) {
      NameDeclared(text, name);
    }
    if keyword, before, after, tail :| DeclaresWith(text, keyword, before, name, after, tail) {
      DeclaredName(text, keyword, before, name, after, tail);
    }
  }

  lemma NameDeclared(text: string, name: string)
    requires ModuleName(text) == Some(name)
    ensures Declares(text, name)
  {
    hide Trim, TrimOpening, IsWhitespace, Declares, DeclaresWith;
    var keyword := if StartsWith(text, "pub mod ") then "pub mod " else "mod ";
    var rest := text[|keyword|..];
    assert text == keyword + rest;
    EndsWithBrace(text, keyword, rest);
    var tail := OpeningParts(rest);
    var before, after := TrimParts(TrimOpening(rest));
    NameInParts(keyword, before, name, after, tail, rest);
  }

  lemma EndsWithBrace(text: string, keyword: string, rest: string)
    requires text == keyword + rest && EndsWith(text, "{") && keyword != "" && keyword[|keyword| - 1] == ' '
    ensures rest != "" && rest[|rest| - 1] == '{'
  {
    assert text[|text| - 1..][0] == text[|text| - 1];
  }

  lemma NameInParts(keyword: string, before: string, name: string, after: string, tail: string, rest: string)
    requires keyword == "pub mod " || keyword == "mod "
    requires Blank(before) && Blank(after) && OneWord(name) && rest == before + name + after + tail
    requires rest[|rest| - 1] == '{' && OpeningRun(tail)
    requires (before + name + after)[|before + name + after| - 1] !in ['{', ' ']
    ensures Declares(keyword + rest, name)
  {
    hide IsWhitespace, Blank;
    assert tail != "";
    assert keyword + rest == keyword + before + name + after + tail;
    assert DeclaresWith(keyword + rest, keyword, before, name, after, tail);
  }

  lemma DeclaredName(text: string, keyword: string, before: string, name: string, after: string, tail: string)
    requires DeclaresWith(text, keyword, before, name, after, tail)
    ensures ModuleName(text) == Some(name)
  {
    hide Trim, TrimOpening, IsWhitespace;
    var rest := before + name + after + tail;
    assert text == keyword + rest;
    OpeningOf(before + name + after, tail);
    TrimOf(before, name, after);
    assert text[|text| - 1..] == [tail[|tail| - 1]];
    assert text[|keyword|..] == rest;
    assert keyword == "mod " ==> text[0] == 'm' && !StartsWith(text, "pub mod ");
  }

  predicate Marked(text: string) {
    "#[" <= text || "#![" <= text || "//" <= text
  }

  /** The line's role and whether an item can end there, from the text between the blanks around it. */
  lemma LineIs(line: string, depth: int, itemDepth: int)
    ensures var text := Trim(line);
            var role := RoleOf(line, depth, itemDepth);
            && (role == Passed <==> text == "" || depth != itemDepth || text[0] == '}' || text[0] == ')')
            && (role == Attribute <==> text != "" && depth == itemDepth && Marked(text))
            && (forall name :: role == Opens(name) <==> text != "" && depth == itemDepth && Declares(text, name))
            && (role == Starts <==>
                text != "" && depth == itemDepth && text[0] !in ['}', ')'] && !Marked(text)
                && forall name :: !Declares(text, name))
            && (EndsItem(line) <==> text != "" && (text[|text| - 1] == ';' || text[|text| - 1] == '}'))
            && EndsItem(TrimEnd(line)) == EndsItem(line)
  {
    hide Trim, ModuleName, Declares, DeclaresWith, EndsItem;
    var text := Trim(line);
    forall name ensures ModuleName(text) == Some(name) <==> Declares(text, name) {
      DeclaresExactly(text, name);
    }
    NamesNoMark(text);
    EndsExactly(line);
    if text != "" {
      assert StartsWith(text, "}") <==> text[0] == '}' by { FirstIs(text, '}'); }
      assert StartsWith(text, ")") <==> text[0] == ')' by { FirstIs(text, ')'); }
    }
  }

  lemma FirstIs(s: string, c: char)
    requires s != ""
    ensures [c] <= s <==> s[0] == c
  {
    assert s[..1] == [s[0]];
  }

  lemma NamesNoMark(text: string)
    ensures ModuleName(text).Some? ==> text != "" && text[0] !in ['}', ')'] && !Marked(text)
  {
  }

  lemma EndsExactly(line: string)
    ensures var text := Trim(line);
            EndsItem(line) <==> text != "" && (text[|text| - 1] == ';' || text[|text| - 1] == '}')
    ensures EndsItem(TrimEnd(line)) == EndsItem(line)
  {
    hide IsWhitespace, TrimEnd, Trim;
    var e, text := TrimEnd(line), Trim(line);
    SameEnd(line);
    LastIs(e, ';');
    LastIs(e, '}');
  }

  lemma LastIs(s: string, c: char)
    ensures EndsWith(s, [c]) <==> s != "" && s[|s| - 1] == c
  {
    assert s != "" ==> s[|s| - 1..] == [s[|s| - 1]];
  }

  /** Trimming the end alone leaves the same last character. */
  lemma SameEnd(line: string)
    ensures var e, text := TrimEnd(line), Trim(line);
            && TrimEnd(e) == e && (e == "" <==> text == "")
            && (text != "" ==> e[|e| - 1] == text[|text| - 1])
  {
    hide IsWhitespace, TrimEnd, Trim;
    var before, after := TrimParts(line);
    var text := Trim(line);
    if text == "" {
      assert line == "" + (before + after);
      TrimEndOf("", before + after);
    } else {
      TrimEndOf(before + text, after);
    }
    TrimEndTwice(line);
  }

  lemma TrimEndTwice(line: string)
    ensures TrimEnd(TrimEnd(line)) == TrimEnd(line)
  {
    hide IsWhitespace, TrimEnd;
    var after := TrimEndParts(line);
    TrimEndOf(TrimEnd(line), "");
    assert TrimEnd(line) + "" == TrimEnd(line);
  }

  // ----- The declaration an item is attributed by

  /** The text up to the first opening brace. */
  function UpToBrace(text: string): string {
    if text == "" || text[0] == '{' then "" else [text[0]] + UpToBrace(text[1..])
  }

  lemma {:induction false} UpToBraceOf(before: string, rest: string)
    requires '{' !in before && (rest == "" || rest[0] == '{')
    ensures UpToBrace(before + rest) == before
  {
    if before == "" {
      assert before + rest == rest;
    } else {
      assert before[0] in before;
      assert (before + rest)[1..] == before[1..] + rest;
      UpToBraceOf(before[1..], rest);
    }
  }

  lemma DeclarationIs(text: string, header: string)
    ensures DeclOf(text, header) == if Trim(UpToBrace(text)) == "" then header else Trim(UpToBrace(text))
  {
    hide Trim;
    forall k | 0 <= k < |text| && text[k] == '{' ensures MatchesAt(text, "{", k) {
      assert text[k..k + 1] == "{";
    }
    match Find(text, "{")
    case None =>
      UpToBraceOf(text, "");
      assert text + "" == text;
    case Some(i) =>
      var before, rest := text[..i], text[i..];
      assert text == before + rest;
      assert text[i..i + 1][0] == '{';
      UpToBraceOf(before, rest);
  }

  lemma {:induction false} JoinedBy(lines: seq<string>)
    ensures JoinLines(lines) == JoinBy(lines, "\n")
  {
    if |lines| > 1 {
      JoinedBy(lines[1..]);
    }
  }

  // ----- Braces of a plain line

  /** Without quotes and slashes every brace counts. */
  lemma {:induction false} PlainBraces(s: string)
    requires forall c | c in s :: c != '"' && c != '\'' && c != '/'
    ensures Braces.Delta(s) == multiset(s)['{'] as int - multiset(s)['}'] as int
  {
    if s != "" {
      assert s == [s[0]] + s[1..];
      assert s[0] in s && s[1..] == RustLine.Drop(s, 1);
      PlainStep(s);
      assert forall c | c in s[1..] :: c in s;
      PlainBraces(s[1..]);
    }
  }

  lemma PlainStep(s: string)
    requires s != "" && forall c | c in s :: c != '"' && c != '\'' && c != '/'
    ensures Braces.Width(s) == 1
  {
    hide Braces.StringEnd, Braces.QuoteSkip, Braces.RawEnd;
    assert s[0] in s && forall c | c in s[1..] :: c in s;
    RawHasQuote(s[1..]);
  }

  lemma RawHasQuote(s: string)
    ensures RustLine.OpensRaw(s) ==> '"' in s
  {
  }

  // ----- Expansions as they are written

  /** Nested modules and items, every module on lines of its own. */
  datatype Code =
    | Done
    | Gap(line: string, rest: Code)
    | Declaration(attributes: seq<string>, body: seq<string>, rest: Code)
    | Module(attributes: seq<string>, indent: string, keyword: string, name: string, inner: Code, rest: Code)
  {
    function Text(): seq<string> {
      match this
      case Done => []
      case Gap(line, rest) => [line] + rest.Text()
      case Declaration(attributes, body, rest) => attributes + body + rest.Text()
      case Module(attributes, indent, keyword, name, inner, rest) =>
        attributes + ([indent + keyword + name + " {"] + inner.Text() + [indent + "}"] + rest.Text())
    }

    ghost predicate Valid() {
      match this
      case Done => true
      case Gap(line, rest) => Blank(line) && rest.Valid()
      case Declaration(attributes, body, rest) => AttributeTexts(attributes) && ItemText(body) && rest.Valid()
      case Module(attributes, indent, keyword, name, inner, rest) =>
        && AttributeTexts(attributes) && Blank(indent) && (keyword == "mod " || keyword == "pub mod ") && ModuleWord(name)
        && inner.Valid() && rest.Valid()
    }

    /** Its items, from line `at` of the module `path`. */
    function Items(path: string, at: nat, attribute: (string, string) -> Attribution): seq<Item> {
      match this
      case Done => []
      case Gap(_, rest) => rest.Items(path, at + 1, attribute)
      case Declaration(attributes, body, rest) =>
        var header := if body == [] then "" else Trim(body[0]);
        var before := Trim(UpToBrace(JoinBy(body, "\n")));
        var (origin, subject) := attribute(if before == "" then header else before, JoinBy(attributes + body, "\n"));
        var next := at + |attributes| + |body|;
        [Item(path, header, at + 1, next, origin, subject)] + rest.Items(path, next, attribute)
      case Module(attributes, _, _, name, inner, rest) =>
        inner.Items(if path == "" then name else path + "::" + name, at + |attributes| + 1, attribute)
        + rest.Items(path, at + |attributes| + 2 + |inner.Text()|, attribute)
    }

    function AsSource(): Source {
      match this
      case Done => End
      case Gap(line, rest) => BlankThen(line, rest.AsSource())
      case Declaration(attributes, body, rest) => ItemThen(attributes, body, rest.AsSource())
      case Module(attributes, indent, keyword, name, inner, rest) =>
        ModuleThen(attributes, indent + keyword + name + " {", inner.AsSource(), indent + "}", rest.AsSource())
    }
  }

  ghost predicate AttributeTexts(lines: seq<string>) {
    forall i | 0 <= i < |lines| :: Marked(Trim(lines[i])) && Braces.Delta(lines[i]) == 0
  }

  ghost predicate ModuleWord(name: string) {
    name != "" && forall c | c in name :: !IsWhitespace(c) && c !in ['{', '}', '"', '\'', '/']
  }

  /** The depth the first `k` lines add. */
  function BracesIn(lines: seq<string>, k: nat): int
    requires k <= |lines|
  {
    if k == 0 then 0 else BracesIn(lines, k - 1) + Braces.Delta(lines[k - 1])
  }

  predicate CanEnd(line: string) {
    var text := Trim(line);
    text != "" && (text[|text| - 1] == ';' || text[|text| - 1] == '}')
  }

  ghost predicate Begins(line: string) {
    var text := Trim(line);
    text != "" && text[0] !in ['}', ')'] && !Marked(text) && forall name :: !Declares(text, name)
  }

  /** An item's lines: from one that begins it to the first that closes its braces and can end it. */
  ghost predicate ItemText(body: seq<string>) {
    && body != [] && Begins(body[0])
    && (forall k | 0 < k < |body| :: !(BracesIn(body, k) <= 0 && CanEnd(body[k - 1])))
    && BracesIn(body, |body|) == 0 && CanEnd(body[|body| - 1])
  }

  // ----- They are scanned into their items

  lemma AttributesAre(lines: seq<string>, attribute: (string, string) -> Attribution)
    requires AttributeTexts(lines)
    ensures AttributeLines(lines, Lines.ScannerOracle(attribute))
  {
    hide RoleOf, Trim, Braces.Delta;
    forall i | 0 <= i < |lines| ensures RoleOf(lines[i], 0, 0) == Attribute {
      LineIs(lines[i], 0, 0);
    }
  }

  lemma {:induction false} SameBraces(lines: seq<string>, k: nat, attribute: (string, string) -> Attribution)
    requires k <= |lines|
    ensures DepthOf(lines, k, Lines.ScannerOracle(attribute)) == BracesIn(lines, k)
  {
    hide Braces.Delta;
    if k > 0 {
      SameBraces(lines, k - 1, attribute);
    }
  }

  lemma ItemIs(body: seq<string>, attribute: (string, string) -> Attribution)
    requires ItemText(body)
    ensures ItemLines(body, Lines.ScannerOracle(attribute))
  {
    hide RoleOf, Trim, EndsItem, DepthOf, BracesIn, Declares, Lines.ScannerOracle;
    var oracle := Lines.ScannerOracle(attribute);
    LineIs(body[0], 0, 0);
    forall k | 0 < k <= |body|
      ensures DepthOf(body, k, oracle) == BracesIn(body, k) && EndsItem(TrimEnd(body[k - 1])) == CanEnd(body[k - 1])
    {
      SameBraces(body, k, attribute);
      LineIs(body[k - 1], 0, 0);
    }
    RoleIsStarts(body[0]);
  }

  lemma RoleIsStarts(line: string)
    requires Begins(line)
    ensures RoleOf(line, 0, 0) == Starts
  {
    hide Trim, Declares;
    LineIs(line, 0, 0);
  }

  /** The two lines of a module. */
  lemma ModuleLines(indent: string, keyword: string, name: string)
    requires Blank(indent) && (keyword == "mod " || keyword == "pub mod ") && ModuleWord(name)
    ensures RoleOf(indent + keyword + name + " {", 0, 0) == Opens(name)
    ensures ModuleName(Trim(indent + keyword + name + " {")) == Some(name)
    ensures Braces.Delta(indent + keyword + name + " {") == 1
    ensures Trim(indent + "}") == "}" && Braces.Delta(indent + "}") == -1
  {
    hide Trim, IsWhitespace, Braces.Delta, RoleOf, ModuleName;
    HeaderText(indent, keyword, name);
    LineIs(indent + keyword + name + " {", 0, 0);
    DeclaresExactly(keyword + name + " {", name);
    ClosingText(indent);
    HeaderBraces(indent, keyword, name);
  }

  lemma HeaderText(indent: string, keyword: string, name: string)
    requires Blank(indent) && (keyword == "mod " || keyword == "pub mod ") && ModuleWord(name)
    ensures Trim(indent + keyword + name + " {") == keyword + name + " {"
    ensures Declares(keyword + name + " {", name)
  {
    hide Trim, IsWhitespace, Blank;
    var text := keyword + name + " {";
    assert indent + keyword + name + " {" == indent + text + "";
    HeaderTight(keyword, name);
    TrimOf(indent, text, "");
    assert "" + name + "" == name && keyword + "" + name + "" + " {" == text;
    assert DeclaresWith(text, keyword, "", name, "", " {");
  }

  lemma HeaderTight(keyword: string, name: string)
    requires (keyword == "mod " || keyword == "pub mod ") && ModuleWord(name)
    ensures Tight(keyword + name + " {") && Blank("") && OneWord(name) && OpeningRun(" {")
    ensures name[|name| - 1] !in ['{', ' ']
  {
    assert name[0] in name && name[|name| - 1] in name;
  }

  lemma ClosingText(indent: string)
    requires Blank(indent)
    ensures Trim(indent + "}") == "}"
  {
    hide Trim;
    TrimOf(indent, "}", "");
    assert indent + "}" + "" == indent + "}";
  }

  /** Blanks and words hold no braces, quotes or slashes. */
  lemma PlainText(s: string)
    requires forall c | c in s :: IsWhitespace(c) || c !in ['{', '}', '"', '\'', '/']
    ensures forall c | c in s :: c != '"' && c != '\'' && c != '/'
    ensures multiset(s)['{'] == 0 && multiset(s)['}'] == 0
  {
    assert '{' !in s && '}' !in s;
  }

  lemma HeaderBraces(indent: string, keyword: string, name: string)
    requires Blank(indent) && (keyword == "mod " || keyword == "pub mod ") && ModuleWord(name)
    ensures Braces.Delta(indent + keyword + name + " {") == 1 && Braces.Delta(indent + "}") == -1
  {
    hide IsWhitespace, Braces.Delta;
    PlainKeyword(keyword);
    PlainText(indent + keyword + name + " ");
    PlainText(indent);
    assert indent + keyword + name + " {" == indent + keyword + name + " " + "{";
    OneBrace(indent + keyword + name + " ", '{');
    OneBrace(indent, '}');
  }

  lemma PlainKeyword(keyword: string)
    requires keyword == "mod " || keyword == "pub mod "
    ensures forall c | c in keyword :: c !in ['{', '}', '"', '\'', '/']
  {
  }

  lemma OneBrace(word: string, c: char)
    requires c == '{' || c == '}'
    requires forall c | c in word :: c != '"' && c != '\'' && c != '/'
    requires multiset(word)['{'] == 0 && multiset(word)['}'] == 0
    ensures Braces.Delta(word + [c]) == if c == '{' then 1 else -1
  {
    hide Braces.Delta;
    PlainBraces(word + [c]);
  }

  lemma {:induction false} CodeIsSource(code: Code, attribute: (string, string) -> Attribution)
    requires code.Valid()
    ensures code.AsSource().Text() == code.Text()
    ensures code.AsSource().WellFormed(Lines.ScannerOracle(attribute))
    decreases code
  {
    hide RoleOf, Trim, Braces.Delta, IsWhitespace, ModuleName, ModuleWord;
    hide AttributeLines, AttributeTexts, ItemLines, ItemText;
    match code
    case Done =>
    case Gap(line, rest) =>
      CodeIsSource(rest, attribute);
      GapIs(line);
    case Declaration(attributes, body, rest) =>
      AttributesAre(attributes, attribute);
      ItemIs(body, attribute);
      CodeIsSource(rest, attribute);
    case Module(attributes, indent, keyword, name, inner, rest) =>
      AttributesAre(attributes, attribute);
      ModuleLines(indent, keyword, name);
      CodeIsSource(inner, attribute);
      CodeIsSource(rest, attribute);
  }

  lemma GapIs(line: string)
    requires Blank(line)
    ensures Trim(line) == "" && Braces.Delta(line) == 0
  {
    hide Trim, Braces.Delta;
    TrimOf(line, "", "");
    assert line + "" + "" == line;
    PlainText(line);
    PlainBraces(line);
  }

  lemma SameNothing(path: string, at: nat, attribute: (string, string) -> Attribution)
    ensures Done.AsSource().Items(path, at, Lines.ScannerOracle(attribute)) == Done.Items(path, at, attribute)
  {
  }

  lemma SameGap(code: Code, path: string, at: nat, attribute: (string, string) -> Attribution)
    requires code.Gap?
    requires code.rest.AsSource().Items(path, at + 1, Lines.ScannerOracle(attribute)) ==
             code.rest.Items(path, at + 1, attribute)
    ensures code.AsSource().Items(path, at, Lines.ScannerOracle(attribute)) == code.Items(path, at, attribute)
  {
  }

  /** An item comes out the same, if what follows it does. */
  lemma SameDeclaration(code: Code, path: string, at: nat, attribute: (string, string) -> Attribution)
    requires code.Declaration?
    requires var next := at + |code.attributes| + |code.body|;
             code.rest.AsSource().Items(path, next, Lines.ScannerOracle(attribute)) ==
             code.rest.Items(path, next, attribute)
    ensures code.AsSource().Items(path, at, Lines.ScannerOracle(attribute)) == code.Items(path, at, attribute)
  {
    hide Trim, DeclOf, UpToBrace, JoinLines, JoinBy, Braces.Delta;
    var attributes, body := code.attributes, code.body;
    JoinedBy(body);
    JoinedBy(attributes + body);
    DeclarationIs(JoinLines(body), if body == [] then "" else Trim(body[0]));
  }

  lemma ModuleItems(source: Source, name: string, path: string, at: nat, oracle: Oracle)
    requires source.ModuleThen? && ModuleName(Trim(source.header)) == Some(name)
    ensures source.Items(path, at, oracle) ==
            source.inner.Items(if path == "" then name else path + "::" + name, at + |source.attributes| + 1, oracle)
            + source.rest.Items(path, at + |source.attributes| + 2 + |source.inner.Text()|, oracle)
  {
    hide Trim, ModuleName, Source.Items;
    Lines.ModuleItemsAre(source, oracle, path, at);
  }

  lemma ModuleSource(code: Code)
    requires code.Module? && code.Valid()
    ensures var source := code.AsSource();
            && source.ModuleThen? && ModuleName(Trim(source.header)) == Some(code.name)
            && source.attributes == code.attributes
            && source.inner == code.inner.AsSource() && source.rest == code.rest.AsSource()
  {
    hide Trim, ModuleName;
    ModuleLines(code.indent, code.keyword, code.name);
  }

  lemma SameModule(code: Code, path: string, at: nat, attribute: (string, string) -> Attribution)
    requires code.Module? && code.Valid() && code.inner.AsSource().Text() == code.inner.Text()
    requires var inside := if path == "" then code.name else path + "::" + code.name;
             var first := at + |code.attributes| + 1;
             code.inner.AsSource().Items(inside, first, Lines.ScannerOracle(attribute)) ==
             code.inner.Items(inside, first, attribute)
    requires var next := at + |code.attributes| + 2 + |code.inner.Text()|;
             code.rest.AsSource().Items(path, next, Lines.ScannerOracle(attribute)) ==
             code.rest.Items(path, next, attribute)
    ensures code.AsSource().Items(path, at, Lines.ScannerOracle(attribute)) == code.Items(path, at, attribute)
  {
    hide Trim, ModuleName, Lines.ScannerOracle, Source.Items, Code.AsSource, Code.Valid, Code.Text, Source.Text;
    ModuleSource(code);
    ModuleItems(code.AsSource(), code.name, path, at, Lines.ScannerOracle(attribute));
  }

  lemma {:induction false} SameItems(code: Code, path: string, at: nat, attribute: (string, string) -> Attribution)
    requires code.Valid()
    ensures code.AsSource().Items(path, at, Lines.ScannerOracle(attribute)) == code.Items(path, at, attribute)
    decreases code
  {
    hide Trim, Lines.ScannerOracle, ModuleWord, AttributeTexts, ItemText, Blank;
    hide Source.Items, Code.Items, Code.AsSource, Code.Text;
    match code
    case Done =>
      SameNothing(path, at, attribute);
    case Gap(_, rest) =>
      SameItems(rest, path, at + 1, attribute);
      SameGap(code, path, at, attribute);
    case Declaration(attributes, body, rest) =>
      SameItems(rest, path, at + |attributes| + |body|, attribute);
      SameDeclaration(code, path, at, attribute);
    case Module(attributes, indent, keyword, name, inner, rest) =>
      CodeIsSource(inner, attribute);
      SameItems(inner, if path == "" then name else path + "::" + name, at + |attributes| + 1, attribute);
      SameItems(rest, path, at + |attributes| + 2 + |inner.Text()|, attribute);
      SameModule(code, path, at, attribute);
  }

  /** An expansion written this way is scanned, by the real brace counter, into exactly its items. */
  lemma CodeIsScanned(code: Code, attribute: (string, string) -> Attribution)
    requires code.Valid()
    ensures ScanFrom(code.Text(), 0, 0, [], None, Lines.ScannerOracle(attribute)) == code.Items("", 0, attribute)
  {
    hide Source.WellFormed, ScanFrom;
    CodeIsSource(code, attribute);
    ScanRecovers(code.AsSource(), Lines.ScannerOracle(attribute));
    SameItems(code, "", 0, attribute);
  }
}
