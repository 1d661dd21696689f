/** The item scanner with the brace scanner it really asks: sources whose lines are Rust tokens are scanned into their items. */
module ExpandLines {
  import opened Wrappers
  import opened RustLine
  import opened ExpandScan
  import Text
  import Braces = BraceDelta

  /** A reading of lines as tokens and a tail. */
  type Reading = string -> (seq<Token>, Tail)

  /** The scanner's own reading of the line has the net braces of these tokens. */
  ghost predicate CountsRight(line: string, tokens: seq<Token>) {
    exists scan, scanTail | Braces.ScanReads(scan, scanTail) ::
      Render(scan, scanTail) == line && Braces.Net(scan) == Braces.Net(tokens)
  }

  /** The line is rendered from its reading, the reading is what Rust sees, and its braces are counted right. */
  ghost predicate Lexed(line: string, reading: Reading) {
    var (tokens, tail) := reading(line);
    Braces.ReadsAnyway(tokens, tail) && Render(tokens, tail) == line && CountsRight(line, tokens)
  }

  /** Braces are counted right on every line on which no quote literal puts the scanner out of step. */
  lemma InStepIsLexed(line: string, reading: Reading)
    requires var (tokens, tail) := reading(line); Braces.Reads(tokens, tail) && Render(tokens, tail) == line
    ensures Lexed(line, reading)
  {
    hide Braces.Delta, Braces.Fits, Render;
    var (tokens, tail) := reading(line);
    ReadsAnyhow(tokens, tail);
    Braces.DeltaIsNet(tokens, tail);
    var scan, scanTail := Braces.EveryLineScans(line);
  }

  lemma {:induction false} ReadsAnyhow(tokens: seq<Token>, tail: Tail)
    requires Braces.Reads(tokens, tail)
    ensures Braces.ReadsAnyway(tokens, tail)
  {
    hide Braces.Fits;
    if tokens != [] {
      ReadsAnyhow(tokens[1..], tail);
    }
  }

  /** Braces counted among a line's code tokens. */
  function TokenOracle(reading: Reading, attribute: (string, string) -> Attribution): Oracle {
    Oracle(line => Braces.Net(reading(line).0), attribute)
  }

  function ScannerOracle(attribute: (string, string) -> Attribution): Oracle {
    Oracle(Braces.Delta, attribute)
  }

  ghost predicate Agree(a: Oracle, b: Oracle, lines: seq<string>) {
    a.attribute == b.attribute && forall i | 0 <= i < |lines| :: a.delta(lines[i]) == b.delta(lines[i])
  }

  lemma AgreeOnParts(a: Oracle, b: Oracle, front: seq<string>, back: seq<string>)
    requires Agree(a, b, front + back)
    ensures Agree(a, b, front) && Agree(a, b, back)
  {
    var lines := front + back;
    assert forall i | 0 <= i < |front| :: front[i] == lines[i];
    assert forall i | 0 <= i < |back| :: back[i] == lines[|front| + i];
  }

  lemma {:induction false} SameDepth(lines: seq<string>, k: nat, a: Oracle, b: Oracle)
    requires k <= |lines| && Agree(a, b, lines)
    ensures DepthOf(lines, k, a) == DepthOf(lines, k, b)
  {
    if k > 0 {
      SameDepth(lines, k - 1, a, b);
    }
  }

  lemma SameItem(attributes: seq<string>, body: seq<string>, a: Oracle, b: Oracle)
    requires Agree(a, b, attributes) && Agree(a, b, body)
    requires AttributeLines(attributes, a) && ItemLines(body, a)
    ensures AttributeLines(attributes, b) && ItemLines(body, b)
  {
    hide RoleOf, EndsItem;
    forall k | 0 <= k <= |body| ensures DepthOf(body, k, a) == DepthOf(body, k, b) {
      SameDepth(body, k, a, b);
    }
  }

  lemma SameAttributes(attributes: seq<string>, a: Oracle, b: Oracle)
    requires Agree(a, b, attributes) && AttributeLines(attributes, a)
    ensures AttributeLines(attributes, b)
  {
    hide RoleOf;
  }

  /** Oracles that agree on a source's lines find it well formed alike. */
  lemma {:induction false} SameSource(source: Source, a: Oracle, b: Oracle)
    requires Agree(a, b, source.Text()) && source.WellFormed(a)
    ensures source.WellFormed(b)
    decreases source
  {
    hide RoleOf, AttributeLines, ItemLines, IsClosing, Agree, Text.Trim;
    match source
    case End =>
    case BlankThen(line, rest) =>
      AgreeOnParts(a, b, [line], rest.Text());
      AgreeOnLine(a, b, line);
      SameSource(rest, a, b);
    case ItemThen(attributes, body, rest) =>
      AgreeOnParts(a, b, attributes + body, rest.Text());
      AgreeOnParts(a, b, attributes, body);
      SameItem(attributes, body, a, b);
      SameSource(rest, a, b);
    case ModuleThen(attributes, header, inner, closing, rest) =>
      SameModule(source, a, b);
      SameAttributes(attributes, a, b);
      SameSource(inner, a, b);
      SameSource(rest, a, b);
  }

  /** The path inside a module, from its header and the path outside. */
  function InnerPath(path: string, header: string): string {
    var name := if ModuleName(Text.Trim(header)).Some? then ModuleName(Text.Trim(header)).value else "";
    if path == "" then name else path + "::" + name
  }

  lemma ModuleItemsAre(source: Source, oracle: Oracle, path: string, at: nat)
    requires source.ModuleThen?
    ensures source.Items(path, at, oracle) ==
            source.inner.Items(InnerPath(path, source.header), at + |source.attributes| + 1, oracle)
            + source.rest.Items(path, at + |source.attributes| + 2 + |source.inner.Text()|, oracle)
  {
    hide ModuleName, Text.Trim, Source.Text;
  }

  lemma SameHead(source: Source, a: Oracle, b: Oracle, path: string, at: nat)
    requires source.ItemThen? && a.attribute == b.attribute
    requires var next := at + |source.attributes| + |source.body|;
             source.rest.Items(path, next, a) == source.rest.Items(path, next, b)
    ensures source.Items(path, at, a) == source.Items(path, at, b)
  {
    hide JoinLines, DeclOf, Text.Trim;
  }

  lemma NoItems(oracle: Oracle, path: string, at: nat)
    ensures End.Items(path, at, oracle) == []
  {
  }

  lemma BlankItems(source: Source, oracle: Oracle, path: string, at: nat)
    requires source.BlankThen?
    ensures source.Items(path, at, oracle) == source.rest.Items(path, at + 1, oracle)
  {
  }

  /** The items of a source do not depend on the brace counter. */
  lemma {:induction false} SameItems(source: Source, a: Oracle, b: Oracle, path: string, at: nat)
    requires a.attribute == b.attribute
    ensures source.Items(path, at, a) == source.Items(path, at, b)
    decreases source
  {
    hide InnerPath, Source.Text, Source.Items;
    match source
    case End =>
      NoItems(a, path, at);
      NoItems(b, path, at);
    case BlankThen(_, rest) =>
      SameItems(rest, a, b, path, at + 1);
      BlankItems(source, a, path, at);
      BlankItems(source, b, path, at);
    case ItemThen(attributes, body, rest) =>
      SameItems(rest, a, b, path, at + |attributes| + |body|);
      SameHead(source, a, b, path, at);
    case ModuleThen(attributes, header, inner, _, rest) =>
      ModuleItemsAre(source, a, path, at);
      ModuleItemsAre(source, b, path, at);
      SameItems(inner, a, b, InnerPath(path, header), at + |attributes| + 1);
      SameItems(rest, a, b, path, at + |attributes| + 2 + |inner.Text()|);
  }

  lemma SameModule(source: Source, a: Oracle, b: Oracle)
    requires source.ModuleThen? && Agree(a, b, source.Text())
    ensures Agree(a, b, source.attributes) && Agree(a, b, source.inner.Text()) && Agree(a, b, source.rest.Text())
    ensures a.delta(source.header) == b.delta(source.header) && a.delta(source.closing) == b.delta(source.closing)
  {
    hide Agree;
    var inner, rest := source.inner.Text(), source.rest.Text();
    AgreeOnParts(a, b, source.attributes, [source.header] + inner + [source.closing] + rest);
    AgreeOnParts(a, b, [source.header] + inner + [source.closing], rest);
    AgreeOnParts(a, b, [source.header] + inner, [source.closing]);
    AgreeOnParts(a, b, [source.header], inner);
    AgreeOnLine(a, b, source.header);
    AgreeOnLine(a, b, source.closing);
  }

  lemma AgreeOnLine(a: Oracle, b: Oracle, line: string)
    requires Agree(a, b, [line])
    ensures a.delta(line) == b.delta(line)
  {
    assert a.delta([line][0]) == b.delta([line][0]);
  }

  lemma LexedAgrees(lines: seq<string>, reading: Reading, attribute: (string, string) -> Attribution)
    requires forall i | 0 <= i < |lines| :: Lexed(lines[i], reading)
    ensures Agree(TokenOracle(reading, attribute), ScannerOracle(attribute), lines)
  {
    forall i | 0 <= i < |lines| ensures Braces.Net(reading(lines[i]).0) == Braces.Delta(lines[i]) {
      assert Lexed(lines[i], reading);
      var (tokens, tail) := reading(lines[i]);
      var scan, scanTail :| Braces.ScanReads(scan, scanTail)
        && Render(scan, scanTail) == lines[i] && Braces.Net(scan) == Braces.Net(tokens);
      Braces.RightExactly(tokens, tail, scan, scanTail);
    }
  }

  /**
   The two scanners together: a source of nested modules and items whose lines are rendered from tokens, with
   braces that are counted right and balance among the code tokens, is scanned into exactly its items.
   */
  lemma TokensRecover(source: Source, reading: Reading, attribute: (string, string) -> Attribution)
    requires forall i | 0 <= i < |source.Text()| :: Lexed(source.Text()[i], reading)
    requires source.WellFormed(TokenOracle(reading, attribute))
    ensures ScanFrom(source.Text(), 0, 0, [], None, ScannerOracle(attribute)) ==
            source.Items("", 0, TokenOracle(reading, attribute))
  {
    hide Source.WellFormed, ScanFrom, Lexed, Agree;
    LexedAgrees(source.Text(), reading, attribute);
    SameSource(source, TokenOracle(reading, attribute), ScannerOracle(attribute));
    SameItems(source, TokenOracle(reading, attribute), ScannerOracle(attribute), "", 0);
    ScanRecovers(source, ScannerOracle(attribute));
  }
}
