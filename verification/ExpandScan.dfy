/**
 The item scanner of the expansion report. How much brace depth a line adds and
 which macro an item belongs to are parameters: what is proved of line ranges holds
 whatever they answer.
 */
module ExpandScan {
  import opened Wrappers
  import opened Text

  datatype Origin = Endpoint | Schema | Config | Dependency | Error | Middleware | Serde | StdDerive | Handwritten {
    predicate IsMoso() {
      Endpoint? || Schema? || Config? || Dependency? || Error? || Middleware?
    }
  }

  /** One item: its lines are numbered from 1, the last one included. */
  datatype Item = Item(module_: string, header: string, start: nat, end: nat, origin: Origin, subject: Option<string>) {
    function Lines(): nat {
      (if end >= start then end - start else 0) + 1
    }
  }

  type Attribution = (Origin, Option<string>)

  /** The two questions the scanner asks: a line's net braces, and a declaration's origin. */
  datatype Oracle = Oracle(delta: string -> int, attribute: (string, string) -> Attribution)

  /** An open module: its path, and the depth inside it. */
  type Modules = seq<(string, int)>

  // ----- Reading one line

  predicate EndsItem(line: string) {
    var trimmed := TrimEnd(line);
    EndsWith(trimmed, ";") || EndsWith(trimmed, "}")
  }

  function TrimOpening(s: string): string {
    if s != "" && (s[|s| - 1] == '{' || s[|s| - 1] == ' ') then TrimOpening(s[..|s| - 1]) else s
  }

  /** `module_name`: an inline module with a one-word name, as its opening line declares it. */
  function ModuleName(trimmed: string): Option<string> {
    if !(StartsWith(trimmed, "pub mod ") || StartsWith(trimmed, "mod ")) || !EndsWith(trimmed, "{") then None
    else
      var rest := if StartsWith(trimmed, "pub mod ") then trimmed[8..] else trimmed[4..];
      var name := Trim(TrimOpening(rest));
      if name == "" || ' ' in name then None else Some(name)
  }

  predicate IsClosing(trimmed: string) {
    StartsWith(trimmed, "}") || StartsWith(trimmed, ")")
  }

  predicate IsAttribute(trimmed: string) {
    StartsWith(trimmed, "#[") || StartsWith(trimmed, "#![") || StartsWith(trimmed, "//")
  }

  function JoinLines(lines: seq<string>): string {
    if lines == [] then "" else if |lines| == 1 then lines[0] else lines[0] + "\n" + JoinLines(lines[1..])
  }

  /** The declaration: an item's text from its own first line up to its opening brace. */
  function DeclOf(signature: string, trimmed: string): string {
    var decl := Trim(Split(signature, "{")[0]);
    if decl == "" then trimmed else decl
  }

  // ----- The scanner as a function of where it stands

  /** Modules left behind once the depth has fallen below them. */
  function Open(modules: Modules, depth: int): (open: Modules)
    ensures |open| <= |modules|
  {
    if modules != [] && depth < modules[|modules| - 1].1 then Open(modules[..|modules| - 1], depth) else modules
  }

  function ItemDepth(open: Modules): int {
    if open == [] then 0 else open[|open| - 1].1
  }

  function PathOf(open: Modules): string {
    if open == [] then "" else open[|open| - 1].0
  }

  /** Where an item that is being read at `line` ends, and the depth after it. */
  function ItemEnd(lines: seq<string>, line: nat, depth: int, itemDepth: int, oracle: Oracle): (r: (nat, int))
    requires line < |lines|
    ensures line <= r.0 < |lines|
    decreases |lines| - line
  {
    var after := depth + oracle.delta(lines[line]);
    if (after <= itemDepth && EndsItem(TrimEnd(lines[line]))) || line + 1 >= |lines| then (line, after)
    else ItemEnd(lines, line + 1, after, itemDepth, oracle)
  }

  function ItemOf(lines: seq<string>, start: nat, index: nat, end: nat, open: Modules, oracle: Oracle): Item
    requires start <= index <= end < |lines|
  {
    var trimmed := Trim(lines[index]);
    var (origin, subject) :=
      oracle.attribute(DeclOf(JoinLines(lines[index..end + 1]), trimmed), JoinLines(lines[start..end + 1]));
    Item(PathOf(open), trimmed, start + 1, end + 1, origin, subject)
  }

  /** What a line is to the scanner, at its depth. */
  datatype Role = Passed | Attribute | Opens(name: string) | Starts

  function RoleOf(line: string, depth: int, itemDepth: int): Role {
    var trimmed := Trim(line);
    if trimmed == "" || depth != itemDepth || IsClosing(trimmed) then Passed
    else if IsAttribute(trimmed) then Attribute
    else
      match ModuleName(trimmed)
      case Some(name) => Opens(name)
      case None => Starts
  }

  function ChildPath(open: Modules, name: string): string {
    if open == [] then name else PathOf(open) + "::" + name
  }

  function ScanFrom(
      lines: seq<string>, index: nat, depth: int, modules: Modules, pending: Option<nat>, oracle: Oracle): seq<Item>
    requires pending.Some? ==> pending.value < index
    decreases |lines| - index
  {
    if index >= |lines| then []
    else
      var open := Open(modules, depth);
      var after := depth + oracle.delta(lines[index]);
      match RoleOf(lines[index], depth, ItemDepth(open))
      case Passed => ScanFrom(lines, index + 1, after, open, pending, oracle)
      case Attribute =>
        ScanFrom(lines, index + 1, after, open, if pending.None? then Some(index) else pending, oracle)
      case Opens(name) => ScanFrom(lines, index + 1, after, open + [(ChildPath(open, name), after)], None, oracle)
      case Starts =>
        var (end, closed) := ItemEnd(lines, index, depth, ItemDepth(open), oracle);
        var start := if pending.Some? then pending.value else index;
        [ItemOf(lines, start, index, end, open, oracle)] + ScanFrom(lines, end + 1, closed, open, None, oracle)
  }

  // ----- The scanner

  method ReadItem(lines: seq<string>, index: nat, startDepth: int, itemDepth: int, oracle: Oracle)
    returns (end: nat, depth: int)
    requires index < |lines|
    ensures (end, depth) == ItemEnd(lines, index, startDepth, itemDepth, oracle)
  {
    end, depth := index, startDepth;
    while true
      invariant index <= end < |lines|
      invariant ItemEnd(lines, end, depth, itemDepth, oracle) == ItemEnd(lines, index, startDepth, itemDepth, oracle)
      decreases |lines| - end
    {
      depth := depth + oracle.delta(lines[end]);
      var closed := depth <= itemDepth && EndsItem(TrimEnd(lines[end]));
      if closed || end + 1 >= |lines| {
        break;
      }
      end := end + 1;
    }
  }

  method LeaveModules(before: Modules, depth: int) returns (modules: Modules)
    ensures modules == Open(before, depth)
  {
    modules := before;
    while modules != [] && depth < modules[|modules| - 1].1
      invariant Open(modules, depth) == Open(before, depth)
    {
      modules := modules[..|modules| - 1];
    }
  }

  /** `scan`, before its heuristics: items appended while the index moves over their lines. */
  method Scan(lines: seq<string>, oracle: Oracle) returns (items: seq<Item>)
    ensures items == ScanFrom(lines, 0, 0, [], None, oracle)
    ensures Placed(items, 0, |lines|)
  {
    hide RoleOf, ItemOf, ItemEnd, Open, ItemDepth, ChildPath, Placed;
    items := [];
    var modules: Modules := [];
    var depth := 0;
    var pendingStart: Option<nat> := None;
    var index: nat := 0;
    while index < |lines|
      invariant index <= |lines| && (pendingStart.Some? ==> pendingStart.value < index)
      invariant items + ScanFrom(lines, index, depth, modules, pendingStart, oracle)
             == ScanFrom(lines, 0, 0, [], None, oracle)
      decreases |lines| - index
    {
      var line := lines[index];
      OpenTwice(lines, index, depth, modules, pendingStart, oracle);
      modules := LeaveModules(modules, depth);
      OpenAgain(modules, depth);
      var itemDepth := ItemDepth(modules);
      match RoleOf(line, depth, itemDepth)
      case Passed =>
        depth := depth + oracle.delta(line);
        index := index + 1;
      case Attribute =>
        if pendingStart.None? {
          pendingStart := Some(index);
        }
        depth := depth + oracle.delta(line);
        index := index + 1;
      case Opens(name) =>
        var path := ChildPath(modules, name);
        depth := depth + oracle.delta(line);
        modules := modules + [(path, depth)];
        pendingStart := None;
        index := index + 1;
      case Starts =>
        var start := if pendingStart.Some? then pendingStart.value else index;
        pendingStart := None;
        var end: nat;
        end, depth := ReadItem(lines, index, depth, itemDepth, oracle);
        var item := ItemOf(lines, start, index, end, modules, oracle);
        Regroup(items, [item], ScanFrom(lines, end + 1, depth, modules, None, oracle));
        items := items + [item];
        index := end + 1;
    }
    assert items + [] == items;
    ScanPlaces(lines, 0, 0, [], None, oracle);
  }

  lemma OpenAgain(modules: Modules, depth: int)
    ensures Open(Open(modules, depth), depth) == Open(modules, depth)
  {
  }

  /** Leaving modules behind early changes nothing: the scanner would leave them itself. */
  lemma OpenTwice(lines: seq<string>, index: nat, depth: int, modules: Modules, pending: Option<nat>, oracle: Oracle)
    requires pending.Some? ==> pending.value < index
    ensures ScanFrom(lines, index, depth, modules, pending, oracle) ==
            ScanFrom(lines, index, depth, Open(modules, depth), pending, oracle)
  {
    hide Open, RoleOf, ItemOf, ItemEnd, ChildPath;
    OpenAgain(modules, depth);
  }

  // ----- Line ranges

  /** The items' line ranges lie after line `above` and up to line `last`, in order and apart. */
  ghost predicate Placed(items: seq<Item>, above: nat, last: nat) {
    && (forall i | 0 <= i < |items| :: above < items[i].start <= items[i].end <= last)
    && (forall i, j | 0 <= i < j < |items| :: items[i].end < items[j].start)
  }

  lemma PlacedCons(item: Item, rest: seq<Item>, above: nat, last: nat)
    requires above < item.start <= item.end <= last && Placed(rest, item.end, last)
    ensures Placed([item] + rest, above, last)
  {
    var items := [item] + rest;
    forall i | 0 <= i < |items| ensures above < items[i].start <= items[i].end <= last {
      assert i > 0 ==> items[i] == rest[i - 1];
    }
    forall i, j | 0 <= i < j < |items| ensures items[i].end < items[j].start {
      assert items[j] == rest[j - 1];
      assert i > 0 ==> items[i] == rest[i - 1];
    }
  }

  /** Whatever the oracle answers, items are in bounds, ordered and disjoint. */
  lemma {:induction false} ScanPlaces(
      lines: seq<string>, index: nat, depth: int, modules: Modules, pending: Option<nat>, oracle: Oracle)
    requires index <= |lines| && (pending.Some? ==> pending.value < index)
    ensures Placed(ScanFrom(lines, index, depth, modules, pending, oracle),
                   if pending.Some? then pending.value else index, |lines|)
    decreases |lines| - index
  {
    hide RoleOf, ItemEnd, Open, Placed, ItemOf, ChildPath;
    if index >= |lines| {
      PlacedNothing(|lines|);
    } else {
      var open := Open(modules, depth);
      var after := depth + oracle.delta(lines[index]);
      match RoleOf(lines[index], depth, ItemDepth(open))
      case Passed =>
        ScanPlaces(lines, index + 1, after, open, pending, oracle);
        PlacedWider(ScanFrom(lines, index + 1, after, open, pending, oracle), index, |lines|);
      case Attribute =>
        ScanPlaces(lines, index + 1, after, open, if pending.None? then Some(index) else pending, oracle);
      case Opens(name) =>
        var inside := open + [(ChildPath(open, name), after)];
        ScanPlaces(lines, index + 1, after, inside, None, oracle);
        PlacedWider(ScanFrom(lines, index + 1, after, inside, None, oracle), index, |lines|);
        if pending.Some? {
          PlacedLower(ScanFrom(lines, index + 1, after, inside, None, oracle), pending.value, index, |lines|);
        }
      case Starts =>
        var (end, closed) := ItemEnd(lines, index, depth, ItemDepth(open), oracle);
        ScanPlaces(lines, end + 1, closed, open, None, oracle);
        var start := if pending.Some? then pending.value else index;
        ItemPlace(lines, start, index, end, open, oracle);
        PlacedCons(ItemOf(lines, start, index, end, open, oracle),
                   ScanFrom(lines, end + 1, closed, open, None, oracle), start, |lines|);
    }
  }

  lemma ItemPlace(lines: seq<string>, start: nat, index: nat, end: nat, open: Modules, oracle: Oracle)
    requires start <= index <= end < |lines|
    ensures ItemOf(lines, start, index, end, open, oracle).start == start + 1
    ensures ItemOf(lines, start, index, end, open, oracle).end == end + 1
  {
  }

  lemma PlacedNothing(last: nat)
    ensures forall above :: Placed([], above, last)
  {
  }

  lemma PlacedWider(items: seq<Item>, index: nat, last: nat)
    ensures Placed(items, index + 1, last) ==> Placed(items, index, last)
  {
  }

  lemma PlacedLower(items: seq<Item>, lower: nat, above: nat, last: nat)
    requires lower <= above && Placed(items, above, last)
    ensures Placed(items, lower, last)
  {
  }

  // ----- Well-formed expansions

  /** An expansion as nested modules and items, in order. */
  datatype Source =
    | End
    | BlankThen(line: string, rest: Source)
    | ItemThen(attributes: seq<string>, body: seq<string>, rest: Source)
    | ModuleThen(attributes: seq<string>, header: string, inner: Source, closing: string, rest: Source)
  {
    function Text(): seq<string> {
      match this
      case End => []
      case BlankThen(line, rest) => [line] + rest.Text()
      case ItemThen(attributes, body, rest) => attributes + body + rest.Text()
      case ModuleThen(attributes, header, inner, closing, rest) =>
        attributes + ([header] + inner.Text() + [closing] + rest.Text())
    }

    /** Lines are what they stand for, braces balance, and no item looks finished before its last line. */
    ghost predicate WellFormed(oracle: Oracle) {
      match this
      case End => true
      case BlankThen(line, rest) => Trim(line) == "" && oracle.delta(line) == 0 && rest.WellFormed(oracle)
      case ItemThen(attributes, body, rest) =>
        && AttributeLines(attributes, oracle) && ItemLines(body, oracle)
        && rest.WellFormed(oracle)
      case ModuleThen(attributes, header, inner, closing, rest) =>
        && AttributeLines(attributes, oracle)
        && RoleOf(header, 0, 0).Opens? && oracle.delta(header) == 1
        && IsClosing(Trim(closing)) && oracle.delta(closing) == -1
        && inner.WellFormed(oracle) && rest.WellFormed(oracle)
    }

    /** The items it holds, from line `at` of a module: each with its attributes, its path and its own text. */
    function Items(path: string, at: nat, oracle: Oracle): seq<Item> {
      match this
      case End => []
      case BlankThen(_, rest) => rest.Items(path, at + 1, oracle)
      case ItemThen(attributes, body, rest) =>
        var header := if body == [] then "" else Trim(body[0]);
        var (origin, subject) :=
          oracle.attribute(DeclOf(JoinLines(body), header), JoinLines(attributes + body));
        var next := at + |attributes| + |body|;
        [Item(path, header, at + 1, next, origin, subject)] + rest.Items(path, next, oracle)
      case ModuleThen(attributes, header, inner, _, rest) =>
        var name := if ModuleName(Trim(header)).Some? then ModuleName(Trim(header)).value else "";
        inner.Items(if path == "" then name else path + "::" + name, at + |attributes| + 1, oracle)
        + rest.Items(path, at + |attributes| + 2 + |inner.Text()|, oracle)
    }
  }

  ghost predicate AttributeLines(lines: seq<string>, oracle: Oracle) {
    forall i | 0 <= i < |lines| :: RoleOf(lines[i], 0, 0) == Attribute && oracle.delta(lines[i]) == 0
  }

  /** The brace depth the first `k` lines add. */
  function DepthOf(lines: seq<string>, k: nat, oracle: Oracle): int
    requires k <= |lines|
  {
    if k == 0 then 0 else DepthOf(lines, k - 1, oracle) + oracle.delta(lines[k - 1])
  }

  /** An item's own lines: the last is the first at which the braces are closed and the text can end. */
  ghost predicate ItemLines(body: seq<string>, oracle: Oracle) {
    && body != [] && RoleOf(body[0], 0, 0) == Starts
    && (forall k | 0 < k < |body| :: !(DepthOf(body, k, oracle) <= 0 && EndsItem(TrimEnd(body[k - 1]))))
    && DepthOf(body, |body|, oracle) == 0 && EndsItem(TrimEnd(body[|body| - 1]))
  }

  lemma RoleAnywhere(line: string, depth: int)
    ensures RoleOf(line, depth, depth) == RoleOf(line, 0, 0)
  {
  }

  lemma OpenHere(open: Modules)
    ensures Open(open, ItemDepth(open)) == open
  {
  }

  /** `part` stands in `lines` from `index` on. */
  ghost predicate At(lines: seq<string>, index: nat, part: seq<string>) {
    index + |part| <= |lines| && lines[index..index + |part|] == part
  }

  lemma AtSplit(lines: seq<string>, index: nat, a: seq<string>, b: seq<string>)
    requires At(lines, index, a + b)
    ensures At(lines, index, a) && At(lines, index + |a|, b)
  {
    var both := lines[index..index + |a + b|];
    assert lines[index..index + |a|] == both[..|a|];
    assert lines[index + |a|..index + |a| + |b|] == both[|a|..];
  }

  lemma AtLine(lines: seq<string>, index: nat, part: seq<string>, k: nat)
    requires At(lines, index, part) && k < |part|
    ensures index + k < |lines| && lines[index + k] == part[k]
  {
    assert lines[index + k] == lines[index..index + |part|][k];
  }

  lemma {:induction false} ItemEndsThere(
      lines: seq<string>, index: nat, body: seq<string>, k: nat, depth: int, oracle: Oracle)
    requires ItemLines(body, oracle) && k < |body| && At(lines, index, body)
    ensures index + |body| <= |lines|
    ensures ItemEnd(lines, index + k, depth + DepthOf(body, k, oracle), depth, oracle) == (index + |body| - 1, depth)
    decreases |body| - k
  {
    hide EndsItem, RoleOf;
    AtLine(lines, index, body, k);
    var after := depth + DepthOf(body, k + 1, oracle);
    assert after == depth + DepthOf(body, k, oracle) + oracle.delta(lines[index + k]);
    if k + 1 < |body| {
      ItemEndsThere(lines, index, body, k + 1, depth, oracle);
    }
  }

  lemma {:induction false} ScanAttributes(
      lines: seq<string>, index: nat, attributes: seq<string>, open: Modules, pending: Option<nat>, oracle: Oracle)
    requires AttributeLines(attributes, oracle) && (pending.Some? ==> pending.value < index)
    requires At(lines, index, attributes)
    ensures ScanFrom(lines, index, ItemDepth(open), open, pending, oracle) ==
            ScanFrom(lines, index + |attributes|, ItemDepth(open), open,
                     if pending.None? && attributes != [] then Some(index) else pending, oracle)
    decreases |attributes|
  {
    hide RoleOf, Open, ItemOf, ItemEnd, At;
    if attributes != [] {
      OpenHere(open);
      AtLine(lines, index, attributes, 0);
      RoleAnywhere(lines[index], ItemDepth(open));
      assert [attributes[0]] + attributes[1..] == attributes;
      AtSplit(lines, index, [attributes[0]], attributes[1..]);
      ScanAttributes(lines, index + 1, attributes[1..], open, if pending.None? then Some(index) else pending, oracle);
    }
  }

  lemma ScanItem(
      lines: seq<string>, index: nat, attributes: seq<string>, body: seq<string>, open: Modules, oracle: Oracle)
    requires AttributeLines(attributes, oracle) && ItemLines(body, oracle)
    requires At(lines, index, attributes + body)
    ensures var next := index + |attributes| + |body|;
            && next <= |lines|
            && ScanFrom(lines, index, ItemDepth(open), open, None, oracle) ==
               [ItemOf(lines, index, index + |attributes|, next - 1, open, oracle)]
               + ScanFrom(lines, next, ItemDepth(open), open, None, oracle)
  {
    hide RoleOf, Open, ItemOf, ItemEnd, EndsItem, At, AttributeLines;
    AtSplit(lines, index, attributes, body);
    ScanAttributes(lines, index, attributes, open, None, oracle);
    ScanBody(lines, index, index + |attributes|, body, open, oracle);
  }

  lemma ScanBody(
      lines: seq<string>, start: nat, from: nat, body: seq<string>, open: Modules, oracle: Oracle)
    requires ItemLines(body, oracle) && At(lines, from, body) && start <= from
    ensures var next := from + |body|;
            && next <= |lines|
            && ScanFrom(lines, from, ItemDepth(open), open, if start < from then Some(start) else None, oracle) ==
               [ItemOf(lines, start, from, next - 1, open, oracle)]
               + ScanFrom(lines, next, ItemDepth(open), open, None, oracle)
  {
    hide RoleOf, Open, ItemOf, ItemEnd, EndsItem, At;
    OpenHere(open);
    AtLine(lines, from, body, 0);
    RoleAnywhere(lines[from], ItemDepth(open));
    ItemEndsThere(lines, from, body, 0, ItemDepth(open), oracle);
  }

  lemma ItemAsWritten(
      lines: seq<string>, index: nat, attributes: seq<string>, body: seq<string>, open: Modules, oracle: Oracle)
    requires body != [] && At(lines, index, attributes + body)
    ensures var next := index + |attributes| + |body|;
            var (origin, subject) :=
              oracle.attribute(DeclOf(JoinLines(body), Trim(body[0])), JoinLines(attributes + body));
            && next <= |lines|
            && ItemOf(lines, index, index + |attributes|, next - 1, open, oracle) ==
               Item(PathOf(open), Trim(body[0]), index + 1, next, origin, subject)
  {
    hide JoinLines, DeclOf, Trim, At;
    ItemSlices(lines, index, attributes, body);
  }

  lemma ItemSlices(lines: seq<string>, index: nat, attributes: seq<string>, body: seq<string>)
    requires body != [] && At(lines, index, attributes + body)
    ensures var from, next := index + |attributes|, index + |attributes| + |body|;
            && next <= |lines| && lines[from] == body[0]
            && lines[from..next] == body && lines[index..next] == attributes + body
  {
    AtSplit(lines, index, attributes, body);
    AtLine(lines, index + |attributes|, body, 0);
  }

  /** A module's header line opens it, and what stood in front of it is forgotten. */
  lemma ScanHeader(lines: seq<string>, index: nat, open: Modules, pending: Option<nat>, oracle: Oracle)
    requires pending.Some? ==> pending.value < index
    requires index < |lines| && RoleOf(lines[index], 0, 0).Opens? && oracle.delta(lines[index]) == 1
    ensures var name := RoleOf(lines[index], 0, 0).name;
            var inside := open + [(ChildPath(open, name), ItemDepth(open) + 1)];
            && ModuleName(Trim(lines[index])) == Some(name) && name != ""
            && ItemDepth(inside) == ItemDepth(open) + 1 && PathOf(inside) == ChildPath(open, name)
            && ScanFrom(lines, index, ItemDepth(open), open, pending, oracle) ==
               ScanFrom(lines, index + 1, ItemDepth(inside), inside, None, oracle)
  {
    hide Open, ItemOf, ItemEnd, Trim, IsAttribute, IsClosing;
    OpenHere(open);
    RoleAnywhere(lines[index], ItemDepth(open));
  }

  /** After a module's closing line the scanner is back outside. */
  lemma ScanClosing(lines: seq<string>, index: nat, open: Modules, path: string, oracle: Oracle)
    requires index < |lines| && IsClosing(Trim(lines[index])) && oracle.delta(lines[index]) == -1
    ensures var inside := open + [(path, ItemDepth(open) + 1)];
            ScanFrom(lines, index, ItemDepth(inside), inside, None, oracle) ==
            ScanFrom(lines, index + 1, ItemDepth(open), open, None, oracle)
  {
    hide ItemOf, ItemEnd, Trim, IsAttribute, ModuleName;
    var inside := open + [(path, ItemDepth(open) + 1)];
    assert inside[..|inside| - 1] == open;
    OpenHere(inside);
    OpenHere(open);
    LeaveOne(lines, index + 1, open, path, oracle);
  }

  lemma LeaveOne(lines: seq<string>, index: nat, open: Modules, path: string, oracle: Oracle)
    ensures ScanFrom(lines, index, ItemDepth(open), open + [(path, ItemDepth(open) + 1)], None, oracle) ==
            ScanFrom(lines, index, ItemDepth(open), open, None, oracle)
  {
    hide RoleOf, ItemOf, ItemEnd;
    var inside := open + [(path, ItemDepth(open) + 1)];
    assert inside[..|inside| - 1] == open;
    assert Open(inside, ItemDepth(open)) == Open(open, ItemDepth(open));
  }

  lemma ScanBlank(lines: seq<string>, index: nat, open: Modules, oracle: Oracle)
    requires index < |lines| && Trim(lines[index]) == "" && oracle.delta(lines[index]) == 0
    ensures ScanFrom(lines, index, ItemDepth(open), open, None, oracle) ==
            ScanFrom(lines, index + 1, ItemDepth(open), open, None, oracle)
  {
    hide ItemOf, ItemEnd, Trim, Open;
    OpenHere(open);
  }

  /** On a well-formed stretch the scanner finds its items, and stands after it as it stood before it. */
  ghost predicate Recovered(lines: seq<string>, source: Source, index: nat, open: Modules, oracle: Oracle) {
    ScanFrom(lines, index, ItemDepth(open), open, None, oracle) ==
    source.Items(PathOf(open), index, oracle)
    + ScanFrom(lines, index + |source.Text()|, ItemDepth(open), open, None, oracle)
  }

  lemma {:induction false} ScanSource(lines: seq<string>, source: Source, index: nat, open: Modules, oracle: Oracle)
    requires source.WellFormed(oracle) && (PathOf(open) == "" <==> open == [])
    requires At(lines, index, source.Text())
    ensures Recovered(lines, source, index, open, oracle)
    decreases source
  {
    hide ScanFrom, RoleOf, Trim, ItemLines, AttributeLines, IsClosing, At, Recovered, Source.Items;
    match source
    case End => RecoveredEnd(lines, index, open, oracle);
    case BlankThen(line, rest) =>
      AtLine(lines, index, source.Text(), 0);
      AtSplit(lines, index, [line], rest.Text());
      ScanSource(lines, rest, index + 1, open, oracle);
      ScanBlankThen(lines, source, index, open, oracle);
    case ItemThen(attributes, body, rest) =>
      AtSplit(lines, index, attributes + body, rest.Text());
      ScanSource(lines, rest, index + |attributes + body|, open, oracle);
      ScanItemThen(lines, source, index, open, oracle);
    case ModuleThen(attributes, header, inner, closing, rest) =>
      ModuleLines(lines, source, index);
      var at := index + |attributes|;
      OpenedPath(open, header);
      ScanSource(lines, inner, at + 1, Inside(open, header), oracle);
      ScanSource(lines, rest, at + 2 + |inner.Text()|, open, oracle);
      ScanModuleThen(lines, source, index, open, oracle);
  }

  lemma RecoveredEnd(lines: seq<string>, index: nat, open: Modules, oracle: Oracle)
    ensures Recovered(lines, End, index, open, oracle)
  {
    hide ScanFrom;
  }

  lemma ScanBlankThen(lines: seq<string>, source: Source, index: nat, open: Modules, oracle: Oracle)
    requires source.BlankThen? && Trim(source.line) == "" && oracle.delta(source.line) == 0
    requires index < |lines| && lines[index] == source.line
    requires Recovered(lines, source.rest, index + 1, open, oracle)
    ensures Recovered(lines, source, index, open, oracle)
  {
    hide ScanFrom, Trim;
    ScanBlank(lines, index, open, oracle);
  }

  lemma OpenedPath(open: Modules, header: string)
    requires RoleOf(header, 0, 0).Opens? && (PathOf(open) == "" <==> open == [])
    ensures PathOf(Inside(open, header)) != "" && Inside(open, header) != []
    ensures ModuleName(Trim(header)) == Some(RoleOf(header, 0, 0).name)
  {
    hide Trim, IsAttribute, IsClosing;
  }

  /** The modules open after a module's header line. */
  ghost function Inside(open: Modules, header: string): Modules
    requires RoleOf(header, 0, 0).Opens?
  {
    open + [(ChildPath(open, RoleOf(header, 0, 0).name), ItemDepth(open) + 1)]
  }

  lemma ScanItemThen(lines: seq<string>, source: Source, index: nat, open: Modules, oracle: Oracle)
    requires source.ItemThen? && AttributeLines(source.attributes, oracle) && ItemLines(source.body, oracle)
    requires At(lines, index, source.attributes + source.body)
    requires Recovered(lines, source.rest, index + |source.attributes + source.body|, open, oracle)
    ensures Recovered(lines, source, index, open, oracle)
  {
    hide ScanFrom, RoleOf, ItemOf, Trim, AttributeLines, JoinLines, DeclOf, At;
    ScanItem(lines, index, source.attributes, source.body, open, oracle);
    ItemAsWritten(lines, index, source.attributes, source.body, open, oracle);
  }

  lemma ScanModuleThen(lines: seq<string>, source: Source, index: nat, open: Modules, oracle: Oracle)
    requires source.ModuleThen? && (PathOf(open) == "" <==> open == []) && AttributeLines(source.attributes, oracle)
    requires RoleOf(source.header, 0, 0).Opens? && oracle.delta(source.header) == 1
    requires IsClosing(Trim(source.closing)) && oracle.delta(source.closing) == -1
    requires At(lines, index, source.Text())
    requires var at := index + |source.attributes|;
             && Recovered(lines, source.inner, at + 1, Inside(open, source.header), oracle)
             && Recovered(lines, source.rest, at + 2 + |source.inner.Text()|, open, oracle)
    ensures Recovered(lines, source, index, open, oracle)
  {
    hide ScanFrom, RoleOf, Trim, IsClosing, ModuleName, At, AttributeLines, Source.Items, Source.Text, Open;
    var at := index + |source.attributes|;
    ModuleLines(lines, source, index);
    ModuleLength(source);
    ScanAttributes(lines, index, source.attributes, open, None, oracle);
    ScanHeader(lines, at, open, if source.attributes != [] then Some(index) else None, oracle);
    ScanClosing(lines, at + 1 + |source.inner.Text()|, open, ChildPath(open, RoleOf(source.header, 0, 0).name), oracle);
    ModuleItems(source, open, index, oracle);
    Regroup(source.inner.Items(PathOf(Inside(open, source.header)), at + 1, oracle),
            source.rest.Items(PathOf(open), at + 2 + |source.inner.Text()|, oracle),
            ScanFrom(lines, index + |source.Text()|, ItemDepth(open), open, None, oracle));
  }

  lemma ModuleLength(source: Source)
    requires source.ModuleThen?
    ensures |source.Text()| == |source.attributes| + 2 + |source.inner.Text()| + |source.rest.Text()|
  {
  }

  lemma ModuleItems(source: Source, open: Modules, index: nat, oracle: Oracle)
    requires source.ModuleThen? && (PathOf(open) == "" <==> open == [])
    requires RoleOf(source.header, 0, 0).Opens?
    ensures var at := index + |source.attributes|;
            source.Items(PathOf(open), index, oracle) ==
            source.inner.Items(PathOf(Inside(open, source.header)), at + 1, oracle)
            + source.rest.Items(PathOf(open), at + 2 + |source.inner.Text()|, oracle)
  {
    hide Trim, ModuleName, IsAttribute, IsClosing;
  }

  lemma ModuleLines(lines: seq<string>, source: Source, index: nat)
    requires source.ModuleThen? && At(lines, index, source.Text())
    ensures var at := index + |source.attributes|;
            var shut := at + 1 + |source.inner.Text()|;
            && At(lines, index, source.attributes)
            && shut < |lines| && lines[at] == source.header && lines[shut] == source.closing
            && At(lines, at + 1, source.inner.Text()) && At(lines, shut + 1, source.rest.Text())
  {
    hide At;
    AtSplit(lines, index, source.attributes,
            [source.header] + source.inner.Text() + [source.closing] + source.rest.Text());
    ModuleParts(lines, index + |source.attributes|, source.header, source.inner.Text(), source.closing, source.rest.Text());
  }

  lemma ModuleParts(
      lines: seq<string>, at: nat, header: string, inner: seq<string>, closing: string, rest: seq<string>)
    requires At(lines, at, [header] + inner + [closing] + rest)
    ensures var shut := at + 1 + |inner|;
            && shut < |lines| && lines[at] == header && lines[shut] == closing
            && At(lines, at + 1, inner) && At(lines, shut + 1, rest)
  {
    hide At;
    AtSplit(lines, at, [header] + inner + [closing], rest);
    AtSplit(lines, at, [header] + inner, [closing]);
    AtSplit(lines, at, [header], inner);
    AtLine(lines, at, [header], 0);
    AtLine(lines, at + 1 + |inner|, [closing], 0);
  }

  /** A well-formed expansion is scanned into exactly its items: nested modules, attributes and line numbers included. */
  lemma ScanRecovers(source: Source, oracle: Oracle)
    requires source.WellFormed(oracle)
    ensures ScanFrom(source.Text(), 0, 0, [], None, oracle) == source.Items("", 0, oracle)
  {
    hide RoleOf, Open, ItemOf, ItemEnd;
    var lines := source.Text();
    assert lines[0..|lines|] == lines;
    ScanSource(lines, source, 0, [], oracle);
    assert ScanFrom(lines, |lines|, 0, [], None, oracle) == [];
  }
}
