/**
 What the expansion report does with scanned items: relabelling those whose origin
 their neighbours decide, and adding up the lines each macro is charged with.
 */
module ExpandMeasure {
  import opened Wrappers
  import opened Text
  import opened ExpandScan
  import opened Workspace

  const SCHEMA_IMPL := "::moso::__private::Schema for"
  const DESCRIBE_IMPL := "::moso::__private::Describe for"
  const ASSERTION := "const _: ()"

  // ----- Relabelling, as functions of the items

  function SchemaTypes(items: seq<Item>): set<string> {
    set i | 0 <= i < |items| && Occurs(items[i].header, SCHEMA_IMPL) && items[i].subject.Some? :: items[i].subject.value
  }

  function DescribedItem(item: Item, schemaTypes: set<string>): Item {
    if Occurs(item.header, DESCRIBE_IMPL) && (item.subject.None? || item.subject.value !in schemaTypes)
    then item.(origin := Error)
    else item
  }

  /** A `Describe` impl of a type without a `Schema` impl comes from the error derive. */
  function Described(items: seq<Item>): (r: seq<Item>)
    ensures |r| == |items|
  {
    seq(|items|, i requires 0 <= i < |items| => DescribedItem(items[i], SchemaTypes(items)))
  }

  predicate IsAssertion(item: Item) {
    StartsWith(item.header, ASSERTION) && item.origin == Endpoint && item.subject.None?
  }

  /** The last item among the first `k` that is not an assertion block. */
  function Previous(items: seq<Item>, k: nat): (r: Option<nat>)
    requires k <= |items|
    ensures r.Some? ==> r.value < k && !IsAssertion(items[r.value])
    ensures forall i :: (if r.Some? then r.value else -1) < i < k ==> IsAssertion(items[i])
  {
    if k == 0 then None
    else if IsAssertion(items[k - 1]) then Previous(items, k - 1)
    else Some(k - 1)
  }

  function AssertedItem(item: Item, previous: Option<Attribution>): Item {
    if IsAssertion(item) && previous.Some? && previous.value.0.IsMoso()
    then item.(origin := previous.value.0, subject := previous.value.1)
    else item
  }

  function AttributionAt(items: seq<Item>, at: Option<nat>): Option<Attribution>
    requires at.Some? ==> at.value < |items|
  {
    if at.Some? then Some((items[at.value].origin, items[at.value].subject)) else None
  }

  /** An assertion block takes the origin of the item before it, if that is one of ours. */
  function Asserted(items: seq<Item>): (r: seq<Item>)
    ensures |r| == |items|
  {
    seq(|items|, i requires 0 <= i < |items| => AssertedItem(items[i], AttributionAt(items, Previous(items, i))))
  }

  /** `trim_end_matches("Layer")`. */
  function TrimLayer(name: string): string {
    if EndsWith(name, "Layer") then TrimLayer(name[..|name| - 5]) else name
  }

  function ServiceOf(layer: string): string {
    TrimLayer(layer) + "Service"
  }

  function Layers(items: seq<Item>): set<string> {
    set i | 0 <= i < |items| && items[i].origin == Middleware && items[i].subject.Some? :: items[i].subject.value
  }

  /** The layers in order, then their services in order. */
  function Names(items: seq<Item>): seq<string> {
    var layers := Layers(items);
    InOrder(layers) + InOrder(set layer | layer in layers :: ServiceOf(layer))
  }

  function FirstIn(names: seq<string>, header: string): (r: Option<nat>)
    ensures r.Some? ==> r.value < |names| && Occurs(header, names[r.value])
    ensures forall i :: 0 <= i < (if r.Some? then r.value else |names|) ==> !Occurs(header, names[i])
  {
    if names == [] then None
    else if Occurs(header, names[0]) then Some(0)
    else
      match FirstIn(names[1..], header)
      case Some(i) =>
        assert names[1..][i] == names[i + 1];
        Some(i + 1)
      case None => None
  }

  function LayeredItem(item: Item, names: seq<string>): Item {
    var first := FirstIn(names, item.header);
    if item.origin != Middleware && first.Some?
    then item.(origin := Middleware, subject := Some(names[first.value]))
    else item
  }

  /** Whatever names a layer or its service is the middleware's. */
  function Layered(items: seq<Item>): (r: seq<Item>)
    ensures |r| == |items|
  {
    seq(|items|, i requires 0 <= i < |items| => LayeredItem(items[i], Names(items)))
  }

  function Resolved(items: seq<Item>): (r: seq<Item>)
    ensures |r| == |items|
  {
    Layered(Asserted(Described(items)))
  }

  // ----- Relabelling in place

  method Describe(items: array<Item>)
    modifies items
    ensures items[..] == Described(old(items[..]))
  {
    var schemaTypes := SchemaTypes(items[..]);
    for k := 0 to items.Length
      invariant forall i | 0 <= i < k :: items[i] == DescribedItem(old(items[i]), schemaTypes)
      invariant forall i | k <= i < items.Length :: items[i] == old(items[i])
    {
      items[k] := DescribedItem(items[k], schemaTypes);
    }
  }

  method Assert(items: array<Item>)
    modifies items
    ensures items[..] == Asserted(old(items[..]))
  {
    hide Previous, IsAssertion, Asserted;
    ghost var was := items[..];
    var previous: Option<Attribution> := None;
    NoPrevious(was);
    for k := 0 to items.Length
      invariant forall i | 0 <= i < k :: items[i] == Asserted(was)[i]
      invariant forall i | k <= i < items.Length :: items[i] == was[i]
      invariant previous == AttributionAt(was, Previous(was, k))
    {
      AssertedStep(was, k);
      if IsAssertion(items[k]) {
        if previous.Some? && previous.value.0.IsMoso() {
          items[k] := items[k].(origin := previous.value.0, subject := previous.value.1);
        }
      } else {
        previous := Some((items[k].origin, items[k].subject));
      }
    }
  }

  lemma NoPrevious(items: seq<Item>)
    ensures Previous(items, 0) == None
  {
  }

  lemma AssertedStep(items: seq<Item>, k: nat)
    requires k < |items|
    ensures Asserted(items)[k] == AssertedItem(items[k], AttributionAt(items, Previous(items, k)))
    ensures Previous(items, k + 1) == if IsAssertion(items[k]) then Previous(items, k) else Some(k)
  {
  }

  method Layer(items: array<Item>)
    modifies items
    ensures items[..] == Layered(old(items[..]))
  {
    hide Occurs, Layers, Names, Layered;
    ghost var was := items[..];
    var layers := Layers(items[..]);
    if layers == {} {
      NothingLayered(was);
      return;
    }
    var names := Names(items[..]);
    for k := 0 to items.Length
      invariant forall i | 0 <= i < k :: items[i] == Layered(was)[i]
      invariant forall i | k <= i < items.Length :: items[i] == was[i]
    {
      LayeredAt(was, k);
      if items[k].origin != Middleware {
        var first := FirstIn(names, items[k].header);
        if first.Some? {
          items[k] := items[k].(origin := Middleware, subject := Some(names[first.value]));
        }
      }
    }
  }

  lemma NothingLayered(items: seq<Item>)
    requires Layers(items) == {}
    ensures Layered(items) == items
  {
    assert Names(items) == [];
  }

  lemma LayeredAt(items: seq<Item>, k: nat)
    requires k < |items|
    ensures Layered(items)[k] == LayeredItem(items[k], Names(items))
  {
  }

  /** `resolve_heuristics`. */
  method ResolveHeuristics(items: array<Item>)
    modifies items
    ensures items[..] == Resolved(old(items[..]))
  {
    Describe(items);
    Assert(items);
    Layer(items);
  }

  // ----- What relabelling keeps, and what it decides

  /** Relabelling touches origin and subject alone: no item moves or changes its text. */
  ghost predicate SamePlaces(a: seq<Item>, b: seq<Item>) {
    && |a| == |b|
    && forall i | 0 <= i < |a| :: a[i] == b[i].(origin := a[i].origin, subject := a[i].subject)
  }

  lemma ResolvedKeepsPlaces(items: seq<Item>)
    ensures SamePlaces(items, Resolved(items))
    ensures forall above, last :: Placed(items, above, last) <==> Placed(Resolved(items), above, last)
  {
    hide Occurs, Names, Previous, SchemaTypes, IsAssertion;
    var d := Described(items);
    var a := Asserted(d);
    var r := Layered(a);
    assert SamePlaces(items, d) && SamePlaces(d, a) && SamePlaces(a, r);
    assert SamePlaces(items, r);
  }

  /** A header that contains the name of a layer or of a layer's service. */
  ghost predicate Mentions(header: string, layers: set<string>) {
    exists layer | layer in layers :: Occurs(header, layer) || Occurs(header, ServiceOf(layer))
  }

  lemma FirstInFinds(names: seq<string>, header: string)
    ensures forall name | name in names && Occurs(header, name) :: FirstIn(names, header).Some?
  {
    hide Occurs, FirstIn;
  }

  lemma FirstInNames(items: seq<Item>, header: string)
    ensures FirstIn(Names(items), header).Some? <==> Mentions(header, Layers(items))
  {
    hide Occurs, ServiceOf, Layers;
    var layers := Layers(items);
    var services := set layer | layer in layers :: ServiceOf(layer);
    var a, b := InOrder(layers), InOrder(services);
    var names := Names(items);
    assert names == a + b;
    var first := FirstIn(names, header);
    if first.Some? {
      if first.value < |a| {
        assert names[first.value] in a;
      } else {
        assert names[first.value] == b[first.value - |a|] && names[first.value] in b;
      }
    } else if Mentions(header, layers) {
      var layer :| layer in layers && (Occurs(header, layer) || Occurs(header, ServiceOf(layer)));
      assert layer in a && ServiceOf(layer) in b;
      assert layer in names && ServiceOf(layer) in names;
      FirstInFinds(names, header);
    }
  }

  /** The second pass changes no layer: it only hands on an attribution that an earlier item has. */
  lemma LayersStay(items: seq<Item>)
    ensures Layers(Asserted(items)) == Layers(items)
  {
    var asserted := Asserted(items);
    forall i | 0 <= i < |items| && items[i].origin == Middleware && items[i].subject.Some?
      ensures items[i].subject.value in Layers(asserted)
    {
      assert asserted[i] == items[i];
    }
    forall i | 0 <= i < |items| && asserted[i].origin == Middleware && asserted[i].subject.Some?
      ensures asserted[i].subject.value in Layers(items)
    {
      if asserted[i] != items[i] {
        var item := items[Previous(items, i).value];
        assert asserted[i].origin == item.origin && asserted[i].subject == item.subject;
      }
    }
  }

  /**
   After relabelling, the middleware is charged for exactly the items that were its own and those whose header
   mentions one of its layers or their services.
   */
  lemma MiddlewareOwns(items: seq<Item>, i: nat)
    requires i < |items|
    ensures var before := Asserted(Described(items));
            Resolved(items)[i].origin == Middleware <==>
            before[i].origin == Middleware || Mentions(items[i].header, Layers(Described(items)))
  {
    hide Occurs, Mentions, Names, Layers, FirstIn, SchemaTypes, Previous, IsAssertion;
    var d := Described(items);
    var before := Asserted(d);
    assert before[i].header == d[i].header == items[i].header;
    FirstInNames(before, items[i].header);
    LayersStay(d);
    assert Resolved(items)[i] == LayeredItem(before[i], Names(before));
  }

  /**
   An assertion block ends with the origin of the item before it exactly when that item is one of ours already and
   both or neither mention a layer, or when both mention one: the block is labelled before the middleware's items are.
   */
  lemma AssertionFollows(items: seq<Item>, block: nat)
    requires block < |items| && IsAssertion(Described(items)[block])
    requires Previous(Described(items), block).Some?
    ensures var described := Described(items);
            var item := Previous(described, block).value;
            var layers := Layers(described);
            Resolved(items)[block].origin == Resolved(items)[item].origin <==>
            if described[item].origin.IsMoso()
            then described[item].origin == Middleware
                 || (Mentions(items[block].header, layers) <==> Mentions(items[item].header, layers))
            else Mentions(items[block].header, layers) && Mentions(items[item].header, layers)
  {
    hide Occurs, Mentions, Names, Layers, FirstIn, SchemaTypes, Previous, IsAssertion;
    var d := Described(items);
    var item := Previous(d, block).value;
    MiddlewareOwns(items, block);
    MiddlewareOwns(items, item);
    AssertedBlock(d, block);
    OriginOtherwise(items, block);
    OriginOtherwise(items, item);
  }

  lemma AssertedBlock(items: seq<Item>, block: nat)
    requires block < |items| && IsAssertion(items[block]) && Previous(items, block).Some?
    ensures var item := Previous(items, block).value;
            && Asserted(items)[item] == items[item]
            && Asserted(items)[block].origin == if items[item].origin.IsMoso() then items[item].origin else Endpoint
  {
    hide Previous;
  }

  lemma OriginOtherwise(items: seq<Item>, i: nat)
    requires i < |items|
    ensures var r := Resolved(items)[i].origin;
            r == Middleware || r == Asserted(Described(items))[i].origin
  {
    hide Described, Asserted, Names, FirstIn;
  }

  /** What a declaration contains when it is a middleware's `Layer` impl. */
  const LAYER_TRAIT := "::moso::__private::" + "tower::Layer<"

  const LAYER_IMPL := Item("", "impl<I> " + LAYER_TRAIT + "I> for AuthLayer {", 1, 3, Middleware, Some("AuthLayer"))
  const SERVICE := Item("", "pub struct AuthService;", 4, 4, Handwritten, None)
  const BLOCK := Item("", "const _: () = {", 5, 7, Endpoint, None)

  /** So a block after a middleware's service is left with the endpoint macro, though the service is the middleware's. */
  lemma AssertionMissed()
    ensures var r := Resolved([LAYER_IMPL, SERVICE, BLOCK]);
            r[1].origin == Middleware && r[2].origin == Endpoint
  {
    hide Resolved, Described, Asserted, Layers, Occurs, Mentions;
    var items := [LAYER_IMPL, SERVICE, BLOCK];
    MissedLabels(items);
    MissedNames();
    MiddlewareOwns(items, 1);
    MiddlewareOwns(items, 2);
    OriginOtherwise(items, 2);
  }

  lemma MissedLabels(items: seq<Item>)
    requires items == [LAYER_IMPL, SERVICE, BLOCK]
    ensures Described(items) == items && Asserted(items) == items && Layers(items) == {"AuthLayer"}
  {
    hide Occurs, SchemaTypes, StartsWith, IsAssertion, Previous, Layers, LAYER_TRAIT;
    LayerHeader();
    OtherHeaders();
    MissedBlock(items);
    MissedLayers(items);
  }

  lemma OtherHeaders()
    ensures !Occurs(SERVICE.header, DESCRIBE_IMPL) && !Occurs(BLOCK.header, DESCRIBE_IMPL)
  {
    hide Occurs;
    assert 'D' !in SERVICE.header;
    NotDescribed(SERVICE);
    assert 'D' !in BLOCK.header;
    NotDescribed(BLOCK);
  }

  lemma LayerHeader()
    ensures !Occurs(LAYER_IMPL.header, DESCRIBE_IMPL)
  {
    hide Occurs;
    LayerTrait();
    NotInEither("impl<I> ", LAYER_TRAIT, 'D');
    NotInEither("impl<I> " + LAYER_TRAIT, "I> for AuthLayer {", 'D');
    NotDescribed(LAYER_IMPL);
  }

  lemma LayerTrait()
    ensures 'D' !in LAYER_TRAIT
  {
    NotInEither("::moso::__private::", "tower::Layer<", 'D');
  }

  lemma NotInEither(a: string, b: string, c: char)
    requires c !in a && c !in b
    ensures c !in a + b
  {
  }

  lemma MissedBlock(items: seq<Item>)
    requires items == [LAYER_IMPL, SERVICE, BLOCK]
    ensures !IsAssertion(LAYER_IMPL) && !IsAssertion(SERVICE) && Previous(items, 2) == Some(1)
  {
    hide StartsWith;
  }

  lemma MissedLayers(items: seq<Item>)
    requires items == [LAYER_IMPL, SERVICE, BLOCK]
    ensures Layers(items) == {"AuthLayer"}
  {
    var layers := Layers(items);
    assert items[0].subject.value in layers;
    assert forall i | 0 <= i < |items| && items[i].origin == Middleware :: i == 0;
  }

  lemma NotDescribed(item: Item)
    requires 'D' !in item.header
    ensures !Occurs(item.header, DESCRIBE_IMPL)
  {
    hide Occurs;
    assert DESCRIBE_IMPL[19] == 'D';
    if Occurs(item.header, DESCRIBE_IMPL) {
      CharacterOccurs(item.header, DESCRIBE_IMPL, 19);
    }
  }

  lemma MissedNames()
    ensures Mentions(SERVICE.header, {"AuthLayer"}) && !Mentions(BLOCK.header, {"AuthLayer"})
  {
    hide Occurs, ServiceOf;
    ServiceOfAuth();
    forall name | name in ["AuthLayer", "AuthService"] ensures !Occurs(BLOCK.header, name) {
      if Occurs(BLOCK.header, name) {
        CharacterOccurs(BLOCK.header, name, 0);
      }
    }
  }

  lemma ServiceOfAuth()
    ensures ServiceOf("AuthLayer") == "AuthService"
    ensures Occurs("pub struct AuthService;", "AuthService")
  {
    assert "AuthLayer"[..4] == "Auth" && "AuthLayer"[4..] == "Layer";
    assert MatchesAt("pub struct AuthService;", "AuthService", 11);
  }

  lemma CharacterOccurs(s: string, pattern: string, k: nat)
    requires k < |pattern| && Occurs(s, pattern)
    ensures pattern[k] in s
  {
    var i: nat :| i <= |s| && MatchesAt(s, pattern, i);
    assert s[i..i + |pattern|][k] == s[i + k];
  }

  // ----- Adding up

  datatype MacroCost = MacroCost(origin: Origin, items: nat, lines: nat)

  datatype Report = Report(totalLines: nat, generatedLines: nat, macros: seq<MacroCost>, items: seq<Item>)

  function LinesOf(items: seq<Item>): nat {
    if items == [] then 0 else LinesOf(items[..|items| - 1]) + items[|items| - 1].Lines()
  }

  function MosoItems(items: seq<Item>): seq<Item> {
    if items == [] then []
    else
      var last := items[|items| - 1];
      MosoItems(items[..|items| - 1]) + if last.origin.IsMoso() then [last] else []
  }

  function OfOrigin(items: seq<Item>, origin: Origin): seq<Item> {
    if items == [] then []
    else
      var last := items[|items| - 1];
      OfOrigin(items[..|items| - 1], origin) + if last.origin == origin then [last] else []
  }

  /** The origins in their declaration order, which is the order a map keyed by them is read in. */
  const ORIGINS: seq<Origin> :=
    [Endpoint, Schema, Config, Dependency, Error, Middleware, Serde, StdDerive, Handwritten]

  function Place(origin: Origin): (k: nat)
    ensures k < |ORIGINS| && ORIGINS[k] == origin
  {
    match origin
    case Endpoint => 0
    case Schema => 1
    case Config => 2
    case Dependency => 3
    case Error => 4
    case Middleware => 5
    case Serde => 6
    case StdDerive => 7
    case Handwritten => 8
  }

  lemma PlaceOfOrigin(k: nat)
    requires k < |ORIGINS|
    ensures Place(ORIGINS[k]) == k
  {
  }

  function Costs(items: seq<Item>, k: nat): seq<MacroCost>
    requires k <= |ORIGINS|
  {
    if k == 0 then []
    else
      var group := OfOrigin(items, ORIGINS[k - 1]);
      Costs(items, k - 1)
      + if group == [] || ORIGINS[k - 1] == Handwritten then []
        else [MacroCost(ORIGINS[k - 1], |group|, LinesOf(group))]
  }

  function MosoTotal(macros: seq<MacroCost>): nat {
    if macros == [] then 0
    else
      var last := macros[|macros| - 1];
      MosoTotal(macros[..|macros| - 1]) + if last.origin.IsMoso() then last.lines else 0
  }

  /** `by_origin`: each item appended to its origin's group. */
  method GroupByOrigin(items: seq<Item>) returns (groups: map<Origin, seq<Item>>)
    ensures forall origin :: if origin in groups then groups[origin] == OfOrigin(items, origin) != []
                             else OfOrigin(items, origin) == []
  {
    groups := map[];
    for k := 0 to |items|
      invariant forall origin :: if origin in groups then groups[origin] == OfOrigin(items[..k], origin) != []
                                 else OfOrigin(items[..k], origin) == []
    {
      var origin := items[k].origin;
      assert items[..k + 1][..k] == items[..k];
      groups := groups[origin := (if origin in groups then groups[origin] else []) + [items[k]]];
    }
    assert items[..|items|] == items;
  }

  /** The accounting half of `measure`. */
  method AddUp(items: seq<Item>, totalLines: nat) returns (report: Report)
    ensures report == Report(totalLines, LinesOf(MosoItems(items)), Costs(items, |ORIGINS|), items)
  {
    var groups := GroupByOrigin(items);
    var macros := [];
    for k := 0 to |ORIGINS|
      invariant macros == Costs(items, k)
    {
      var origin := ORIGINS[k];
      if origin in groups && origin != Handwritten {
        macros := macros + [MacroCost(origin, |groups[origin]|, LinesOf(groups[origin]))];
      }
    }
    report := Report(totalLines, LinesOf(MosoItems(items)), macros, items);
  }

  /** Scanning, relabelling and adding up. */
  method Measure(lines: seq<string>, oracle: Oracle) returns (report: Report)
    ensures report.items == Resolved(ScanFrom(lines, 0, 0, [], None, oracle))
    ensures report.totalLines == |lines| && Placed(report.items, 0, |lines|)
    ensures report.generatedLines == |Generated(report.items)| <= report.totalLines
    ensures MosoTotal(report.macros) == report.generatedLines
    ensures report.macros == Costs(report.items, |ORIGINS|)
  {
    var scanned := Scan(lines, oracle);
    var items := new Item[|scanned|](i requires 0 <= i < |scanned| => scanned[i]);
    assert items[..] == scanned;
    ResolveHeuristics(items);
    ResolvedKeepsPlaces(scanned);
    report := AddUp(items[..], |lines|);
    GeneratedLines(report.items, |lines|);
    MosoTotals(report.items);
  }

  // ----- What the numbers mean

  /** The line numbers inside some item of ours. */
  function Generated(items: seq<Item>): (lines: set<nat>)
    ensures forall n :: n in lines <==>
                        exists i | 0 <= i < |items| :: items[i].origin.IsMoso() && items[i].start <= n <= items[i].end
  {
    if items == [] then {}
    else
      var last := items[|items| - 1];
      var before := items[..|items| - 1];
      assert items == before + [last];
      Generated(before) + if last.origin.IsMoso() then Range(last.start, last.end) else {}
  }

  function Range(start: nat, end: nat): (r: set<nat>)
    ensures forall n :: n in r <==> start <= n <= end
    decreases end + 1 - start
  {
    if start > end then {} else {start} + Range(start + 1, end)
  }

  lemma {:induction false} RangeSize(start: nat, end: nat)
    requires start <= end + 1
    ensures |Range(start, end)| == end + 1 - start
    decreases end + 1 - start
  {
    if start <= end {
      RangeSize(start + 1, end);
      OneMore(start, Range(start + 1, end));
    }
  }

  lemma OneMore(n: nat, others: set<nat>)
    requires n !in others
    ensures |{n} + others| == |others| + 1
  {
    assert {n} !! others;
  }

  /** For items in their places, adding their sizes counts each generated line once, and never more than there are. */
  lemma {:induction false} GeneratedLines(items: seq<Item>, last: nat)
    requires Placed(items, 0, last)
    ensures LinesOf(MosoItems(items)) == |Generated(items)| <= last
    decreases |items|
  {
    hide MosoItems, LinesOf, Generated;
    if items == [] {
      NothingGenerated();
    } else {
      var item := items[|items| - 1];
      var before := items[..|items| - 1];
      assert items == before + [item];
      GeneratedLines(before, item.start - 1);
      GeneratedStep(before, item);
      RangeSize(item.start, item.end);
      assert Generated(before) !! Range(item.start, item.end);
    }
  }

  lemma NothingGenerated()
    ensures LinesOf(MosoItems([])) == |Generated([])| == 0
  {
  }

  lemma GeneratedStep(before: seq<Item>, item: Item)
    ensures Generated(before + [item]) == Generated(before) + if item.origin.IsMoso() then Range(item.start, item.end) else {}
    ensures LinesOf(MosoItems(before + [item])) ==
            LinesOf(MosoItems(before)) + if item.origin.IsMoso() then item.Lines() else 0
  {
    var items := before + [item];
    assert items[..|items| - 1] == before;
    var moso := MosoItems(items);
    if item.origin.IsMoso() {
      assert moso[..|moso| - 1] == MosoItems(before);
    } else {
      assert moso == MosoItems(before);
    }
  }

  /** The lines of the items of ours with an origin among the first `k`. */
  function SumTo(items: seq<Item>, k: nat): nat
    requires k <= |ORIGINS|
  {
    if k == 0 then 0
    else SumTo(items, k - 1) + if ORIGINS[k - 1].IsMoso() then LinesOf(OfOrigin(items, ORIGINS[k - 1])) else 0
  }

  lemma {:induction false} CostsTotal(items: seq<Item>, k: nat)
    requires k <= |ORIGINS|
    ensures MosoTotal(Costs(items, k)) == SumTo(items, k)
  {
    hide OfOrigin;
    if k > 0 {
      CostsTotal(items, k - 1);
      var costs := Costs(items, k);
      if costs == Costs(items, k - 1) {
      } else {
        assert costs[..|costs| - 1] == Costs(items, k - 1);
      }
    }
  }

  lemma {:induction false} SumStep(before: seq<Item>, item: Item, k: nat)
    requires k <= |ORIGINS|
    ensures SumTo(before + [item], k) ==
            SumTo(before, k) + if item.origin.IsMoso() && Place(item.origin) < k then item.Lines() else 0
  {
    hide OfOrigin, LinesOf, Place;
    if k > 0 {
      SumStep(before, item, k - 1);
      PlaceOfOrigin(k - 1);
      GroupStep(before, item, ORIGINS[k - 1]);
    }
  }

  lemma GroupStep(before: seq<Item>, item: Item, origin: Origin)
    ensures LinesOf(OfOrigin(before + [item], origin)) ==
            LinesOf(OfOrigin(before, origin)) + if item.origin == origin then item.Lines() else 0
  {
    var items := before + [item];
    assert items[..|items| - 1] == before;
    var group := OfOrigin(items, origin);
    if item.origin == origin {
      assert group[..|group| - 1] == OfOrigin(before, origin);
    } else {
      assert group == OfOrigin(before, origin);
    }
  }

  lemma {:induction false} SumIsWhole(items: seq<Item>)
    ensures SumTo(items, |ORIGINS|) == LinesOf(MosoItems(items))
  {
    hide SumTo, MosoItems, LinesOf;
    if items == [] {
      NoSum(|ORIGINS|);
      NothingGenerated();
    } else {
      var before, item := items[..|items| - 1], items[|items| - 1];
      assert items == before + [item];
      SumIsWhole(before);
      SumStep(before, item, |ORIGINS|);
      GeneratedStep(before, item);
    }
  }

  lemma NoSum(k: nat)
    requires k <= |ORIGINS|
    ensures SumTo([], k) == 0
  {
  }

  /** The per-macro totals over our own origins add up to the generated lines: none is charged twice or left out. */
  lemma MosoTotals(items: seq<Item>)
    ensures MosoTotal(Costs(items, |ORIGINS|)) == LinesOf(MosoItems(items))
  {
    CostsTotal(items, |ORIGINS|);
    SumIsWhole(items);
  }
}
