/** What relabelling decides and what the report charges each macro with, said of the items alone. */
module ExpandCharges {
  import opened Wrappers
  import opened Text
  import opened ExpandScan
  import opened Workspace
  import opened M = ExpandMeasure

  // ----- Whose code it is

  predicate OfMoso(origin: Origin) {
    origin in {Endpoint, Schema, Config, Dependency, Error, Middleware}
  }

  lemma MosoIs(origin: Origin)
    ensures origin.IsMoso() <==> OfMoso(origin)
  {
  }

  // ----- The first pass

  ghost predicate HasSchema(items: seq<Item>, subject: string) {
    exists i | 0 <= i < |items| ::
      Occurs(items[i].header, "::moso::__private::Schema for") && items[i].subject == Some(subject)
  }

  /** A `Describe` impl is the error derive's unless some `Schema` impl has its subject. */
  lemma DescribedExactly(items: seq<Item>, i: nat)
    requires i < |items|
    ensures Described(items)[i] ==
            if Occurs(items[i].header, "::moso::__private::Describe for")
               && !(items[i].subject.Some? && HasSchema(items, items[i].subject.value))
            then items[i].(origin := Error)
            else items[i]
  {
    hide Occurs;
    forall subject ensures subject in SchemaTypes(items) <==> HasSchema(items, subject) {
      if HasSchema(items, subject) {
        var j :| 0 <= j < |items|
          && Occurs(items[j].header, "::moso::__private::Schema for") && items[j].subject == Some(subject);
        assert Occurs(items[j].header, SCHEMA_IMPL) && items[j].subject.Some?;
      }
    }
  }

  // ----- The second pass

  predicate IsBlock(item: Item) {
    "const _: ()" <= item.header && item.origin == Endpoint && item.subject == None
  }

  /** The last item above the `i`-th that is no assertion block. */
  ghost predicate LastOther(items: seq<Item>, i: nat, p: nat) {
    p < i <= |items| && !IsBlock(items[p]) && forall k | p < k < i :: IsBlock(items[k])
  }

  /** An assertion block takes the label of the last other item above it, if that one is ours; nothing else changes. */
  lemma AssertedExactly(items: seq<Item>, i: nat)
    requires i < |items|
    ensures forall p: nat | LastOther(items, i, p) ::
              Asserted(items)[i] ==
              if IsBlock(items[i]) && OfMoso(items[p].origin)
              then items[i].(origin := items[p].origin, subject := items[p].subject)
              else items[i]
    ensures (forall p: nat :: !LastOther(items, i, p)) ==> Asserted(items)[i] == items[i]
  {
    hide Previous;
    var previous := Previous(items, i);
    BlocksAre(items);
    if previous.Some? {
      assert LastOther(items, i, previous.value);
      forall p: nat | LastOther(items, i, p) ensures p == previous.value {
        OneLastOther(items, i, p, previous.value);
      }
    }
  }

  lemma OneLastOther(items: seq<Item>, i: nat, p: nat, q: nat)
    requires LastOther(items, i, p) && LastOther(items, i, q)
    ensures p == q
  {
    hide IsBlock;
  }

  lemma BlocksAre(items: seq<Item>)
    ensures forall i | 0 <= i < |items| :: IsAssertion(items[i]) <==> IsBlock(items[i])
  {
  }

  // ----- The third pass

  function Repeated(word: string, n: nat): string {
    if n == 0 then "" else Repeated(word, n - 1) + word
  }

  /** The service of a layer: its name without the word `Layer` at the end, however often, and then `Service`. */
  ghost predicate IsServiceOf(layer: string, service: string) {
    exists stem, n ::
      layer == stem + Repeated("Layer", n) && !EndsWith(stem, "Layer") && service == stem + "Service"
  }

  lemma {:induction false} TrimLayerParts(name: string) returns (n: nat)
    ensures name == TrimLayer(name) + Repeated("Layer", n) && !EndsWith(TrimLayer(name), "Layer")
    decreases |name|
  {
    if EndsWith(name, "Layer") {
      var before := name[..|name| - 5];
      n := TrimLayerParts(before);
      n := n + 1;
      assert name == before + "Layer";
      Regroup(TrimLayer(before), Repeated("Layer", n - 1), "Layer");
    } else {
      n := 0;
      assert name == name + "";
    }
  }

  lemma {:induction false} TrimLayerOf(stem: string, n: nat)
    requires !EndsWith(stem, "Layer")
    ensures TrimLayer(stem + Repeated("Layer", n)) == stem
  {
    var name := stem + Repeated("Layer", n);
    if n == 0 {
      assert name == stem;
    } else {
      var before := stem + Repeated("Layer", n - 1);
      assert name == before + "Layer";
      assert name[..|name| - 5] == before;
      assert name[|name| - 5..] == "Layer";
      TrimLayerOf(stem, n - 1);
    }
  }

  lemma ServiceExactly(layer: string, service: string)
    ensures ServiceOf(layer) == service <==> IsServiceOf(layer, service)
  {
    hide EndsWith, TrimLayer;
    var n := TrimLayerParts(layer);
    if stem, n :| layer == stem + Repeated("Layer", n) && !EndsWith(stem, "Layer") && service == stem + "Service" {
      TrimLayerOf(stem, n);
    }
  }

  ghost predicate IsLayer(items: seq<Item>, name: string) {
    exists i | 0 <= i < |items| :: items[i].origin == Middleware && items[i].subject == Some(name)
  }

  ghost predicate IsService(items: seq<Item>, name: string) {
    exists layer | IsLayer(items, layer) :: IsServiceOf(layer, name)
  }

  /** The name in the header that comes first: layers before services, each in name order. */
  ghost predicate NamedFirst(items: seq<Item>, header: string, name: string) {
    && Occurs(header, name)
    && (|| (IsLayer(items, name)
            && forall other | IsLayer(items, other) && Occurs(header, other) :: other == name || NameLess(name, other))
        || (IsService(items, name)
            && (forall other | IsLayer(items, other) :: !Occurs(header, other))
            && forall other | IsService(items, other) && Occurs(header, other) :: other == name || NameLess(name, other)))
  }

  /** What the third pass makes of an item: the middleware's under the first name in its header, if there is one. */
  lemma LayeredExactly(items: seq<Item>, i: nat)
    requires i < |items|
    ensures forall name | NamedFirst(items, items[i].header, name) ::
              Layered(items)[i] ==
              if items[i].origin == Middleware then items[i]
              else items[i].(origin := Middleware, subject := Some(name))
    ensures (forall name :: !NamedFirst(items, items[i].header, name)) ==> Layered(items)[i] == items[i]
  {
    hide Occurs, M.Names, FirstIn, NameLess, ServiceOf, NamedFirst;
    var header := items[i].header;
    var first := FirstIn(M.Names(items), header);
    FirstIsNamed(items, header);
    forall name, other | NamedFirst(items, header, name) && NamedFirst(items, header, other) ensures name == other {
      NamedOnce(items, header, name, other);
    }
  }

  lemma NamedOnce(items: seq<Item>, header: string, a: string, b: string)
    requires NamedFirst(items, header, a) && NamedFirst(items, header, b)
    ensures a == b
  {
    hide Occurs, NameLess, IsServiceOf;
    NameLessTotal(a, b);
  }

  lemma LayersAre(items: seq<Item>)
    ensures forall name :: name in Layers(items) <==> IsLayer(items, name)
    ensures var services := set layer | layer in Layers(items) :: ServiceOf(layer);
            forall name :: name in services <==> IsService(items, name)
  {
    hide ServiceOf, IsServiceOf;
    forall name ensures name in Layers(items) <==> IsLayer(items, name) {
      if IsLayer(items, name) {
        var i :| 0 <= i < |items| && items[i].origin == Middleware && items[i].subject == Some(name);
        assert items[i].subject.Some?;
      }
    }
    forall layer, service ensures ServiceOf(layer) == service <==> IsServiceOf(layer, service) {
      ServiceExactly(layer, service);
    }
  }

  lemma FirstIsNamed(items: seq<Item>, header: string)
    ensures var first := FirstIn(M.Names(items), header);
            && (first.Some? ==> NamedFirst(items, header, M.Names(items)[first.value]))
            && (first.None? ==> forall name :: !NamedFirst(items, header, name))
  {
    hide Occurs, NameLess, IsLayer, IsService, FirstIn, M.Names;
    var a, b := NamesAre(items);
    FirstInEither(a, b, header);
  }

  lemma NamesAre(items: seq<Item>) returns (a: seq<string>, b: seq<string>)
    ensures M.Names(items) == a + b
    ensures forall name :: name in a <==> IsLayer(items, name)
    ensures forall name :: name in b <==> IsService(items, name)
    ensures forall i, j | 0 <= i < j < |a| :: NameLess(a[i], a[j])
    ensures forall i, j | 0 <= i < j < |b| :: NameLess(b[i], b[j])
  {
    hide NameLess, ServiceOf, IsLayer, IsService, Layers;
    LayersAre(items);
    var layers := Layers(items);
    a, b := InOrder(layers), InOrder(set layer | layer in layers :: ServiceOf(layer));
  }

  /** The first of two lists' names in the header: the first list's least one, or else the second's. */
  lemma FirstInEither(a: seq<string>, b: seq<string>, header: string)
    requires forall i, j | 0 <= i < j < |a| :: NameLess(a[i], a[j])
    requires forall i, j | 0 <= i < j < |b| :: NameLess(b[i], b[j])
    ensures var first := FirstIn(a + b, header);
            && (first.None? ==> forall name | name in a || name in b :: !Occurs(header, name))
            && (first.Some? && first.value < |a| ==>
                && Occurs(header, a[first.value])
                && forall other | other in a && Occurs(header, other) ::
                     other == a[first.value] || NameLess(a[first.value], other))
            && (first.Some? && first.value >= |a| ==>
                && Occurs(header, b[first.value - |a|])
                && (forall other | other in a :: !Occurs(header, other))
                && forall other | other in b && Occurs(header, other) ::
                     other == b[first.value - |a|] || NameLess(b[first.value - |a|], other))
  {
    hide Occurs, NameLess, FirstIn;
    var names := a + b;
    var first := FirstIn(names, header);
    assert forall k | 0 <= k < |a| :: names[k] == a[k];
    assert forall k | 0 <= k < |b| :: names[|a| + k] == b[k];
  }

  // ----- The charges

  /** The items with this origin, by position. */
  function Which(items: seq<Item>, origin: Origin): set<nat> {
    set i: nat | i < |items| && items[i].origin == origin
  }

  /** The line numbers inside them. */
  function LinesInside(items: seq<Item>, origin: Origin): (lines: set<nat>)
    ensures forall n :: n in lines <==>
                        exists i | 0 <= i < |items| :: items[i].origin == origin && items[i].start <= n <= items[i].end
  {
    if items == [] then {}
    else
      var last := items[|items| - 1];
      var before := items[..|items| - 1];
      assert items == before + [last];
      LinesInside(before, origin) + if last.origin == origin then Range(last.start, last.end) else {}
  }

  lemma {:induction false} GroupSize(items: seq<Item>, origin: Origin)
    ensures |OfOrigin(items, origin)| == |Which(items, origin)|
  {
    if items != [] {
      var before, last := items[..|items| - 1], items[|items| - 1];
      GroupSize(before, origin);
      var n := |before|;
      if last.origin == origin {
        assert Which(items, origin) == {n} + Which(before, origin);
        OneMore(n, Which(before, origin));
      } else {
        assert Which(items, origin) == Which(before, origin);
      }
    } else {
      assert Which(items, origin) == {};
    }
  }

  lemma {:induction false} GroupLines(items: seq<Item>, origin: Origin, last: nat)
    requires Placed(items, 0, last)
    ensures LinesOf(OfOrigin(items, origin)) == |LinesInside(items, origin)|
    decreases |items|
  {
    hide OfOrigin, LinesOf, LinesInside, Range;
    if items == [] {
      NoLines(origin);
    } else {
      var item := items[|items| - 1];
      var before := items[..|items| - 1];
      assert items == before + [item];
      GroupLines(before, origin, item.start - 1);
      GroupStep(before, item, origin);
      InsideStep(before, item, origin);
      RangeSize(item.start, item.end);
      assert LinesInside(before, origin) !! Range(item.start, item.end);
    }
  }

  lemma NoLines(origin: Origin)
    ensures LinesOf(OfOrigin([], origin)) == |LinesInside([], origin)| == 0
  {
  }

  lemma InsideStep(before: seq<Item>, item: Item, origin: Origin)
    ensures LinesInside(before + [item], origin) ==
            LinesInside(before, origin) + if item.origin == origin then Range(item.start, item.end) else {}
  {
    var items := before + [item];
    assert items[..|items| - 1] == before;
  }

  lemma {:induction false} CostsAre(items: seq<Item>, k: nat)
    requires k <= |ORIGINS|
    ensures forall c :: c in Costs(items, k) <==>
                        && Place(c.origin) < k && c.origin != Handwritten
                        && c.items == |OfOrigin(items, c.origin)| > 0 && c.lines == LinesOf(OfOrigin(items, c.origin))
    ensures forall i, j | 0 <= i < j < |Costs(items, k)| ::
              Place(Costs(items, k)[i].origin) < Place(Costs(items, k)[j].origin)
  {
    hide OfOrigin, LinesOf, Place;
    if k > 0 {
      CostsAre(items, k - 1);
      PlaceOfOrigin(k - 1);
    }
  }

  /** The origins the report charges for, in the order it lists them. */
  const CHARGED: seq<Origin> := [Endpoint, Schema, Config, Dependency, Error, Middleware, Serde, StdDerive]

  ghost predicate Listed(a: Origin, b: Origin) {
    exists p, q | 0 <= p < q < |CHARGED| :: CHARGED[p] == a && CHARGED[q] == b
  }

  /**
   The report has one charge for each origin with items that is not hand-written, in the listed order: how many items
   there are, and how many lines are inside them, each line counted once.
   */
  lemma ChargesExactly(items: seq<Item>, last: nat)
    requires Placed(items, 0, last)
    ensures var macros := Costs(items, |ORIGINS|);
            && (forall c :: c in macros <==>
                  && c.origin != Handwritten && Which(items, c.origin) != {}
                  && c.items == |Which(items, c.origin)| && c.lines == |LinesInside(items, c.origin)|)
            && (forall i, j | 0 <= i < j < |macros| :: Listed(macros[i].origin, macros[j].origin))
  {
    hide OfOrigin, LinesOf, LinesInside, Costs;
    var macros := Costs(items, |ORIGINS|);
    CostsAre(items, |ORIGINS|);
    forall origin
      ensures |OfOrigin(items, origin)| == |Which(items, origin)|
      ensures LinesOf(OfOrigin(items, origin)) == |LinesInside(items, origin)|
    {
      GroupSize(items, origin);
      GroupLines(items, origin, last);
    }
    forall i, j | 0 <= i < j < |macros| ensures Listed(macros[i].origin, macros[j].origin) {
      assert macros[j] in macros;
      PlacesAreListed(macros[i].origin, macros[j].origin);
    }
  }

  lemma PlacesAreListed(a: Origin, b: Origin)
    requires Place(a) < Place(b) && b != Handwritten
    ensures Listed(a, b)
  {
    assert CHARGED[Place(a)] == a && CHARGED[Place(b)] == b;
  }

  function ItemTotal(macros: seq<MacroCost>): nat {
    if macros == [] then 0 else ItemTotal(macros[..|macros| - 1]) + macros[|macros| - 1].items
  }

  function CountTo(items: seq<Item>, k: nat): nat
    requires k <= |ORIGINS|
  {
    if k == 0 then 0
    else CountTo(items, k - 1) + if ORIGINS[k - 1] == Handwritten then 0 else |OfOrigin(items, ORIGINS[k - 1])|
  }

  lemma {:induction false} ItemTotalIs(items: seq<Item>, k: nat)
    requires k <= |ORIGINS|
    ensures ItemTotal(Costs(items, k)) == CountTo(items, k)
  {
    hide OfOrigin;
    if k > 0 {
      ItemTotalIs(items, k - 1);
      var costs := Costs(items, k);
      if costs == Costs(items, k - 1) {
      } else {
        assert costs[..|costs| - 1] == Costs(items, k - 1);
      }
    }
  }

  lemma {:induction false} CountStep(before: seq<Item>, item: Item, k: nat)
    requires k <= |ORIGINS|
    ensures CountTo(before + [item], k) ==
            CountTo(before, k) + if item.origin != Handwritten && Place(item.origin) < k then 1 else 0
  {
    hide OfOrigin, Place;
    if k > 0 {
      CountStep(before, item, k - 1);
      PlaceOfOrigin(k - 1);
      GroupCount(before, item, ORIGINS[k - 1]);
    }
  }

  lemma GroupCount(before: seq<Item>, item: Item, origin: Origin)
    ensures |OfOrigin(before + [item], origin)| == |OfOrigin(before, origin)| + if item.origin == origin then 1 else 0
  {
    var items := before + [item];
    assert items[..|items| - 1] == before;
  }

  function Ours(items: seq<Item>): set<nat> {
    set i: nat | i < |items| && items[i].origin != Handwritten
  }

  /** Every item that is not hand-written is counted under exactly one charge. */
  lemma {:induction false} ItemsAddUp(items: seq<Item>)
    ensures ItemTotal(Costs(items, |ORIGINS|)) == |Ours(items)|
  {
    hide Costs, CountTo, Ours;
    ItemTotalIs(items, |ORIGINS|);
    if items == [] {
      NoCount(|ORIGINS|);
    } else {
      var before, item := items[..|items| - 1], items[|items| - 1];
      assert items == before + [item];
      ItemsAddUp(before);
      ItemTotalIs(before, |ORIGINS|);
      CountStep(before, item, |ORIGINS|);
      OursStep(before, item);
    }
  }

  lemma NoCount(k: nat)
    requires k <= |ORIGINS|
    ensures CountTo([], k) == 0 && |Ours([])| == 0
  {
  }

  lemma OursStep(before: seq<Item>, item: Item)
    ensures |Ours(before + [item])| == |Ours(before)| + if item.origin != Handwritten then 1 else 0
  {
    var items, n := before + [item], |before|;
    if item.origin != Handwritten {
      assert Ours(items) == {n} + Ours(before);
      OneMore(n, Ours(before));
    } else {
      assert Ours(items) == Ours(before);
    }
  }

  /** The generated lines are those inside the items of our six macros. */
  lemma GeneratedAre(items: seq<Item>, last: nat)
    requires Placed(items, 0, last)
    ensures forall n :: n in Generated(items) <==>
                        exists i | 0 <= i < |items| :: OfMoso(items[i].origin) && items[i].start <= n <= items[i].end
    ensures MosoTotal(Costs(items, |ORIGINS|)) == |Generated(items)|
  {
    hide Generated, Costs, MosoItems, LinesOf;
    forall origin: Origin ensures origin.IsMoso() <==> OfMoso(origin) {
      MosoIs(origin);
    }
    MosoTotals(items);
    GeneratedLines(items, last);
  }
}
