/** The order `cargo publish` is run in: a round-based topological sort, its canonical form and its failure. */
module PublishOrder {
  import opened Wrappers
  import opened Workspace

  // ----- Heights

  /** A chain of `edges` build edges starts at `name`. */
  ghost predicate HasChain(graph: Graph, name: string, edges: nat) {
    exists path :: IsPath(graph, path) && |path| == edges + 1 && path[0] == name
  }

  /** The longest chain below `name` has `height` edges. */
  ghost predicate IsHeight(graph: Graph, name: string, height: nat) {
    HasChain(graph, name, height) && forall edges: nat | HasChain(graph, name, edges) :: edges <= height
  }

  /** Every edge leads to a node of the graph. */
  ghost predicate Closed(graph: Graph) {
    forall name | name in graph :: graph[name] <= graph.Keys
  }

  lemma ChainSingle(graph: Graph, name: string)
    ensures HasChain(graph, name, 0)
  {
    assert IsPath(graph, [name]);
  }

  lemma ChainCons(graph: Graph, a: string, b: string, edges: nat)
    requires a in graph && b in graph[a] && HasChain(graph, b, edges)
    ensures HasChain(graph, a, edges + 1)
  {
    var p :| IsPath(graph, p) && |p| == edges + 1 && p[0] == b;
    var path := [a] + p;
    forall i | 0 <= i < |path| - 1 ensures path[i] in graph && path[i + 1] in graph[path[i]] {
      assert i > 0 ==> path[i] == p[i - 1];
      assert path[i + 1] == p[i];
    }
    assert IsPath(graph, path);
  }

  lemma ChainTail(graph: Graph, a: string, edges: nat) returns (b: string)
    requires edges > 0 && HasChain(graph, a, edges)
    ensures a in graph && b in graph[a] && HasChain(graph, b, edges - 1)
  {
    var p :| IsPath(graph, p) && |p| == edges + 1 && p[0] == a;
    b := p[1];
    var q := p[1..];
    forall i | 0 <= i < |q| - 1 ensures q[i] in graph && q[i + 1] in graph[q[i]] {
      assert q[i] == p[i + 1] && q[i + 1] == p[i + 2];
    }
    assert IsPath(graph, q);
  }

  lemma HeightUnique(graph: Graph, name: string, a: nat, b: nat)
    requires IsHeight(graph, name, a) && IsHeight(graph, name, b)
    ensures a == b
  {
  }

  /** A node whose edges all lead to heights below `height`, with a chain of `height`, has that height. */
  lemma HeightFromBelow(graph: Graph, name: string, height: nat, heights: map<string, nat>)
    requires name in graph && HasChain(graph, name, height)
    requires forall n | n in heights :: IsHeight(graph, n, heights[n])
    requires forall n | n in graph[name] :: n in heights && heights[n] < height
    ensures IsHeight(graph, name, height)
  {
    forall edges: nat | HasChain(graph, name, edges) ensures edges <= height {
      if edges > 0 {
        var b := ChainTail(graph, name, edges);
      }
    }
  }

  lemma EdgeDescends(graph: Graph, a: string, b: string, heights: map<string, nat>)
    requires forall n | n in heights :: IsHeight(graph, n, heights[n])
    requires a in graph && b in graph[a] && a in heights && b in heights
    ensures heights[b] < heights[a]
  {
    ChainCons(graph, a, b, heights[b]);
  }

  /** With a height for every node there is no cycle. */
  lemma HeightsExcludeCycles(graph: Graph, heights: map<string, nat>)
    requires heights.Keys == graph.Keys && Closed(graph)
    requires forall n | n in heights :: IsHeight(graph, n, heights[n])
    ensures !Cyclic(graph)
  {
    if name :| Reaches(graph, name, name) {
      var p :| IsPath(graph, p) && |p| > 1 && p[0] == name && p[|p| - 1] == name;
      PathDescends(graph, heights, p, |p| - 1);
      assert false;
    }
  }

  lemma {:induction false} PathDescends(graph: Graph, heights: map<string, nat>, p: seq<string>, k: nat)
    requires heights.Keys == graph.Keys && Closed(graph)
    requires forall n | n in heights :: IsHeight(graph, n, heights[n])
    requires IsPath(graph, p) && 0 < k < |p|
    ensures p[0] in heights && p[k] in heights && heights[p[k]] < heights[p[0]]
  {
    if k > 1 {
      PathDescends(graph, heights, p, k - 1);
    }
    assert p[k - 1] in graph && p[k - 1 + 1] in graph[p[k - 1]];
    EdgeDescends(graph, p[k - 1], p[k], heights);
  }

  // ----- Being stuck

  /** Inside a set whose every node has a successor in it, paths of any length exist. */
  lemma {:induction false} LongPath(graph: Graph, stuck: set<string>, from: string, edges: nat)
    returns (path: seq<string>)
    requires from in stuck
    requires forall n | n in stuck :: n in graph && graph[n] * stuck != {}
    ensures IsPath(graph, path) && |path| == edges + 1 && path[0] == from
    ensures forall n | n in path :: n in stuck
  {
    if edges == 0 {
      path := [from];
    } else {
      var shorter := LongPath(graph, stuck, from, edges - 1);
      var last := shorter[|shorter| - 1];
      assert last in stuck;
      var next :| next in graph[last] * stuck;
      path := shorter + [next];
      forall i | 0 <= i < |path| - 1 ensures path[i] in graph && path[i + 1] in graph[path[i]] {
        assert path[i] == shorter[i];
      }
    }
  }

  /** More elements than the set holds: two are the same. */
  lemma {:induction false} Pigeonhole(path: seq<string>, holes: set<string>) returns (i: nat, j: nat)
    requires |path| > |holes| && forall n | n in path :: n in holes
    ensures i < j < |path| && path[i] == path[j]
    decreases |path|
  {
    var last := path[|path| - 1];
    var rest := path[..|path| - 1];
    if k :| 0 <= k < |rest| && rest[k] == last {
      i, j := k, |rest|;
    } else {
      assert last in holes;
      forall n | n in rest ensures n in holes - {last} {
        assert n in path;
      }
      i, j := Pigeonhole(rest, holes - {last});
    }
  }

  /** When every pending package waits for a pending one, there is a real cycle. */
  lemma StuckMeansCycle(graph: Graph, stuck: set<string>)
    requires stuck != {}
    requires forall n | n in stuck :: n in graph && graph[n] * stuck != {}
    ensures exists name | name in stuck :: Reaches(graph, name, name)
  {
    var from :| from in stuck;
    var path := LongPath(graph, stuck, from, |stuck|);
    var i, j := Pigeonhole(path, stuck);
    var cycle := path[i..j + 1];
    forall k | 0 <= k < |cycle| - 1 ensures cycle[k] in graph && cycle[k + 1] in graph[cycle[k]] {
      assert cycle[k] == path[i + k] && cycle[k + 1] == path[i + k + 1];
    }
    assert IsPath(graph, cycle);
    assert path[i] in stuck && Reaches(graph, path[i], path[i]);
  }

  lemma StuckHasNoHeight(graph: Graph, stuck: set<string>, from: string, height: nat)
    requires from in stuck
    requires forall n | n in stuck :: n in graph && graph[n] * stuck != {}
    ensures !IsHeight(graph, from, height)
  {
    var path := LongPath(graph, stuck, from, height + 1);
    assert HasChain(graph, from, height + 1);
  }

  // ----- The canonical order

  /** By height, then by name. */
  ghost predicate Precedes(heights: map<string, nat>, a: string, b: string) {
    a in heights && b in heights && (heights[a] < heights[b] || (heights[a] == heights[b] && NameLess(a, b)))
  }

  ghost predicate InPlace(heights: map<string, nat>, names: seq<string>) {
    forall i, j | 0 <= i < j < |names| :: Precedes(heights, names[i], names[j])
  }

  ghost predicate HeightsOf(graph: Graph, heights: map<string, nat>) {
    heights.Keys == graph.Keys && forall n | n in graph :: IsHeight(graph, n, heights[n])
  }

  /** All the nodes, each once, sorted by (longest chain below, name). */
  ghost predicate Canonical(graph: Graph, names: seq<string>) {
    && (forall n :: n in names <==> n in graph)
    && exists heights :: HeightsOf(graph, heights) && InPlace(heights, names)
  }

  lemma HeightsUnique(graph: Graph, a: map<string, nat>, b: map<string, nat>)
    requires HeightsOf(graph, a) && HeightsOf(graph, b)
    ensures a == b
  {
    forall n | n in graph ensures a[n] == b[n] {
      HeightUnique(graph, n, a[n], b[n]);
    }
  }

  lemma PrecedesStrict(heights: map<string, nat>, a: string, b: string)
    ensures !(Precedes(heights, a, b) && Precedes(heights, b, a))
    ensures !Precedes(heights, a, a)
  {
    NameLessTotal(a, b);
    NameLessTotal(a, a);
  }

  lemma {:induction false} InPlaceUnique(heights: map<string, nat>, a: seq<string>, b: seq<string>)
    requires InPlace(heights, a) && InPlace(heights, b)
    requires forall n :: n in a <==> n in b
    ensures a == b
    decreases |a|
  {
    if b != [] {
      assert b[0] in b && b[0] in a;
    }
    if a != [] {
      assert a[0] in b && b[0] in a;
      if a[0] != b[0] {
        PrecedesStrict(heights, a[0], b[0]);
        assert false;
      }
      TailMembers(heights, a, b);
      InPlaceUnique(heights, a[1..], b[1..]);
      assert a == [a[0]] + a[1..] && b == [b[0]] + b[1..];
    }
  }

  lemma TailMembers(heights: map<string, nat>, a: seq<string>, b: seq<string>)
    requires InPlace(heights, a) && InPlace(heights, b)
    requires a != [] && b != [] && a[0] == b[0]
    requires forall n :: n in a <==> n in b
    ensures forall n :: n in a[1..] <==> n in b[1..]
  {
    PrecedesStrict(heights, a[0], a[0]);
    forall n ensures n in a[1..] <==> n in b[1..] {
      assert n in a[1..] <==> n in a && n != a[0];
      assert n in b[1..] <==> n in b && n != b[0];
    }
  }

  /** A graph has one canonical order, so the order cannot depend on how the graph was listed. */
  lemma CanonicalUnique(graph: Graph, a: seq<string>, b: seq<string>)
    requires Canonical(graph, a) && Canonical(graph, b)
    ensures a == b
  {
    var ha :| HeightsOf(graph, ha) && InPlace(ha, a);
    var hb :| HeightsOf(graph, hb) && InPlace(hb, b);
    HeightsUnique(graph, ha, hb);
    InPlaceUnique(ha, a, b);
  }

  /** In the canonical order every dependency comes strictly earlier. */
  lemma DependenciesFirst(graph: Graph, names: seq<string>, i: nat, j: nat)
    requires Canonical(graph, names) && i < |names| && j < |names|
    requires names[i] in graph && names[j] in graph[names[i]]
    ensures j < i
  {
    var heights :| HeightsOf(graph, heights) && InPlace(heights, names);
    assert names[j] in names && names[i] in names;
    assert i < j ==> Precedes(heights, names[i], names[j]);
    hide NameLess, IsPath, InPlace;
    EdgeDescends(graph, names[i], names[j], heights);
  }

  // ----- The rounds

  function NamesOf(packages: seq<Package>): (names: seq<string>)
    ensures |names| == |packages|
    ensures forall i | 0 <= i < |names| :: names[i] == packages[i].name
  {
    seq(|packages|, i requires 0 <= i < |packages| => packages[i].name)
  }

  /** The nodes that wait for nothing any more. */
  function Ready(pending: Graph): set<string> {
    set n | n in pending && pending[n] == {}
  }

  /** `pending` without `done`, as a node and as an edge. */
  function Without(pending: Graph, done: set<string>): Graph {
    map n | n in pending && n !in done :: pending[n] - done
  }

  /** After `round` rounds: the placed nodes have heights below it, the pending ones chains of that length. */
  ghost predicate RoundInvariant(
      graph: Graph, pending: Graph, heights: map<string, nat>, round: nat, names: seq<string>) {
    && pending == Without(graph, heights.Keys)
    && heights.Keys <= graph.Keys
    && (forall n | n in heights :: IsHeight(graph, n, heights[n]) && heights[n] < round)
    && (forall n | n in pending :: HasChain(graph, n, round))
    && (forall n :: n in names <==> n in heights)
    && InPlace(heights, names)
  }

  ghost function Raised(heights: map<string, nat>, ready: seq<string>, round: nat): map<string, nat> {
    heights + map n | n in ready :: round
  }

  lemma RoundHeights(
      graph: Graph, pending: Graph, heights: map<string, nat>, round: nat, names: seq<string>, ready: seq<string>)
    requires Closed(graph) && RoundInvariant(graph, pending, heights, round, names)
    requires Enumerates(ready, Ready(pending))
    ensures forall n | n in ready :: IsHeight(graph, n, round)
    ensures forall n | n in pending && n !in ready :: HasChain(graph, n, round + 1)
  {
    hide IsHeight, HasChain, InPlace, NamesAscend;
    forall n | n in ready ensures IsHeight(graph, n, round) {
      assert n in pending && pending[n] == {};
      forall m | m in graph[n] ensures m in heights {
        assert m !in pending[n];
      }
      HeightFromBelow(graph, n, round, heights);
    }
    forall n | n in pending && n !in ready ensures HasChain(graph, n, round + 1) {
      var m :| m in pending[n];
      assert m in pending;
      ChainCons(graph, n, m, round);
    }
  }

  lemma RoundInPlace(heights: map<string, nat>, round: nat, names: seq<string>, ready: seq<string>)
    requires forall n | n in heights :: heights[n] < round
    requires forall n :: n in names <==> n in heights
    requires forall n | n in ready :: n !in heights
    requires InPlace(heights, names) && NamesAscend(ready)
    ensures InPlace(Raised(heights, ready, round), names + ready)
  {
    hide NameLess;
    var raised, all := Raised(heights, ready, round), names + ready;
    forall i, j | 0 <= i < j < |all| ensures Precedes(raised, all[i], all[j]) {
      assert i < |names| ==> all[i] == names[i] && names[i] in names;
      assert j < |names| ==> all[j] == names[j] && names[j] in names;
      assert i >= |names| ==> all[i] == ready[i - |names|] && all[i] in ready;
      assert j >= |names| ==> all[j] == ready[j - |names|] && all[j] in ready;
      assert j < |names| ==> Precedes(heights, names[i], names[j]);
    }
  }

  lemma WithoutTwice(graph: Graph, a: set<string>, b: set<string>)
    ensures Without(Without(graph, a), b) == Without(graph, a + b)
  {
    var twice, once := Without(Without(graph, a), b), Without(graph, a + b);
    assert forall n :: n in twice <==> n in once;
    forall n | n in once ensures twice[n] == once[n] {
      assert graph[n] - a - b == graph[n] - (a + b);
    }
  }

  lemma RoundStep(
      graph: Graph, pending: Graph, heights: map<string, nat>, round: nat, names: seq<string>, ready: seq<string>)
    requires Closed(graph) && RoundInvariant(graph, pending, heights, round, names)
    requires Enumerates(ready, Ready(pending))
    ensures RoundInvariant(
              graph, Without(pending, SetOf(ready)), Raised(heights, ready, round), round + 1, names + ready)
  {
    hide IsHeight, HasChain, InPlace, NamesAscend;
    RoundHeights(graph, pending, heights, round, names, ready);
    RoundInPlace(heights, round, names, ready);
    WithoutTwice(graph, heights.Keys, SetOf(ready));
    assert Raised(heights, ready, round).Keys == heights.Keys + SetOf(ready);
  }

  lemma {:induction false} DistinctMultiset<T>(s: seq<T>, x: T)
    requires forall i, j | 0 <= i < j < |s| :: s[i] != s[j]
    ensures multiset(s)[x] == if x in s then 1 else 0
  {
    if s != [] {
      DistinctMultiset(s[1..], x);
      assert s == [s[0]] + s[1..];
    }
  }

  lemma SamePackages(packages: Packages, ordered: seq<Package>)
    requires DistinctNames(packages)
    requires forall p | p in ordered :: p in packages
    requires forall n :: n in NamesOf(ordered) <==> n in Names(packages)
    requires forall i, j | 0 <= i < j < |ordered| :: ordered[i].name != ordered[j].name
    ensures multiset(ordered) == multiset(packages)
  {
    forall p ensures multiset(ordered)[p] == multiset(packages)[p] {
      DistinctMultiset(ordered, p);
      DistinctMultiset(packages, p);
      if p in packages {
        assert p.name in NamesOf(ordered);
        var i :| 0 <= i < |ordered| && ordered[i].name == p.name;
        NamedIsListed(packages, ordered[i]);
        NamedIsListed(packages, p);
      }
    }
  }

  lemma InPlaceDistinct(heights: map<string, nat>, names: seq<string>)
    requires InPlace(heights, names)
    ensures forall i, j | 0 <= i < j < |names| :: names[i] != names[j]
  {
    forall i, j | 0 <= i < j < |names| ensures names[i] != names[j] {
      PrecedesStrict(heights, names[i], names[j]);
    }
  }

  lemma PendingFromPackages(packages: Packages, pending: Graph)
    requires DistinctNames(packages)
    requires pending.Keys == Names(packages)
    requires forall p | p in packages :: pending[p.name] == p.BuildEdges() * Names(packages)
    ensures pending == Members(BuildGraph(packages))
  {
    forall n | n in pending ensures pending[n] == Members(BuildGraph(packages))[n] {
      var p := PackageNamed(packages, n).value;
      assert p in packages;
    }
  }

  /** The waiting edges every package starts with. */
  method MemberEdges(packages: Packages) returns (pending: Graph)
    requires DistinctNames(packages)
    ensures pending == Members(BuildGraph(packages)) && Closed(pending)
  {
    var members := Names(packages);
    pending := map[];
    for i := 0 to |packages|
      invariant pending.Keys == Names(packages[..i])
      invariant forall j | 0 <= j < i :: pending[packages[j].name] == packages[j].BuildEdges() * members
    {
      assert packages[..i + 1] == packages[..i] + [packages[i]];
      pending := pending[packages[i].name := packages[i].BuildEdges() * members];
    }
    assert packages[..|packages|] == packages;
    PendingFromPackages(packages, pending);
  }

  /** One round's inner loop: each ready name leaves `pending`, as a node and as an edge, and is placed. */
  method PlaceReady(packages: Packages, waiting: Graph, ready: seq<string>, placed: seq<Package>)
    returns (pending: Graph, ordered: seq<Package>)
    requires forall n | n in ready :: n in Names(packages)
    requires forall p | p in placed :: p in packages
    ensures pending == Without(waiting, SetOf(ready))
    ensures NamesOf(ordered) == NamesOf(placed) + ready
    ensures forall p | p in ordered :: p in packages
  {
    pending, ordered := waiting, placed;
    assert SetOf(ready[..0]) == {};
    WithoutNothing(waiting);
    for i := 0 to |ready|
      invariant pending == Without(waiting, SetOf(ready[..i]))
      invariant NamesOf(ordered) == NamesOf(placed) + ready[..i]
      invariant forall p | p in ordered :: p in packages
    {
      var name := ready[i];
      assert name in ready;
      ReadyStep(waiting, ready, i);
      pending := pending - {name};
      pending := map n | n in pending :: pending[n] - {name};
      var package := PackageNamed(packages, name);
      if package.Some? {
        assert NamesOf(ordered + [package.value]) == NamesOf(ordered) + [name];
        ordered := ordered + [package.value];
      }
    }
    assert ready[..|ready|] == ready;
  }

  lemma ReadyStep(waiting: Graph, ready: seq<string>, i: nat)
    requires i < |ready|
    ensures Without(waiting, SetOf(ready[..i + 1])) == Without(Without(waiting, SetOf(ready[..i])), {ready[i]})
  {
    WithoutTwice(waiting, SetOf(ready[..i]), {ready[i]});
    assert SetOf(ready[..i + 1]) == SetOf(ready[..i]) + {ready[i]};
  }

  /**
   `publish_order`: packages in rounds, each round those whose dependencies are all
   placed, by name. The error is the list of packages a cycle leaves waiting.
   */
  method PublishOrder(packages: Packages) returns (r: Result<seq<Package>, seq<string>>)
    requires DistinctNames(packages)
    ensures r.Ok? <==> !Cyclic(BuildGraph(packages))
    ensures r.Ok? ==> multiset(r.value) == multiset(packages)
    ensures r.Ok? ==> Canonical(Members(BuildGraph(packages)), NamesOf(r.value))
    ensures r.Err? ==> Enumerates(r.error, set n | n in Names(packages) && Endless(packages, n))
    ensures r.Err? ==> exists n | n in r.error :: Reaches(BuildGraph(packages), n, n)
  {
    hide RoundInvariant, Canonical, Cyclic, Reaches, IsHeight, NamesAscend, Endless;
    var pending := MemberEdges(packages);
    ghost var graph := pending;
    ghost var heights: map<string, nat>, round: nat := map[], 0;
    var ordered: seq<Package> := [];
    InitialRound(graph);

    while pending.Keys != {}
      invariant Closed(graph) && RoundInvariant(graph, pending, heights, round, NamesOf(ordered))
      invariant pending.Keys <= graph.Keys
      invariant forall p | p in ordered :: p in packages
      decreases pending.Keys
    {
      var ready := InOrder(Ready(pending));
      if ready == [] {
        assert forall n :: n !in ready;
        StuckOutcome(packages, graph, pending, heights, round, NamesOf(ordered));
        return Err(InOrder(pending.Keys));
      }
      RoundStep(graph, pending, heights, round, NamesOf(ordered), ready);
      assert ready[0] in pending.Keys;
      assert forall n | n in ready :: n in Names(packages);
      pending, ordered := PlaceReady(packages, pending, ready, ordered);
      heights, round := Raised(heights, ready, round), round + 1;
    }
    assert pending == map[];
    FinishedOutcome(packages, graph, heights, round, ordered);
    return Ok(ordered);
  }

  /** Build chains below the package never end: it depends on a cycle, or is on one. */
  ghost predicate Endless(packages: Packages, name: string) {
    !exists height: nat :: IsHeight(Members(BuildGraph(packages)), name, height)
  }

  lemma InitialRound(graph: Graph)
    requires Closed(graph)
    ensures RoundInvariant(graph, graph, map[], 0, NamesOf([]))
  {
    forall n | n in graph ensures HasChain(graph, n, 0) {
      ChainSingle(graph, n);
    }
    var none: map<string, nat> := map[];
    assert none.Keys == {};
    WithoutNothing(graph);
  }

  lemma WithoutNothing(graph: Graph)
    ensures Without(graph, {}) == graph
  {
    assert forall n | n in graph :: graph[n] - {} == graph[n];
  }

  lemma MembersKeys(packages: Packages)
    ensures Members(BuildGraph(packages)).Keys == Names(packages)
  {
  }

  lemma StuckWaits(graph: Graph, pending: Graph, done: set<string>)
    requires Closed(graph) && pending == Without(graph, done) && Ready(pending) == {}
    ensures forall n | n in pending.Keys :: n in graph && graph[n] * pending.Keys != {}
  {
    forall n | n in pending.Keys ensures graph[n] * pending.Keys != {} {
      assert pending[n] != {} by {
        assert n !in Ready(pending);
      }
      var m :| m in pending[n];
      assert m in graph[n] * pending.Keys;
    }
  }

  lemma StuckOutcome(
      packages: Packages, graph: Graph, pending: Graph, heights: map<string, nat>, round: nat, names: seq<string>)
    requires graph == Members(BuildGraph(packages))
    requires Closed(graph) && RoundInvariant(graph, pending, heights, round, names)
    requires pending.Keys != {} && Ready(pending) == {}
    ensures exists n | n in pending.Keys :: Reaches(BuildGraph(packages), n, n)
    ensures Cyclic(BuildGraph(packages))
    ensures pending.Keys == set n | n in Names(packages) && Endless(packages, n)
  {
    hide RoundInvariant, IsHeight, BuildGraph, Members, Reaches, Without, Endless, Closed, Ready, Names;
    PendingOrPlaced(graph, pending, heights, round, names);
    var stuck := pending.Keys;
    StuckWaits(graph, pending, heights.Keys);
    MembersKeys(packages);
    StuckMeansCycle(graph, stuck);
    var n :| n in stuck && Reaches(graph, n, n);
    WiderReaches(packages, n);
    StuckIsEndless(packages, stuck, heights);
  }

  lemma PendingOrPlaced(graph: Graph, pending: Graph, heights: map<string, nat>, round: nat, names: seq<string>)
    requires RoundInvariant(graph, pending, heights, round, names)
    ensures pending == Without(graph, heights.Keys)
    ensures forall n | n in graph ::
              n in pending || (n in heights && IsHeight(graph, n, heights[n]))
  {
  }

  lemma StuckIsEndless(packages: Packages, stuck: set<string>, heights: map<string, nat>)
    requires var graph := Members(BuildGraph(packages));
             && (forall n | n in stuck :: n in graph && graph[n] * stuck != {})
             && (forall n | n in graph :: n in stuck || (n in heights && IsHeight(graph, n, heights[n])))
    ensures stuck == set n | n in Names(packages) && Endless(packages, n)
  {
    hide IsHeight;
    var graph := Members(BuildGraph(packages));
    MembersKeys(packages);
    forall n | n in stuck, height: nat ensures !IsHeight(graph, n, height) {
      StuckHasNoHeight(graph, stuck, n, height);
    }
  }

  lemma WiderReaches(packages: Packages, n: string)
    requires Reaches(Members(BuildGraph(packages)), n, n)
    ensures Reaches(BuildGraph(packages), n, n)
  {
    var graph := Members(BuildGraph(packages));
    var p :| IsPath(graph, p) && |p| > 1 && p[0] == n && p[|p| - 1] == n;
    assert IsPath(BuildGraph(packages), p);
  }

  lemma FinishedOutcome(
      packages: Packages, graph: Graph, heights: map<string, nat>, round: nat, ordered: seq<Package>)
    requires DistinctNames(packages) && graph == Members(BuildGraph(packages))
    requires Closed(graph) && RoundInvariant(graph, map[], heights, round, NamesOf(ordered))
    requires forall p | p in ordered :: p in packages
    ensures !Cyclic(BuildGraph(packages))
    ensures multiset(ordered) == multiset(packages)
    ensures Canonical(graph, NamesOf(ordered))
  {
    hide IsHeight, HasChain, IsPath, NameLess, BuildGraph, Members;
    forall n | n in graph ensures n in heights {
      assert n !in Without(graph, heights.Keys);
    }
    MembersKeys(packages);
    HeightsExcludeCycles(graph, heights);
    MemberCycles(BuildGraph(packages));
    InPlaceDistinct(heights, NamesOf(ordered));
    assert forall i, j | 0 <= i < j < |ordered| :: NamesOf(ordered)[i] != NamesOf(ordered)[j];
    SamePackages(packages, ordered);
    assert HeightsOf(graph, heights);
  }

  lemma SameGraph(a: Packages, b: Packages)
    requires Names(a) == Names(b)
    requires forall p, q | p in a && q in b && p.name == q.name :: p.BuildEdges() == q.BuildEdges()
    ensures BuildGraph(a) == BuildGraph(b)
  {
    forall n | n in Names(a) ensures BuildGraph(a)[n] == BuildGraph(b)[n] {
      assert PackageNamed(a, n).value in a && PackageNamed(b, n).value in b;
    }
  }

  /** Two listings of the same packages, in any order with dependencies in any order, publish in the same order. */
  lemma ListingOrderIsIrrelevant(a: Packages, b: Packages, orderA: seq<Package>, orderB: seq<Package>)
    requires Names(a) == Names(b)
    requires forall p, q | p in a && q in b && p.name == q.name :: p.BuildEdges() == q.BuildEdges()
    requires Canonical(Members(BuildGraph(a)), NamesOf(orderA))
    requires Canonical(Members(BuildGraph(b)), NamesOf(orderB))
    ensures NamesOf(orderA) == NamesOf(orderB)
  {
    SameGraph(a, b);
    hide Canonical, BuildGraph, Members;
    CanonicalUnique(Members(BuildGraph(a)), NamesOf(orderA), NamesOf(orderB));
  }
}
