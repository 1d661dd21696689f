/** The worklist closure over build edges, and the two release gates that use it. */
module PublishGates {
  import opened Wrappers
  import opened Text
  import opened TextFacts
  import opened Workspace
  import opened PublishOrder

  // ----- The closure

  /** The build-relevant dependency names, in declaration order. */
  function BuildDepNames(deps: seq<Dep>): (names: seq<string>)
    ensures SetOf(names) == set d | d in deps && d.IsBuildRelevant() :: d.name
  {
    if deps == [] then []
    else
      assert deps == [deps[0]] + deps[1..];
      var rest := BuildDepNames(deps[1..]);
      assert SetOf([deps[0].name] + rest) == {deps[0].name} + SetOf(rest);
      if deps[0].IsBuildRelevant() then [deps[0].name] + rest else rest
  }

  /** One edge out of `start`, or a path from there. */
  ghost predicate Below(graph: Graph, start: set<string>, name: string) {
    exists first | first in start :: first == name || Reaches(graph, first, name)
  }

  ghost predicate ClosedUnder(graph: Graph, found: set<string>) {
    forall n | n in found && n in graph :: graph[n] <= found
  }

  /** Every name an edge can lead to. */
  function Targets(graph: Graph): set<string> {
    set n, m | n in graph && m in graph[n] :: m
  }

  lemma BelowStep(graph: Graph, start: set<string>, a: string, b: string)
    requires Below(graph, start, a) && a in graph && b in graph[a]
    ensures Below(graph, start, b)
  {
    ReachesByEdge(graph, a, b);
    var first :| first in start && (first == a || Reaches(graph, first, a));
    if first != a {
      ReachesTransitive(graph, first, a, b);
    }
  }

  lemma {:induction false} ClosedHoldsPath(graph: Graph, found: set<string>, path: seq<string>, k: nat)
    requires ClosedUnder(graph, found) && IsPath(graph, path) && path[0] in found && k < |path|
    ensures path[k] in found
  {
    if k > 0 {
      ClosedHoldsPath(graph, found, path, k - 1);
      assert path[k - 1] in graph && path[k - 1 + 1] in graph[path[k - 1]];
    }
  }

  lemma ClosedHoldsBelow(graph: Graph, found: set<string>, start: set<string>)
    requires ClosedUnder(graph, found) && start <= found
    ensures forall n | Below(graph, start, n) :: n in found
  {
    forall n | Below(graph, start, n) ensures n in found {
      var first :| first in start && (first == n || Reaches(graph, first, n));
      if first != n {
        var p :| IsPath(graph, p) && |p| > 1 && p[0] == first && p[|p| - 1] == n;
        ClosedHoldsPath(graph, found, p, |p| - 1);
      }
    }
  }

  /**
   `reachable_from`, and `facade_closure`, which is the same loop: names popped off
   the end of a queue, each expanded the first time it is seen.
   */
  method ReachableFrom(packages: Packages, start: Package) returns (reachable: set<string>)
    ensures forall n :: n in reachable <==> Below(BuildGraph(packages), start.BuildEdges(), n)
  {
    hide Below, BuildGraph, IsPath;
    ghost var graph := BuildGraph(packages);
    ghost var universe := start.BuildEdges() + Targets(graph);
    reachable := {};
    var queue := BuildDepNames(start.deps);
    StartIsBelow(graph, start.BuildEdges());
    while queue != []
      invariant reachable + SetOf(queue) <= universe
      invariant forall n | n in reachable + SetOf(queue) :: Below(graph, start.BuildEdges(), n)
      invariant start.BuildEdges() <= reachable + SetOf(queue)
      invariant forall n | n in reachable && n in graph :: graph[n] <= reachable + SetOf(queue)
      decreases universe - reachable, |queue|
    {
      var name := queue[|queue| - 1];
      ghost var before := queue;
      queue := queue[..|queue| - 1];
      assert before == queue + [name];
      assert SetOf(before) == SetOf(queue) + {name};
      if name !in reachable {
        assert name in universe;
        reachable := reachable + {name};
        var next := PackageNamed(packages, name);
        EdgesOf(packages, name);
        if next.Some? {
          var more := BuildDepNames(next.value.deps);
          assert SetOf(more) == graph[name] <= Targets(graph);
          assert SetOf(queue + more) == SetOf(queue) + SetOf(more);
          forall m | m in graph[name] ensures Below(graph, start.BuildEdges(), m) {
            BelowStep(graph, start.BuildEdges(), name, m);
          }
          queue := queue + more;
        }
      }
    }
    assert SetOf([]) == {};
    ClosedHoldsBelow(graph, reachable, start.BuildEdges());
  }

  lemma StartIsBelow(graph: Graph, start: set<string>)
    ensures forall n | n in start :: Below(graph, start, n)
  {
  }

  lemma EdgesOf(packages: Packages, name: string)
    ensures PackageNamed(packages, name).Some? <==> name in BuildGraph(packages)
    ensures name in BuildGraph(packages) ==>
              BuildGraph(packages)[name] == PackageNamed(packages, name).value.BuildEdges()
  {
  }

  /** For a member, what lies below it is exactly the ends of its non-empty build-edge paths. */
  lemma BelowIsReaches(packages: Packages, start: Package, name: string)
    requires DistinctNames(packages) && start in packages
    ensures Below(BuildGraph(packages), start.BuildEdges(), name) <==>
            Reaches(BuildGraph(packages), start.name, name)
  {
    var graph := BuildGraph(packages);
    NamedIsListed(packages, start);
    assert start.name in Names(packages);
    assert graph[start.name] == start.BuildEdges();
    if Below(graph, start.BuildEdges(), name) {
      var first :| first in start.BuildEdges() && (first == name || Reaches(graph, first, name));
      ReachesByEdge(graph, start.name, first);
      if first != name {
        ReachesTransitive(graph, start.name, first, name);
      }
    }
    if Reaches(graph, start.name, name) {
      var first := ReachesFirstEdge(graph, start.name, name);
    }
  }

  // ----- Dev-dependency cycles that block publishing

  datatype Blocker = Blocker(package: string, dep: string, req: string)

  /** A versioned dev edge of a publishable package to a member that build-depends back on it. */
  ghost predicate Blocks(packages: Packages, b: Blocker) {
    exists p, d | p in packages && d in p.deps ::
      && p.publishable
      && b == Blocker(p.name, d.name, d.req)
      && d.kind == Development
      && d.HasVersionRequirement()
      && d.name in Names(packages)
      && Reaches(BuildGraph(packages), d.name, p.name)
  }

  /** `publish_blockers`: the blockers' messages, sorted and each once. The wording is the caller's. */
  method PublishBlockers(packages: Packages, message: Blocker -> string) returns (messages: seq<string>)
    requires DistinctNames(packages)
    ensures NamesAscend(messages)
    ensures forall m :: m in messages <==> exists b | Blocks(packages, b) :: message(b) == m
  {
    hide BuildGraph, Below, Reaches, Blocks, NamesAscend;
    var blockers := BlockersOf(packages);
    messages := InOrder(set b | b in blockers :: message(b));
  }

  /** The blockers before their messages are written. */
  method BlockersOf(packages: Packages) returns (blockers: set<Blocker>)
    requires DistinctNames(packages)
    ensures forall b :: b in blockers <==> Blocks(packages, b)
  {
    hide BuildGraph, Below, Reaches;
    blockers := {};
    for i := 0 to |packages|
      invariant forall b :: b in blockers <==> BlocksUpTo(packages, b, i, 0)
    {
      var p := packages[i];
      if p.publishable {
        for j := 0 to |p.deps|
          invariant forall b :: b in blockers <==> BlocksUpTo(packages, b, i, j)
        {
          var d := p.deps[j];
          var found := false;
          if d.kind == Development && d.HasVersionRequirement() {
            var target := PackageNamed(packages, d.name);
            if target.Some? {
              var back := ReachableFrom(packages, target.value);
              BelowIsReaches(packages, target.value, p.name);
              found := p.name in back;
            }
          }
          assert found <==> BlocksAt(packages, Blocker(p.name, d.name, d.req), i, j);
          if found {
            blockers := blockers + {Blocker(p.name, d.name, d.req)};
          }
          NextEdge(packages, i, j);
        }
      }
      NextPackage(packages, i);
    }
    EveryEdge(packages);
  }

  ghost predicate BlocksAt(packages: Packages, b: Blocker, i: nat, j: nat)
    requires i < |packages| && j < |packages[i].deps|
  {
    var p, d := packages[i], packages[i].deps[j];
    && p.publishable
    && b == Blocker(p.name, d.name, d.req)
    && d.kind == Development
    && d.HasVersionRequirement()
    && d.name in Names(packages)
    && Reaches(BuildGraph(packages), d.name, p.name)
  }

  /** Some edge before the `j`-th of package `i` is a blocker. */
  ghost predicate BlocksUpTo(packages: Packages, b: Blocker, i: nat, j: nat) {
    exists k: nat, l: nat | k < |packages| && l < |packages[k].deps| && (k < i || (k == i && l < j)) ::
      BlocksAt(packages, b, k, l)
  }

  lemma NextEdge(packages: Packages, i: nat, j: nat)
    requires i < |packages| && j < |packages[i].deps|
    ensures forall b :: BlocksUpTo(packages, b, i, j + 1) <==> BlocksUpTo(packages, b, i, j) || BlocksAt(packages, b, i, j)
  {
    hide BlocksAt;
  }

  lemma NextPackage(packages: Packages, i: nat)
    requires i < |packages|
    ensures forall b :: BlocksUpTo(packages, b, i + 1, 0) <==> BlocksUpTo(packages, b, i, |packages[i].deps|)
    ensures !packages[i].publishable ==>
              forall b :: BlocksUpTo(packages, b, i + 1, 0) <==> BlocksUpTo(packages, b, i, 0)
  {
    hide Reaches, BuildGraph;
  }

  lemma EveryEdge(packages: Packages)
    ensures forall b :: BlocksUpTo(packages, b, |packages|, 0) <==> Blocks(packages, b)
  {
    hide Reaches, BuildGraph;
    forall b ensures BlocksUpTo(packages, b, |packages|, 0) <==> Blocks(packages, b) {
      if Blocks(packages, b) {
        var p, d :| p in packages && d in p.deps && p.publishable && b == Blocker(p.name, d.name, d.req)
          && d.kind == Development && d.HasVersionRequirement() && d.name in Names(packages)
          && Reaches(BuildGraph(packages), d.name, p.name);
        var i :| 0 <= i < |packages| && packages[i] == p;
        var j :| 0 <= j < |p.deps| && p.deps[j] == d;
        assert BlocksAt(packages, b, i, j);
      }
    }
  }

  /** `graph` with one more edge. */
  function WithEdge(graph: Graph, from: string, to: string): Graph
    requires from in graph
  {
    graph[from := graph[from] + {to}]
  }

  /** A path that may use the new edge either does not need it, or goes to its start and on from its end. */
  lemma {:induction false} PathWithEdge(graph: Graph, from: string, to: string, path: seq<string>)
    requires from in graph && IsPath(WithEdge(graph, from, to), path) && |path| > 1
    ensures var a, b := path[0], path[|path| - 1];
            || Reaches(graph, a, b)
            || ((a == from || Reaches(graph, a, from)) && (to == b || Reaches(graph, to, b)))
    decreases |path|
  {
    hide Reaches;
    var wider := WithEdge(graph, from, to);
    var a, next, b := path[0], path[1], path[|path| - 1];
    assert a in wider && next in wider[a];
    if next in graph[a] {
      ReachesByEdge(graph, a, next);
    }
    if |path| > 2 {
      var rest := path[1..];
      forall i | 0 <= i < |rest| - 1 ensures rest[i] in wider && rest[i + 1] in wider[rest[i]] {
        assert rest[i] == path[i + 1] && rest[i + 1] == path[i + 2];
      }
      PathWithEdge(graph, from, to, rest);
      if next in graph[a] {
        if Reaches(graph, next, b) {
          ReachesTransitive(graph, a, next, b);
        }
        if Reaches(graph, next, from) {
          ReachesTransitive(graph, a, next, from);
        }
      }
    }
  }

  /**
   What the gate's test decides: on an acyclic workspace, counting one dev edge as a
   build edge makes a cycle exactly when its target reaches back, or it is a
   package's dev edge on itself, which the test does not see.
   */
  lemma DevEdgeClosesCycle(graph: Graph, from: string, to: string)
    requires !Cyclic(graph) && from in graph
    ensures Cyclic(WithEdge(graph, from, to)) <==> to == from || Reaches(graph, to, from)
  {
    var wider := WithEdge(graph, from, to);
    ReachesByEdge(wider, from, to);
    if Reaches(graph, to, from) {
      var p :| IsPath(graph, p) && |p| > 1 && p[0] == to && p[|p| - 1] == from;
      assert IsPath(wider, p);
      ReachesTransitive(wider, from, to, from);
    }
    if name :| Reaches(wider, name, name) {
      var p :| IsPath(wider, p) && |p| > 1 && p[0] == name && p[|p| - 1] == name;
      PathWithEdge(graph, from, to, p);
      if to != from && Reaches(graph, to, name) && Reaches(graph, name, from) {
        ReachesTransitive(graph, to, name, from);
      }
    }
  }

  /** A versioned dev edge of a publishable member to a member: what the gate is asked about. */
  ghost predicate DevEdge(packages: Packages, p: Package, d: Dep) {
    && p in packages && d in p.deps && p.publishable
    && d.kind == Development && d.HasVersionRequirement() && d.name in Names(packages)
  }

  /** The gate reports such an edge exactly when its target reaches back over build edges. */
  lemma ReportedExactly(packages: Packages, p: Package, d: Dep)
    requires DistinctNames(packages) && DevEdge(packages, p, d)
    ensures Blocks(packages, Blocker(p.name, d.name, d.req)) <==> Reaches(BuildGraph(packages), d.name, p.name)
  {
    hide Reaches, BuildGraph;
  }

  /** On an acyclic workspace the gate's answer is whether the edge would close a cycle, except for a self edge. */
  lemma GateMissesSelfEdges(packages: Packages, p: Package, d: Dep)
    requires DistinctNames(packages) && DevEdge(packages, p, d) && !Cyclic(BuildGraph(packages))
    ensures p.name in BuildGraph(packages)
    ensures (Blocks(packages, Blocker(p.name, d.name, d.req)) <==>
             Cyclic(WithEdge(BuildGraph(packages), p.name, d.name)))
            <==> d.name != p.name
  {
    ReportedExactly(packages, p, d);
    EdgesOf(packages, p.name);
    NamedIsListed(packages, p);
    DevEdgeClosesCycle(BuildGraph(packages), p.name, d.name);
    if d.name == p.name {
      assert !Reaches(BuildGraph(packages), p.name, p.name);
    }
  }

  /** A publishable package with a versioned dev-dependency on itself: a cycle, and no blocker. */
  lemma SelfEdgeIsMissed()
    ensures var packages := [Package("moso", true, [Dep("moso", Development, "1")])];
            && DistinctNames(packages)
            && "moso" in BuildGraph(packages)
            && Cyclic(WithEdge(BuildGraph(packages), "moso", "moso"))
            && !exists b :: Blocks(packages, b)
  {
    var d := Dep("moso", Development, "1");
    var p := Package("moso", true, [d]);
    var packages := [p];
    var graph := BuildGraph(packages);
    NamedIsListed(packages, p);
    assert p.name in Names(packages) && p.BuildEdges() == {};
    assert forall n | n in graph :: graph[n] == {} by {
      assert forall n | n in Names(packages) :: n == "moso";
    }
    NoEdgesNoPath(graph, "moso");
    ReachesByEdge(WithEdge(graph, "moso", "moso"), "moso", "moso");
  }

  lemma NoEdgesNoPath(graph: Graph, name: string)
    requires forall n | n in graph :: graph[n] == {}
    ensures forall from :: !Reaches(graph, from, name)
  {
    forall from ensures !Reaches(graph, from, name) {
      if Reaches(graph, from, name) {
        var next := ReachesFirstEdge(graph, from, name);
      }
    }
  }

  // ----- Packages the facade reaches and which build on it

  const FACADE: string := "moso"

  ghost predicate Finding(packages: Packages, p: Package) {
    p in packages && PassesFilters(p) && Reaches(BuildGraph(packages), FACADE, p.name)
  }

  /** The rule's two filters: one of the workspace's own crates, whose first entry for the facade is a build edge. */
  predicate PassesFilters(p: Package) {
    && p.IsMosoCrate() && p.name != FACADE
    && p.FirstDep(FACADE).Some? && p.FirstDep(FACADE).value.IsBuildRelevant()
  }

  /** The package closes a build cycle through the facade. */
  ghost predicate ClosesFacadeCycle(packages: Packages, p: Package) {
    p in packages && FACADE in p.BuildEdges() && Reaches(BuildGraph(packages), FACADE, p.name)
  }

  /** The findings among the first `k` packages, in listing order. */
  ghost function FindingsUpTo(packages: Packages, k: nat): (found: seq<Package>)
    requires k <= |packages|
    ensures forall p :: p in found <==> p in packages[..k] && Finding(packages, p)
  {
    if k == 0 then []
    else
      assert packages[..k] == packages[..k - 1] + [packages[k - 1]];
      FindingsUpTo(packages, k - 1) + if Finding(packages, packages[k - 1]) then [packages[k - 1]] else []
  }

  /** `rule_4`: skipped without a facade, else the packages found, in listing order. */
  method RuleFour(packages: Packages) returns (r: Option<seq<Package>>)
    requires DistinctNames(packages)
    ensures r.None? <==> FACADE !in Names(packages)
    ensures r.Some? ==> r.value == FindingsUpTo(packages, |packages|)
    ensures r.Some? ==> forall p :: p in r.value <==> Finding(packages, p)
  {
    hide BuildGraph, Below, Reaches;
    var facade := PackageNamed(packages, FACADE);
    if facade.None? {
      return None;
    }
    var reachable := ReachableFrom(packages, facade.value);
    forall n ensures n in reachable <==> Reaches(BuildGraph(packages), FACADE, n) {
      BelowIsReaches(packages, facade.value, n);
    }
    var findings: seq<Package> := [];
    for i := 0 to |packages|
      invariant findings == FindingsUpTo(packages, i)
    {
      var p := packages[i];
      var dep := p.FirstDep(FACADE);
      if p.IsMosoCrate() && p.name != FACADE && dep.Some? && dep.value.IsBuildRelevant() && p.name in reachable {
        findings := findings + [p];
      }
    }
    assert packages[..|packages|] == packages;
    return Some(findings);
  }

  /** Every finding is a real cycle through the facade, so no publish order exists. */
  lemma FindingBlocksPublishing(packages: Packages, p: Package)
    requires DistinctNames(packages) && Finding(packages, p)
    ensures Reaches(BuildGraph(packages), FACADE, FACADE) && Cyclic(BuildGraph(packages))
  {
    var graph := BuildGraph(packages);
    NamedIsListed(packages, p);
    assert p.name in Names(packages);
    assert p.FirstDep(FACADE).value.name in p.BuildEdges();
    ReachesByEdge(graph, p.name, FACADE);
    ReachesTransitive(graph, FACADE, p.name, FACADE);
  }

  /** Of the packages that close a facade cycle, exactly those that pass the filters are found, and nothing else is. */
  lemma FoundExactly(packages: Packages, p: Package)
    requires DistinctNames(packages)
    ensures Finding(packages, p) <==> ClosesFacadeCycle(packages, p) && PassesFilters(p)
  {
    hide Reaches, BuildGraph;
  }

  lemma OnCycleIsClosed(packages: Packages)
    requires DistinctNames(packages)
    ensures Reaches(BuildGraph(packages), FACADE, FACADE) <==>
            FACADE in Names(packages) && (FACADE in PackageNamed(packages, FACADE).value.BuildEdges()
                                          || exists p :: ClosesFacadeCycle(packages, p))
  {
    var graph := BuildGraph(packages);
    if Reaches(graph, FACADE, FACADE) {
      var first := ReachesFirstEdge(graph, FACADE, FACADE);
      var last := ReachesLastEdge(graph, FACADE, FACADE);
      var p := PackageNamed(packages, last).value;
      assert p in packages && FACADE in p.BuildEdges();
      assert last != FACADE ==> ClosesFacadeCycle(packages, p);
    }
    if p :| ClosesFacadeCycle(packages, p) {
      NamedIsListed(packages, p);
      EdgesOf(packages, p.name);
      ReachesByEdge(graph, p.name, FACADE);
      ReachesTransitive(graph, FACADE, p.name, FACADE);
    }
    if FACADE in Names(packages) && FACADE in PackageNamed(packages, FACADE).value.BuildEdges() {
      ReachesByEdge(graph, FACADE, FACADE);
    }
  }

  /**
   The workspace form: the rule finds something exactly when some package that closes a cycle passes the
   filters, and finds every such package exactly when all of them do.
   */
  lemma RuleFourExactly(packages: Packages)
    requires DistinctNames(packages)
    ensures (exists p :: Finding(packages, p)) <==> exists p | PassesFilters(p) :: ClosesFacadeCycle(packages, p)
    ensures (forall p | ClosesFacadeCycle(packages, p) :: Finding(packages, p)) <==>
            forall p | ClosesFacadeCycle(packages, p) :: PassesFilters(p)
  {
    hide ClosesFacadeCycle, Finding, PassesFilters;
    forall p ensures Finding(packages, p) <==> ClosesFacadeCycle(packages, p) && PassesFilters(p) {
      FoundExactly(packages, p);
    }
  }

  /** No package lists the facade in two tables, and only Moso crates build-depend on it. */
  ghost predicate FacadeListedOnce(packages: Packages) {
    forall p, d, e | p in packages && d in p.deps && e in p.deps && d.name == FACADE && e.name == FACADE ::
      d == e && (d.IsBuildRelevant() ==> p.IsMosoCrate() && p.name != FACADE)
  }

  /** Then the rule is complete: it finds something exactly when the facade is on a build cycle. */
  lemma RuleFourComplete(packages: Packages)
    requires DistinctNames(packages) && FacadeListedOnce(packages)
    ensures (exists p :: Finding(packages, p)) <==> Reaches(BuildGraph(packages), FACADE, FACADE)
  {
    var graph := BuildGraph(packages);
    if p :| Finding(packages, p) {
      FindingBlocksPublishing(packages, p);
    }
    if Reaches(graph, FACADE, FACADE) {
      var last := ReachesLastEdge(graph, FACADE, FACADE);
      var p := PackageNamed(packages, last).value;
      var d :| d in p.deps && d.IsBuildRelevant() && d.name == FACADE;
      assert p.FirstDep(FACADE).Some?;
      assert p.FirstDep(FACADE).value == d;
      assert p.name != FACADE;
      assert Finding(packages, p);
    }
  }

  /** A path's last edge, and either nothing before it or a path to there. */
  lemma ReachesLastEdge(graph: Graph, a: string, c: string) returns (b: string)
    requires Reaches(graph, a, c)
    ensures b in graph && c in graph[b] && (b == a || Reaches(graph, a, b))
  {
    var p :| IsPath(graph, p) && |p| > 1 && p[0] == a && p[|p| - 1] == c;
    var last := |p| - 2;
    b := p[last];
    assert p[last + 1] in graph[p[last]];
    if last > 0 {
      assert IsPath(graph, p[..last + 1]);
    }
  }

  /** Listed twice, dev-dependency first, the facade's cycle is missed: only the first entry is looked at. */
  lemma RuleFourMissesSecondListing()
    ensures var packages := [
              Package("moso", true, [Dep("moso-core", Normal, "*")]),
              Package("moso-core", true, [Dep("moso", Development, "*"), Dep("moso", Normal, "*")])];
            && DistinctNames(packages)
            && Reaches(BuildGraph(packages), FACADE, FACADE)
            && !exists p :: Finding(packages, p)
  {
    var core := Package("moso-core", true, [Dep("moso", Development, "*"), Dep("moso", Normal, "*")]);
    var facade := Package("moso", true, [Dep("moso-core", Normal, "*")]);
    var packages := [facade, core];
    var graph := BuildGraph(packages);
    assert facade.name != core.name by { assert |"moso"| != |"moso-core"|; }
    NamedIsListed(packages, facade);
    NamedIsListed(packages, core);
    assert facade.deps[0] in facade.deps && core.deps[1] in core.deps;
    assert facade.name in Names(packages) && core.name in Names(packages);
    assert IsPath(graph, ["moso", "moso-core", "moso"]);
    assert core.FirstDep(FACADE) == Some(Dep("moso", Development, "*"));
  }

  // ----- In the manifest's own terms

  /** A lone star, with white space around it or not: what a path-only dependency reads. */
  predicate Starred(req: string) {
    exists i | 0 <= i < |req| :: StarAt(req, i)
  }

  predicate StarAt(req: string, i: nat) {
    i < |req| && req[i] == '*' && Blank(req[..i]) && Blank(req[i + 1..])
  }

  lemma VersionedExactly(d: Dep)
    ensures d.HasVersionRequirement() <==> !Blank(d.req) && !Starred(d.req)
  {
    hide Blank, Starred, Trim;
    BlankIsTrimmed(d.req);
    StarIsTrimmed(d.req);
  }

  lemma BlankIsTrimmed(req: string)
    ensures Trim(req) == "" <==> Blank(req)
  {
    hide IsWhitespace, Trim;
    var before, after := TrimParts(req);
    if Trim(req) == "" {
      assert req == before + after;
    } else {
      assert req[|before|] == Trim(req)[0];
    }
  }

  lemma StarIsTrimmed(req: string)
    ensures Trim(req) == "*" <==> Starred(req)
  {
    hide IsWhitespace, Trim, Blank;
    if Trim(req) == "*" {
      var before, after := TrimParts(req);
      assert req[..|before|] == before && req[|before| + 1..] == after;
      assert StarAt(req, |before|);
    }
    if Starred(req) {
      var i :| 0 <= i < |req| && StarAt(req, i);
      assert req == req[..i] + "*" + req[i + 1..];
      StarIsTight();
      TrimOf(req[..i], "*", req[i + 1..]);
    }
  }

  lemma StarIsTight()
    ensures Tight("*")
  {
  }

  /**
   The blockers with everything spelled out: dev edges that name a version, of publishable packages, to members that
   reach back.
   */
  lemma BlocksExactly(packages: Packages, b: Blocker)
    ensures Blocks(packages, b) <==>
            exists p, d | p in packages && d in p.deps ::
              && p.publishable && d.kind == Development
              && !Blank(d.req) && !Starred(d.req)
              && d.name in Names(packages) && Reaches(BuildGraph(packages), d.name, p.name)
              && b == Blocker(p.name, d.name, d.req)
  {
    hide Reaches, BuildGraph, Blank, Starred, Dep.HasVersionRequirement;
    forall d: Dep ensures d.HasVersionRequirement() <==> !Blank(d.req) && !Starred(d.req) {
      VersionedExactly(d);
    }
  }

  /** A path-only dev-dependency never blocks, wherever it points. */
  lemma PathOnlyNeverBlocks(packages: Packages, b: Blocker)
    requires Blank(b.req) || Starred(b.req)
    ensures !Blocks(packages, b)
  {
    hide Reaches, BuildGraph, Blank, Starred;
    BlocksExactly(packages, b);
  }

  /** The facade builds on a crate that has it as a dev-dependency. */
  function TwoPackages(req: string): Packages {
    [Package("moso", true, [Dep("moso-schema", Normal, "=0.1.0")]),
     Package("moso-schema", true, [Dep("moso", Development, req)])]
  }

  /** Path-only, the two can be published; pinned, they are exactly one blocker. */
  lemma TwoPackagesBlock(req: string)
    ensures DistinctNames(TwoPackages(req))
    ensures Blank(req) || Starred(req) ==> !exists b :: Blocks(TwoPackages(req), b)
    ensures !Blank(req) && !Starred(req) ==>
              forall b :: Blocks(TwoPackages(req), b) <==> b == Blocker("moso-schema", "moso", req)
    ensures Starred("*") && !Blank("=0.1.0") && !Starred("=0.1.0")
  {
    hide Blank, Starred, Blocks;
    TwoPackagesReach(req);
    Requirements();
    var packages := TwoPackages(req);
    forall b ensures Blocks(packages, b) <==> !Blank(req) && !Starred(req) && b == Blocker("moso-schema", "moso", req) {
      BlocksExactly(packages, b);
      var schema := packages[1];
      assert schema in packages && schema.deps[0] in schema.deps;
    }
  }

  lemma Requirements()
    ensures Starred("*") && !Blank("=0.1.0") && !Starred("=0.1.0")
  {
    assert StarAt("*", 0);
    assert "=0.1.0"[0] == '=';
    assert '*' !in "=0.1.0";
  }

  lemma TwoPackagesReach(req: string)
    ensures DistinctNames(TwoPackages(req)) && Names(TwoPackages(req)) == {"moso", "moso-schema"}
    ensures Reaches(BuildGraph(TwoPackages(req)), "moso", "moso-schema")
  {
    var packages := TwoPackages(req);
    assert |"moso"| != |"moso-schema"|;
    assert packages[0] in packages && packages[1] in packages;
    NamedIsListed(packages, packages[0]);
    assert packages[0].deps[0] in packages[0].deps;
    ReachesByEdge(BuildGraph(packages), "moso", "moso-schema");
  }

  /** In an order that came out, what a package needs at build time comes before it, in whatever table but the dev one. */
  lemma DependencyIsEarlier(packages: Packages, order: seq<Package>, i: nat, d: Dep) returns (j: nat)
    requires DistinctNames(packages) && multiset(order) == multiset(packages)
    requires Canonical(Members(BuildGraph(packages)), NamesOf(order))
    requires i < |order| && d in order[i].deps && d.kind != Development && d.name in Names(packages)
    ensures j < i && order[j].name == d.name
  {
    hide Canonical, IsPath;
    var graph := Members(BuildGraph(packages));
    var p := order[i];
    assert p in multiset(order);
    NamedIsListed(packages, p);
    var target := PackageNamed(packages, d.name).value;
    assert target in multiset(packages);
    assert target in order;
    j :| 0 <= j < |order| && order[j] == target;
    assert p.name in graph && d.name in p.BuildEdges() && d.name in graph[p.name];
    DependenciesFirst(graph, NamesOf(order), i, j);
  }

  /** The `k`-th entry is the first of that name. */
  predicate FirstAt(deps: seq<Dep>, wanted: string, k: nat) {
    k < |deps| && deps[k].name == wanted && forall l | 0 <= l < k :: deps[l].name != wanted
  }

  /**
   The rule spelled out: a `moso-` crate whose first entry for `moso` is no dev-dependency, which `moso` needs at
   build time.
   */
  lemma FindingSpelledOut(packages: Packages, p: Package)
    ensures Finding(packages, p) <==>
            && p in packages && |p.name| >= 5 && p.name[..5] == "moso-"
            && (exists k | 0 <= k < |p.deps| :: FirstAt(p.deps, "moso", k) && p.deps[k].kind != Development)
            && Reaches(BuildGraph(packages), "moso", p.name)
  {
    hide Reaches, BuildGraph, FirstAt;
    assert |"moso"| == 4;
    if p.FirstDep("moso").Some? {
      var k := FirstDepIs(p.deps, "moso");
    }
    forall k | 0 <= k < |p.deps| && FirstAt(p.deps, "moso", k) ensures p.FirstDep("moso") == Some(p.deps[k]) {
      FirstDepAt(p.deps, "moso", k);
    }
  }

  lemma {:induction false} FirstDepIs(deps: seq<Dep>, wanted: string) returns (k: nat)
    requires FirstDepIn(deps, wanted).Some?
    ensures FirstAt(deps, wanted, k) && FirstDepIn(deps, wanted) == Some(deps[k])
  {
    if deps[0].name == wanted {
      k := 0;
    } else {
      k := FirstDepIs(deps[1..], wanted);
      assert forall l | 0 < l <= k :: deps[l] == deps[1..][l - 1];
      k := k + 1;
    }
  }

  lemma FirstDepAt(deps: seq<Dep>, wanted: string, k: nat)
    requires FirstAt(deps, wanted, k)
    ensures FirstDepIn(deps, wanted) == Some(deps[k])
  {
    assert deps[k] in deps;
    var j := FirstDepIs(deps, wanted);
    assert j == k;
  }
}
