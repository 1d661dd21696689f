/** The workspace as `cargo metadata` declares it, and the graph its build edges form. */
module Workspace {
  import opened Wrappers
  import opened Text

  datatype DepKind = Normal | Development | Build

  datatype Dep = Dep(name: string, kind: DepKind, req: string) {
    predicate IsBuildRelevant() {
      kind == Normal || kind == Build
    }

    predicate HasVersionRequirement() {
      var trimmed := Trim(req);
      trimmed != "" && trimmed != "*"
    }
  }

  datatype Package = Package(name: string, publishable: bool, deps: seq<Dep>) {
    /** The names this package's build-relevant edges point at. */
    function BuildEdges(): set<string> {
      set d | d in deps && d.IsBuildRelevant() :: d.name
    }

    predicate IsMosoCrate() {
      name == "moso" || StartsWith(name, "moso-")
    }

    /** The first entry of that name, whichever table it stands in. */
    function FirstDep(wanted: string): Option<Dep> {
      FirstDepIn(deps, wanted)
    }
  }

  function FirstDepIn(deps: seq<Dep>, wanted: string): (r: Option<Dep>)
    ensures r.Some? ==> r.value in deps && r.value.name == wanted
    ensures r.None? ==> forall d | d in deps :: d.name != wanted
  {
    if deps == [] then None
    else if deps[0].name == wanted then Some(deps[0])
    else FirstDepIn(deps[1..], wanted)
  }

  type Packages = seq<Package>

  function Names(packages: Packages): set<string> {
    set p | p in packages :: p.name
  }

  /** The member with this name: the first one listed. */
  function PackageNamed(packages: Packages, name: string): (r: Option<Package>)
    ensures r.Some? ==> r.value in packages && r.value.name == name
    ensures r.None? <==> name !in Names(packages)
  {
    if packages == [] then None
    else if packages[0].name == name then Some(packages[0])
    else
      assert packages == [packages[0]] + packages[1..];
      PackageNamed(packages[1..], name)
  }

  ghost predicate DistinctNames(packages: Packages) {
    forall i, j | 0 <= i < j < |packages| :: packages[i].name != packages[j].name
  }

  lemma NamedIsListed(packages: Packages, p: Package)
    requires DistinctNames(packages) && p in packages
    ensures PackageNamed(packages, p.name) == Some(p)
  {
    var found := PackageNamed(packages, p.name);
    assert p.name in Names(packages);
  }

  // ----- Graphs

  type Graph = map<string, set<string>>

  /** Every member's build edges, those to crates outside the workspace included. */
  function BuildGraph(packages: Packages): Graph {
    map name | name in Names(packages) :: PackageNamed(packages, name).value.BuildEdges()
  }

  /** The edges between members only. */
  function Members(graph: Graph): Graph {
    map name | name in graph :: graph[name] * graph.Keys
  }

  ghost predicate IsPath(graph: Graph, path: seq<string>) {
    && path != []
    && forall i | 0 <= i < |path| - 1 :: path[i] in graph && path[i + 1] in graph[path[i]]
  }

  /** A path with at least one edge leads from `a` to `b`. */
  ghost predicate Reaches(graph: Graph, a: string, b: string) {
    exists path :: IsPath(graph, path) && |path| > 1 && path[0] == a && path[|path| - 1] == b
  }

  ghost predicate Cyclic(graph: Graph) {
    exists name :: Reaches(graph, name, name)
  }

  lemma ReachesByEdge(graph: Graph, a: string, b: string)
    requires a in graph && b in graph[a]
    ensures Reaches(graph, a, b)
  {
    assert IsPath(graph, [a, b]);
  }

  lemma ReachesTransitive(graph: Graph, a: string, b: string, c: string)
    requires Reaches(graph, a, b) && Reaches(graph, b, c)
    ensures Reaches(graph, a, c)
  {
    var p :| IsPath(graph, p) && |p| > 1 && p[0] == a && p[|p| - 1] == b;
    var q :| IsPath(graph, q) && |q| > 1 && q[0] == b && q[|q| - 1] == c;
    var path := p + q[1..];
    forall i | 0 <= i < |path| - 1 ensures path[i] in graph && path[i + 1] in graph[path[i]] {
      if i >= |p| - 1 {
        assert path[i] == q[i - (|p| - 1)] && path[i + 1] == q[i + 1 - (|p| - 1)];
      }
    }
    assert IsPath(graph, path);
  }

  /** A path's first edge, and either nothing more or a path from there. */
  lemma ReachesFirstEdge(graph: Graph, a: string, c: string) returns (b: string)
    requires Reaches(graph, a, c)
    ensures a in graph && b in graph[a] && (b == c || Reaches(graph, b, c))
  {
    var p :| IsPath(graph, p) && |p| > 1 && p[0] == a && p[|p| - 1] == c;
    b := p[1];
    if |p| > 2 {
      var q := p[1..];
      forall i | 0 <= i < |q| - 1 ensures q[i] in graph && q[i + 1] in graph[q[i]] {
        assert q[i] == p[i + 1] && q[i + 1] == p[i + 2];
      }
      assert IsPath(graph, q);
    }
  }

  /** Leaving out the edges that exit the workspace loses no cycle: a node on one has edges, so it is a member. */
  lemma MemberCycles(graph: Graph)
    ensures Cyclic(Members(graph)) <==> Cyclic(graph)
  {
    var members := Members(graph);
    if Cyclic(members) {
      var name :| Reaches(members, name, name);
      var p :| IsPath(members, p) && |p| > 1 && p[0] == name && p[|p| - 1] == name;
      assert IsPath(graph, p);
      assert Reaches(graph, name, name);
    }
    if Cyclic(graph) {
      var name :| Reaches(graph, name, name);
      var p :| IsPath(graph, p) && |p| > 1 && p[0] == name && p[|p| - 1] == name;
      forall i | 0 <= i < |p| - 1 ensures p[i] in members && p[i + 1] in members[p[i]] {
        assert p[i] in graph && p[i + 1] in graph[p[i]];
        assert i + 1 < |p| - 1 ==> p[i + 1] in graph;
        assert p[0] in graph;
      }
      assert IsPath(members, p);
      assert Reaches(members, name, name);
    }
  }

  // ----- A set in name order

  /** Rust's order on `str`: by bytes, which for UTF-8 is by code points. */
  predicate NameLess(a: string, b: string) {
    b != "" && (a == "" || a[0] < b[0] || (a[0] == b[0] && NameLess(a[1..], b[1..])))
  }

  /** That is: where they first differ the smaller character decides, and a prefix comes first. */
  lemma {:induction false} NameLessExactly(a: string, b: string)
    ensures NameLess(a, b) <==> exists i: nat :: DiffersAt(a, b, i)
    decreases |a|
  {
    if a != "" && b != "" && a[0] == b[0] {
      NameLessExactly(a[1..], b[1..]);
      if i: nat :| DiffersAt(a[1..], b[1..], i) {
        assert a[..i + 1] == [a[0]] + a[1..][..i] && b[..i + 1] == [b[0]] + b[1..][..i];
        assert DiffersAt(a, b, i + 1);
      }
      if i: nat :| DiffersAt(a, b, i) {
        assert a[1..][..i - 1] == a[..i][1..] && b[1..][..i - 1] == b[..i][1..];
        assert DiffersAt(a[1..], b[1..], i - 1);
      }
    } else {
      forall i: nat | DiffersAt(a, b, i) ensures i == 0 {
        SharedFirst(a, b, i);
      }
      assert NameLess(a, b) ==> DiffersAt(a, b, 0);
    }
  }

  lemma SharedFirst(a: string, b: string, i: nat)
    requires DiffersAt(a, b, i)
    ensures i > 0 ==> a[0] == b[0]
  {
    if i > 0 {
      assert a[..i][0] == b[..i][0];
    }
  }

  predicate DiffersAt(a: string, b: string, i: nat) {
    i <= |a| && i < |b| && a[..i] == b[..i] && (i == |a| || a[i] < b[i])
  }

  lemma {:induction false} NameLessTotal(a: string, b: string)
    ensures NameLess(a, b) || NameLess(b, a) || a == b
    ensures !(NameLess(a, b) && NameLess(b, a)) && !NameLess(a, a)
  {
    if a != "" && b != "" && a[0] == b[0] {
      NameLessTotal(a[1..], b[1..]);
      NameLessTotal(a[1..], a[1..]);
      assert a == [a[0]] + a[1..] && b == [b[0]] + b[1..];
    } else if a != "" {
      NameLessTotal(a[1..], a[1..]);
    }
  }

  lemma {:induction false} NameLessTransitive(a: string, b: string, c: string)
    requires NameLess(a, b) && NameLess(b, c)
    ensures NameLess(a, c)
  {
    if a != "" && a[0] == b[0] == c[0] {
      NameLessTransitive(a[1..], b[1..], c[1..]);
    }
  }

  predicate IsLeast(name: string, names: set<string>) {
    name in names && forall other | other in names && other != name :: NameLess(name, other)
  }

  lemma {:induction false} LeastExists(names: set<string>)
    requires names != {}
    ensures exists least | least in names :: IsLeast(least, names)
    decreases |names|
  {
    var any :| any in names;
    var rest := names - {any};
    assert forall n | n in names :: n == any || n in rest;
    if rest == {} {
      assert IsLeast(any, names);
    } else {
      LeastExists(rest);
      var other :| other in rest && IsLeast(other, rest);
      NameLessTotal(any, other);
      if NameLess(any, other) {
        forall n | n in names && n != any ensures NameLess(any, n) {
          if n != other {
            NameLessTransitive(any, other, n);
          }
        }
        assert IsLeast(any, names);
      } else {
        assert IsLeast(other, names);
      }
    }
  }

  lemma LeastUnique(names: set<string>)
    ensures forall a, b | a in names && b in names && IsLeast(a, names) && IsLeast(b, names) :: a == b
  {
    forall a, b | a in names && b in names && IsLeast(a, names) && IsLeast(b, names)
      ensures a == b
    {
      NameLessTotal(a, b);
    }
  }

  function SetOf(names: seq<string>): set<string> {
    set n | n in names
  }

  ghost predicate NamesAscend(sorted: seq<string>) {
    forall i, j | 0 <= i < j < |sorted| :: NameLess(sorted[i], sorted[j])
  }

  ghost predicate Enumerates(sorted: seq<string>, names: set<string>) {
    && (forall n :: n in sorted <==> n in names)
    && NamesAscend(sorted)
  }

  lemma EnumeratesCons(least: string, rest: seq<string>, names: set<string>)
    requires IsLeast(least, names) && Enumerates(rest, names - {least})
    ensures Enumerates([least] + rest, names)
  {
    hide NameLess;
    var sorted := [least] + rest;
    forall i, j | 0 <= i < j < |sorted| ensures NameLess(sorted[i], sorted[j]) {
      assert sorted[j] == rest[j - 1] && rest[j - 1] in rest;
      if i > 0 {
        assert sorted[i] == rest[i - 1];
      }
    }
  }

  /** The elements in ascending order, as a `BTreeSet` or `BTreeMap` yields them. */
  function InOrder(names: set<string>): (sorted: seq<string>)
    ensures Enumerates(sorted, names)
    decreases |names|
  {
    if names == {} then []
    else
      var least := LeastOf(names);
      var rest := InOrder(names - {least});
      EnumeratesCons(least, rest, names);
      [least] + rest
  }

  function LeastOf(names: set<string>): (least: string)
    requires names != {}
    ensures IsLeast(least, names)
  {
    LeastExists(names);
    LeastUnique(names);
    var least :| least in names && IsLeast(least, names);
    least
  }
}
