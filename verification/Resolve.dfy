/** Resolution of lock-file edges, which name packages, to candidate packages. */
module Resolve {
  import opened Models
  import opened Orders

  datatype ResolvedGraph = ResolvedGraph(
    index: map<Node, seq<Package>>,
    edges: map<string, seq<Package>>,
    dangling: seq<(Package, string)>,
    ambiguous: seq<(Package, string, int)>)
  {
    /** `edges.get(identity, [])` */
    function EdgesOf(pkg: Package): seq<Package> {
      if pkg.Identity() in edges then edges[pkg.Identity()] else []
    }
  }

  function DepKey(pkg: Package, dep: Dependency): Node {
    Node(pkg.ecosystem, Norm(dep.name, pkg.ecosystem))
  }

  /** The packages a key may stand for, in inventory order. */
  function Candidates(pkgs: seq<Package>, key: Node): seq<Package> {
    if pkgs == [] then [] else
      var last := pkgs[|pkgs| - 1];
      Candidates(pkgs[..|pkgs| - 1], key) + (if NodeKey(last) == key then [last] else [])
  }

  lemma {:induction false} CandidatesMeaning(pkgs: seq<Package>, key: Node, q: Package)
    ensures q in Candidates(pkgs, key) <==> q in pkgs && NodeKey(q) == key
    ensures multiset(Candidates(pkgs, key))[q] == if NodeKey(q) == key then multiset(pkgs)[q] else 0
  {
    hide NodeKey;
    if pkgs != [] {
      assert pkgs == pkgs[..|pkgs| - 1] + [pkgs[|pkgs| - 1]];
      CandidatesMeaning(pkgs[..|pkgs| - 1], key, q);
    }
  }

  /** A dependency of `p` on `q`: of its ecosystem, and a spelling of its name. */
  predicate AsksFor(p: Package, dep: Dependency, q: Package) {
    q.ecosystem == p.ecosystem && SameName(p.ecosystem, dep.name, q.name)
  }

  /** `p` has a dependency that spells the name of `q`. */
  ghost predicate DependsOn(p: Package, q: Package) {
    exists dep :: dep in p.dependencies && AsksFor(p, dep, q)
  }

  lemma KeysMeet(p: Package, dep: Dependency, q: Package)
    ensures DepKey(p, dep) == NodeKey(q) <==> AsksFor(p, dep, q)
  {
    hide Norm;
    NormIff(p.ecosystem, dep.name, q.name);
  }

  /** What the dependencies `deps` of `pkg` resolve to, dependency by dependency. */
  function Targets(pkgs: seq<Package>, pkg: Package, deps: seq<Dependency>): seq<Package> {
    if deps == [] then [] else
      Targets(pkgs, pkg, deps[..|deps| - 1]) + Candidates(pkgs, DepKey(pkg, deps[|deps| - 1]))
  }

  lemma {:induction false} TargetsMeaning(pkgs: seq<Package>, pkg: Package, deps: seq<Dependency>, q: Package)
    ensures q in Targets(pkgs, pkg, deps) <==>
            q in pkgs && exists dep :: dep in deps && AsksFor(pkg, dep, q)
  {
    hide AsksFor, DepKey;
    if deps != [] {
      var last := deps[|deps| - 1];
      assert deps == deps[..|deps| - 1] + [last];
      TargetsMeaning(pkgs, pkg, deps[..|deps| - 1], q);
      CandidatesMeaning(pkgs, DepKey(pkg, last), q);
      KeysMeet(pkg, last, q);
    }
  }

  /** The dependencies that resolve to nothing. */
  function Unresolved(pkgs: seq<Package>, pkg: Package, deps: seq<Dependency>): seq<(Package, string)> {
    if deps == [] then [] else
      var dep := deps[|deps| - 1];
      Unresolved(pkgs, pkg, deps[..|deps| - 1])
      + (if Candidates(pkgs, DepKey(pkg, dep)) == [] then [(pkg, dep.name)] else [])
  }

  /** The dependencies with several candidates, and how many. */
  function Overresolved(pkgs: seq<Package>, pkg: Package, deps: seq<Dependency>): seq<(Package, string, int)> {
    if deps == [] then [] else
      var dep := deps[|deps| - 1];
      var n := |Candidates(pkgs, DepKey(pkg, dep))|;
      Overresolved(pkgs, pkg, deps[..|deps| - 1]) + (if n > 1 then [(pkg, dep.name, n)] else [])
  }

  lemma {:induction false} UnresolvedMeaning(pkgs: seq<Package>, pkg: Package, deps: seq<Dependency>,
                                             x: (Package, string))
    ensures x in Unresolved(pkgs, pkg, deps) <==>
            x.0 == pkg && exists dep :: dep in deps && dep.name == x.1 && Candidates(pkgs, DepKey(pkg, dep)) == []
  {
    if deps != [] {
      assert deps == deps[..|deps| - 1] + [deps[|deps| - 1]];
      UnresolvedMeaning(pkgs, pkg, deps[..|deps| - 1], x);
    }
  }

  function AllUnresolved(pkgs: seq<Package>, sources: seq<Package>): seq<(Package, string)> {
    if sources == [] then [] else
      var p := sources[|sources| - 1];
      AllUnresolved(pkgs, sources[..|sources| - 1]) + Unresolved(pkgs, p, p.dependencies)
  }

  function AllOverresolved(pkgs: seq<Package>, sources: seq<Package>): seq<(Package, string, int)> {
    if sources == [] then [] else
      var p := sources[|sources| - 1];
      AllOverresolved(pkgs, sources[..|sources| - 1]) + Overresolved(pkgs, p, p.dependencies)
  }

  /** The resolved edges of `pkg`, in the order the graph keeps them. */
  function EdgeList(pkgs: seq<Package>, pkg: Package): seq<Package> {
    SortList(TargetOrder, Targets(pkgs, pkg, pkg.dependencies))
  }

  function TargetOrder(p: Package): Key { [p.ecosystem, p.name, p.version] }

  /** No later package has the identity of package `i`, so its edges are not overwritten. */
  ghost predicate LastWithIdentity(pkgs: seq<Package>, i: int) {
    0 <= i < |pkgs| && forall j | i < j < |pkgs| :: pkgs[j].Identity() != pkgs[i].Identity()
  }

  ghost predicate DistinctIdentities(pkgs: seq<Package>) {
    forall i, j | 0 <= i < j < |pkgs| :: pkgs[i].Identity() != pkgs[j].Identity()
  }

  ghost predicate IndexOfPackages(index: map<Node, seq<Package>>, pkgs: seq<Package>) {
    && (forall key | key in index :: index[key] == Candidates(pkgs, key))
    && (forall key :: key in index <==> Candidates(pkgs, key) != [])
  }

  ghost predicate EdgesOfPackages(edges: map<string, seq<Package>>, pkgs: seq<Package>, n: int)
    requires 0 <= n <= |pkgs|
  {
    && (forall id :: id in edges <==> exists i :: 0 <= i < n && pkgs[i].Identity() == id)
    && (forall i | LastWithIdentity(pkgs[..n], i) && pkgs[i].Identity() in edges ::
          edges[pkgs[i].Identity()] == EdgeList(pkgs, pkgs[i]))
  }

  /** `graph` is what `resolve_graph(pkgs)` returns. */
  ghost predicate IsResolution(graph: ResolvedGraph, pkgs: seq<Package>) {
    && IndexOfPackages(graph.index, pkgs)
    && EdgesOfPackages(graph.edges, pkgs, |pkgs|)
    && graph.dangling == AllUnresolved(pkgs, pkgs)
    && graph.ambiguous == AllOverresolved(pkgs, pkgs)
  }

  lemma IndexStep(index: map<Node, seq<Package>>, pkgs: seq<Package>, i: nat)
    requires i < |pkgs| && IndexOfPackages(index, pkgs[..i])
    ensures var key := NodeKey(pkgs[i]); var old_ := if key in index then index[key] else [];
            IndexOfPackages(index[key := old_ + [pkgs[i]]], pkgs[..i + 1])
  {
    assert pkgs[..i + 1][..i] == pkgs[..i];
    var key := NodeKey(pkgs[i]);
    forall k ensures Candidates(pkgs[..i + 1], k)
                     == Candidates(pkgs[..i], k) + (if k == key then [pkgs[i]] else []) {
    }
  }

  lemma EdgesStep(edges: map<string, seq<Package>>, pkgs: seq<Package>, i: nat)
    requires i < |pkgs| && EdgesOfPackages(edges, pkgs, i)
    ensures EdgesOfPackages(edges[pkgs[i].Identity() := EdgeList(pkgs, pkgs[i])], pkgs, i + 1)
  {
    hide EdgeList, Package.Identity;
    var edges' := edges[pkgs[i].Identity() := EdgeList(pkgs, pkgs[i])];
    forall id ensures id in edges' <==> exists k :: 0 <= k < i + 1 && pkgs[k].Identity() == id {
      if id == pkgs[i].Identity() {
      } else if id in edges {
        var k :| 0 <= k < i && pkgs[k].Identity() == id;
      }
    }
    forall k | LastWithIdentity(pkgs[..i + 1], k) && pkgs[k].Identity() in edges'
      ensures edges'[pkgs[k].Identity()] == EdgeList(pkgs, pkgs[k])
    {
      if k < i {
        assert pkgs[..i + 1][i] == pkgs[i];
        assert LastWithIdentity(pkgs[..i], k);
      }
    }
  }

  lemma NothingResolved(pkgs: seq<Package>, pkg: Package)
    ensures Targets(pkgs, pkg, []) == [] && Unresolved(pkgs, pkg, []) == [] && Overresolved(pkgs, pkg, []) == []
  {
  }

  lemma ResolveStep(pkgs: seq<Package>, pkg: Package, k: nat)
    requires k < |pkg.dependencies|
    ensures var dep := pkg.dependencies[k];
      var deps, deps', found := pkg.dependencies[..k], pkg.dependencies[..k + 1], Candidates(pkgs, DepKey(pkg, dep));
      && Targets(pkgs, pkg, deps') == Targets(pkgs, pkg, deps) + found
      && Unresolved(pkgs, pkg, deps') == Unresolved(pkgs, pkg, deps) + (if found == [] then [(pkg, dep.name)] else [])
      && Overresolved(pkgs, pkg, deps') == Overresolved(pkgs, pkg, deps)
        + (if |found| > 1 then [(pkg, dep.name, |found|)] else [])
  {
    hide Candidates, DepKey;
    assert pkg.dependencies[..k + 1][..k] == pkg.dependencies[..k];
  }

  /** Resolves one package's dependencies against the finished index. */
  method ResolvePackage(index: map<Node, seq<Package>>, pkg: Package, ghost pkgs: seq<Package>,
                        dangling: seq<(Package, string)>, ambiguous: seq<(Package, string, int)>)
    returns (targets: seq<Package>, dangling': seq<(Package, string)>, ambiguous': seq<(Package, string, int)>)
    requires IndexOfPackages(index, pkgs)
    ensures targets == Targets(pkgs, pkg, pkg.dependencies)
    ensures dangling' == dangling + Unresolved(pkgs, pkg, pkg.dependencies)
    ensures ambiguous' == ambiguous + Overresolved(pkgs, pkg, pkg.dependencies)
  {
    hide Candidates, DepKey, Targets, Unresolved, Overresolved;
    NothingResolved(pkgs, pkg);
    targets, dangling', ambiguous' := [], dangling, ambiguous;
    for k := 0 to |pkg.dependencies|
      invariant targets == Targets(pkgs, pkg, pkg.dependencies[..k])
      invariant dangling' == dangling + Unresolved(pkgs, pkg, pkg.dependencies[..k])
      invariant ambiguous' == ambiguous + Overresolved(pkgs, pkg, pkg.dependencies[..k])
    {
      var dep := pkg.dependencies[k];
      ResolveStep(pkgs, pkg, k);
      var key := DepKey(pkg, dep);
      var candidates := if key in index then index[key] else [];
      assert candidates == Candidates(pkgs, key);
      if candidates == [] {
        dangling' := dangling' + [(pkg, dep.name)];
        continue;
      }
      targets := targets + candidates;
      if |candidates| > 1 {
        ambiguous' := ambiguous' + [(pkg, dep.name, |candidates|)];
      }
    }
    assert pkg.dependencies[..|pkg.dependencies|] == pkg.dependencies;
  }

  method ResolveGraph(pkgs: seq<Package>) returns (graph: ResolvedGraph)
    ensures IsResolution(graph, pkgs)
  {
    hide SortList, Targets, Candidates, IndexOfPackages, EdgesOfPackages, Package.Identity;
    var index: map<Node, seq<Package>> := map[];
    IndexStart();
    for i := 0 to |pkgs|
      invariant IndexOfPackages(index, pkgs[..i])
    {
      var key := NodeKey(pkgs[i]);
      IndexStep(index, pkgs, i);
      index := index[key := (if key in index then index[key] else []) + [pkgs[i]]];
    }
    assert pkgs[..|pkgs|] == pkgs;

    var edges: map<string, seq<Package>> := map[];
    var dangling, ambiguous := [], [];
    EdgesStart(pkgs);
    for i := 0 to |pkgs|
      invariant EdgesOfPackages(edges, pkgs, i)
      invariant dangling == AllUnresolved(pkgs, pkgs[..i])
      invariant ambiguous == AllOverresolved(pkgs, pkgs[..i])
    {
      var pkg := pkgs[i];
      assert pkgs[..i + 1][..i] == pkgs[..i];
      var targets;
      targets, dangling, ambiguous := ResolvePackage(index, pkg, pkgs, dangling, ambiguous);
      EdgesStep(edges, pkgs, i);
      edges := edges[pkg.Identity() := SortList(TargetOrder, targets)];
    }
    graph := ResolvedGraph(index, edges, dangling, ambiguous);
  }

  lemma IndexStart()
    ensures IndexOfPackages(map[], [])
  {
  }

  lemma EdgesStart(pkgs: seq<Package>)
    ensures EdgesOfPackages(map[], pkgs, 0)
  {
  }

  /** Edges stay inside the inventory, whatever the identities. */
  lemma EdgesStayInside(graph: ResolvedGraph, pkgs: seq<Package>, p: Package, q: Package)
    requires IsResolution(graph, pkgs) && p in pkgs && q in graph.EdgesOf(p)
    ensures q in pkgs
  {
    var i := LastCarrier(pkgs, p);
    assert pkgs[..|pkgs|] == pkgs;
    SameElements(graph.EdgesOf(p), Targets(pkgs, pkgs[i], pkgs[i].dependencies));
    TargetsMeaning(pkgs, pkgs[i], pkgs[i].dependencies, q);
  }

  lemma LastCarrier(pkgs: seq<Package>, p: Package) returns (i: nat)
    requires p in pkgs
    ensures LastWithIdentity(pkgs, i) && pkgs[i].Identity() == p.Identity()
  {
    i :| 0 <= i < |pkgs| && pkgs[i] == p;
    while !LastWithIdentity(pkgs, i)
      invariant 0 <= i < |pkgs| && pkgs[i].Identity() == p.Identity()
      decreases |pkgs| - i
    {
      var j :| i < j < |pkgs| && pkgs[j].Identity() == pkgs[i].Identity();
      i := j;
    }
  }

  /** With distinct identities an edge means what it should: `p -> q` exactly when
      `q` is a package and some dependency of `p` spells `q`'s name. */
  lemma EdgeMeaning(graph: ResolvedGraph, pkgs: seq<Package>, p: Package, q: Package)
    requires IsResolution(graph, pkgs) && DistinctIdentities(pkgs) && p in pkgs
    ensures q in graph.EdgesOf(p) <==> q in pkgs && DependsOn(p, q)
  {
    var i :| 0 <= i < |pkgs| && pkgs[i] == p;
    assert LastWithIdentity(pkgs, i);
    assert pkgs[..|pkgs|] == pkgs;
    SameElements(graph.EdgesOf(p), Targets(pkgs, p, p.dependencies));
    TargetsMeaning(pkgs, p, p.dependencies, q);
  }

  /** With distinct identities the edges of a package stand in the order of ecosystem, name and version. */
  lemma EdgesAreOrdered(graph: ResolvedGraph, pkgs: seq<Package>, p: Package, i: nat, j: nat)
    requires IsResolution(graph, pkgs) && DistinctIdentities(pkgs) && p in pkgs && i < j < |graph.EdgesOf(p)|
    ensures var q, r := graph.EdgesOf(p)[i], graph.EdgesOf(p)[j];
      || StringLess(q.ecosystem, r.ecosystem)
      || (q.ecosystem == r.ecosystem && StringLess(q.name, r.name))
      || (q.ecosystem == r.ecosystem && q.name == r.name
          && (q.version == r.version || StringLess(q.version, r.version)))
  {
    hide SortList, Targets, StringLess, KeyLess;
    var k :| 0 <= k < |pkgs| && pkgs[k] == p;
    assert LastWithIdentity(pkgs, k);
    assert pkgs[..|pkgs|] == pkgs;
    var q, r := graph.EdgesOf(p)[i], graph.EdgesOf(p)[j];
    assert KeyLeq(TargetOrder(q), TargetOrder(r));
    TargetOrderMeaning(q, r);
  }

  lemma TargetOrderMeaning(q: Package, r: Package)
    ensures KeyLeq(TargetOrder(q), TargetOrder(r)) ==>
      || StringLess(q.ecosystem, r.ecosystem)
      || (q.ecosystem == r.ecosystem && StringLess(q.name, r.name))
      || (q.ecosystem == r.ecosystem && q.name == r.name
          && (q.version == r.version || StringLess(q.version, r.version)))
  {
    hide KeyLess, StringLess;
    var a, b := TargetOrder(q), TargetOrder(r);
    PairLess(q.name, q.version, r.name, r.version);
    ComesFirst(q.ecosystem, [q.name, q.version], r.ecosystem, [r.name, r.version]);
    assert a == [q.ecosystem] + [q.name, q.version] && b == [r.ecosystem] + [r.name, r.version];
    assert a == b ==> a[0] == b[0] && a[1] == b[1] && a[2] == b[2];
  }

  /** Two spellings of one PyPI name that differ in a run of separators find each other. */
  lemma EdgeBetweenSpellings(graph: ResolvedGraph, pkgs: seq<Package>, p: Package, q: Package, dep: Dependency,
                             a: string, r: string, r': string, b: string)
    requires IsResolution(graph, pkgs) && DistinctIdentities(pkgs) && p in pkgs && q in pkgs
    requires p.ecosystem == q.ecosystem == PYPI && dep in p.dependencies
    requires r != "" && RunLength(r) == |r| && r' != "" && RunLength(r') == |r'|
    requires dep.name == a + r + b && q.name == a + r' + b
    ensures q in graph.EdgesOf(p)
  {
    hide IsResolution, DistinctIdentities, ResolvedGraph.EdgesOf, RunLength, SameProject, NormPypiName;
    RunsAreOne(a, r, r', b);
    PypiNormIff(dep.name, q.name);
    EdgeMeaning(graph, pkgs, p, q);
    assert AsksFor(p, dep, q);
  }

  /** A dependency dangles exactly when no package of its ecosystem bears its name in any spelling. */
  lemma {:induction false} DanglingMeaning(pkgs: seq<Package>, sources: seq<Package>, p: Package, name: string)
    ensures (p, name) in AllUnresolved(pkgs, sources) <==>
            p in sources && exists dep :: dep in p.dependencies && dep.name == name
                              && forall q | q in pkgs :: !AsksFor(p, dep, q)
  {
    if sources != [] {
      var last := sources[|sources| - 1];
      DanglingMeaning(pkgs, sources[..|sources| - 1], p, name);
      assert sources == sources[..|sources| - 1] + [last];
      UnresolvedMeaning(pkgs, last, last.dependencies, (p, name));
      forall dep ensures Candidates(pkgs, DepKey(p, dep)) == [] <==> forall q | q in pkgs :: !AsksFor(p, dep, q) {
        NoCandidates(pkgs, p, dep);
      }
    }
  }

  /** The positions of the packages that a dependency asks for. */
  function Asked(pkgs: seq<Package>, p: Package, dep: Dependency): set<int> {
    set i | 0 <= i < |pkgs| && AsksFor(p, dep, pkgs[i])
  }

  lemma {:induction false} CandidateCount(pkgs: seq<Package>, p: Package, dep: Dependency)
    ensures |Candidates(pkgs, DepKey(p, dep))| == |Asked(pkgs, p, dep)|
  {
    hide AsksFor, DepKey, NodeKey;
    if pkgs != [] {
      var n := |pkgs| - 1;
      hide Asked;
      CandidateCount(pkgs[..n], p, dep);
      KeysMeet(p, dep, pkgs[n]);
      AskedStep(pkgs, p, dep);
    }
  }

  lemma AskedStep(pkgs: seq<Package>, p: Package, dep: Dependency)
    requires pkgs != []
    ensures var n := |pkgs| - 1;
      |Asked(pkgs, p, dep)| == |Asked(pkgs[..n], p, dep)| + if AsksFor(p, dep, pkgs[n]) then 1 else 0
  {
    hide AsksFor;
    var n := |pkgs| - 1;
    assert Asked(pkgs, p, dep) == Asked(pkgs[..n], p, dep) + (if AsksFor(p, dep, pkgs[n]) then {n} else {});
  }

  lemma {:induction false} OverresolvedMeaning(pkgs: seq<Package>, pkg: Package, deps: seq<Dependency>,
                                               x: (Package, string, int))
    ensures x in Overresolved(pkgs, pkg, deps) <==>
            x.0 == pkg && exists dep :: dep in deps && dep.name == x.1 && x.2 == |Asked(pkgs, pkg, dep)| > 1
  {
    hide Asked, DepKey, Candidates;
    if deps != [] {
      assert deps == deps[..|deps| - 1] + [deps[|deps| - 1]];
      OverresolvedMeaning(pkgs, pkg, deps[..|deps| - 1], x);
      CandidateCount(pkgs, pkg, deps[|deps| - 1]);
    }
  }

  /** A dependency is ambiguous, with their number, exactly when several packages bear its name. */
  lemma {:induction false} AmbiguousMeaning(pkgs: seq<Package>, sources: seq<Package>, p: Package, name: string, n: int)
    ensures (p, name, n) in AllOverresolved(pkgs, sources) <==>
            p in sources && exists dep :: dep in p.dependencies && dep.name == name && n == |Asked(pkgs, p, dep)| > 1
  {
    hide Asked, Overresolved;
    if sources != [] {
      var last := sources[|sources| - 1];
      assert sources == sources[..|sources| - 1] + [last];
      AmbiguousMeaning(pkgs, sources[..|sources| - 1], p, name, n);
      OverresolvedMeaning(pkgs, last, last.dependencies, (p, name, n));
    }
  }

  lemma NoCandidates(pkgs: seq<Package>, p: Package, dep: Dependency)
    ensures Candidates(pkgs, DepKey(p, dep)) == [] <==> forall q | q in pkgs :: !AsksFor(p, dep, q)
  {
    hide AsksFor, DepKey, Candidates;
    var c := Candidates(pkgs, DepKey(p, dep));
    if c != [] {
      assert c[0] in c;
      CandidatesMeaning(pkgs, DepKey(p, dep), c[0]);
      KeysMeet(p, dep, c[0]);
    } else {
      forall q | q in pkgs ensures !AsksFor(p, dep, q) {
        CandidatesMeaning(pkgs, DepKey(p, dep), q);
        KeysMeet(p, dep, q);
      }
    }
  }
}
