/** The plain counts of the dependency metrics. */
module Counts {
  import opened Models
  import opened Orders
  import opened Resolve

  datatype Counts = Counts(
    totalPackages: nat,
    directPackages: nat,
    transitivePackages: int,
    byEcosystem: map<string, nat>,
    dependencyEdges: nat,
    danglingEdges: nat,
    ambiguousEdges: nat,
    emptyVersionPackages: seq<(string, string)>)

  function Direct(pkgs: seq<Package>): (r: seq<Package>)
    ensures forall p :: p in r <==> p in pkgs && p.isDirect
  {
    if pkgs == [] then [] else
      var p := pkgs[|pkgs| - 1];
      assert pkgs == pkgs[..|pkgs| - 1] + [p];
      Direct(pkgs[..|pkgs| - 1]) + (if p.isDirect then [p] else [])
  }

  function CountIn(pkgs: seq<Package>, ecosystem: string): nat {
    if pkgs == [] then 0 else
      CountIn(pkgs[..|pkgs| - 1], ecosystem) + (if pkgs[|pkgs| - 1].ecosystem == ecosystem then 1 else 0)
  }

  function Versionless(pkgs: seq<Package>): seq<(string, string)> {
    if pkgs == [] then [] else
      var p := pkgs[|pkgs| - 1];
      Versionless(pkgs[..|pkgs| - 1]) + (if p.version == "" then [(p.ecosystem, p.name)] else [])
  }

  /** The sum of the lengths of the values under these keys. */
  ghost function SumLengths<T>(edges: map<string, seq<T>>, keys: set<string>): nat
    requires keys <= edges.Keys
  {
    if keys == {} then 0 else
      var k :| k in keys;
      |edges[k]| + SumLengths(edges, keys - {k})
  }

  /** In whatever order the keys are taken. */
  lemma {:induction false} SumLengthsPick<T>(edges: map<string, seq<T>>, keys: set<string>, k: string)
    requires keys <= edges.Keys && k in keys
    ensures SumLengths(edges, keys) == |edges[k]| + SumLengths(edges, keys - {k})
  {
    var h :| h in keys && SumLengths(edges, keys) == |edges[h]| + SumLengths(edges, keys - {h});
    if h != k {
      SumLengthsPick(edges, keys - {h}, k);
      SumLengthsPick(edges, keys - {k}, h);
      assert keys - {h} - {k} == keys - {k} - {h};
    }
  }

  /** All dependencies of the packages, each as often as it has candidates. */
  function TargetCount(all: seq<Package>, pkgs: seq<Package>): nat {
    if pkgs == [] then 0 else
      var p := pkgs[|pkgs| - 1];
      TargetCount(all, pkgs[..|pkgs| - 1]) + |Targets(all, p, p.dependencies)|
  }

  function IdentitiesOf(pkgs: seq<Package>): set<string> { set p | p in pkgs :: p.Identity() }

  lemma {:induction false} EdgesCountTargets(graph: ResolvedGraph, pkgs: seq<Package>, n: nat)
    requires IsResolution(graph, pkgs) && DistinctIdentities(pkgs) && n <= |pkgs|
    ensures IdentitiesOf(pkgs[..n]) <= graph.edges.Keys
    ensures SumLengths(graph.edges, IdentitiesOf(pkgs[..n])) == TargetCount(pkgs, pkgs[..n])
  {
    hide IsResolution, DistinctIdentities, Package.Identity, Targets, SumLengths;
    if n == 0 {
      NoKeys(graph.edges);
      assert IdentitiesOf(pkgs[..0]) == {};
    } else {
      EdgesCountTargets(graph, pkgs, n - 1);
      var p, before, keys := pkgs[n - 1], IdentitiesOf(pkgs[..n - 1]), IdentitiesOf(pkgs[..n]);
      assert pkgs[..n][..n - 1] == pkgs[..n - 1] && pkgs[..n] == pkgs[..n - 1] + [p];
      StoredEdges(graph, pkgs, n - 1);
      assert keys == before + {p.Identity()};
      SumLengthsPick(graph.edges, keys, p.Identity());
      assert keys - {p.Identity()} == before;
    }
  }

  lemma StoredEdges(graph: ResolvedGraph, pkgs: seq<Package>, i: nat)
    requires IsResolution(graph, pkgs) && DistinctIdentities(pkgs) && i < |pkgs|
    ensures var p := pkgs[i];
      && p.Identity() !in IdentitiesOf(pkgs[..i])
      && p.Identity() in graph.edges
      && |graph.edges[p.Identity()]| == |Targets(pkgs, p, p.dependencies)|
  {
    hide Package.Identity, Targets, SortList;
    var p := pkgs[i];
    assert pkgs[..|pkgs|] == pkgs && LastWithIdentity(pkgs, i);
    SameElements(EdgeList(pkgs, p), Targets(pkgs, p, p.dependencies));
  }

  lemma NoKeys<T>(edges: map<string, seq<T>>)
    ensures SumLengths(edges, {}) == 0
  {
  }

  // ----- The counts as numbers of positions

  /** The positions of the direct packages, and those of the packages of an ecosystem. */
  ghost function DirectAt(pkgs: seq<Package>): set<int> { set i | 0 <= i < |pkgs| && pkgs[i].isDirect }

  ghost function EcosystemAt(pkgs: seq<Package>, e: string): set<int> {
    set i | 0 <= i < |pkgs| && pkgs[i].ecosystem == e
  }

  lemma DirectStep(pkgs: seq<Package>, p: Package)
    ensures |Direct(pkgs + [p])| == |Direct(pkgs)| + (if p.isDirect then 1 else 0)
    ensures DirectAt(pkgs + [p]) == DirectAt(pkgs) + (if p.isDirect then {|pkgs|} else {})
    ensures |DirectAt(pkgs + [p])| == |DirectAt(pkgs)| + (if p.isDirect then 1 else 0)
  {
    assert (pkgs + [p])[..|pkgs|] == pkgs;
  }

  lemma {:induction false} DirectCount(pkgs: seq<Package>)
    ensures |Direct(pkgs)| == |DirectAt(pkgs)|
  {
    if pkgs != [] {
      hide *;
      var n := |pkgs| - 1;
      DirectCount(pkgs[..n]);
      DirectStep(pkgs[..n], pkgs[n]);
      assert pkgs == pkgs[..n] + [pkgs[n]];
    }
  }

  lemma {:induction false} EcosystemCount(pkgs: seq<Package>, e: string)
    ensures CountIn(pkgs, e) == |EcosystemAt(pkgs, e)|
  {
    if pkgs != [] {
      var n := |pkgs| - 1;
      hide EcosystemAt;
      EcosystemCount(pkgs[..n], e);
      EcosystemStep(pkgs, e);
    }
  }

  lemma EcosystemStep(pkgs: seq<Package>, e: string)
    requires pkgs != []
    ensures var n := |pkgs| - 1;
      |EcosystemAt(pkgs, e)| == |EcosystemAt(pkgs[..n], e)| + if pkgs[n].ecosystem == e then 1 else 0
  {
    var n := |pkgs| - 1;
    assert EcosystemAt(pkgs, e) == EcosystemAt(pkgs[..n], e) + (if pkgs[n].ecosystem == e then {n} else {});
  }

  /** `at` holds, in ascending order, the positions of the packages without a version, and `out`
      their ecosystems and names. */
  ghost predicate ListsVersionless(pkgs: seq<Package>, at: seq<int>, out: seq<(string, string)>) {
    && |at| == |out|
    && (forall j | 0 <= j < |at| :: 0 <= at[j] < |pkgs| && pkgs[at[j]].version == ""
          && out[j] == (pkgs[at[j]].ecosystem, pkgs[at[j]].name))
    && (forall j, k | 0 <= j < k < |at| :: at[j] < at[k])
    && (forall i | 0 <= i < |pkgs| && pkgs[i].version == "" :: i in at)
  }

  lemma ListsMore(pkgs: seq<Package>, p: Package, at: seq<int>, out: seq<(string, string)>)
    requires ListsVersionless(pkgs, at, out)
    ensures p.version == "" ==> ListsVersionless(pkgs + [p], at + [|pkgs|], out + [(p.ecosystem, p.name)])
    ensures p.version != "" ==> ListsVersionless(pkgs + [p], at, out)
  {
    var more := at + [|pkgs|];
    assert more[|at|] == |pkgs|;
    forall i | 0 <= i < |pkgs| && pkgs[i].version == "" ensures i in more {
      var j :| 0 <= j < |at| && at[j] == i;
      assert more[j] == i;
    }
  }

  lemma {:induction false} VersionlessMeaning(pkgs: seq<Package>) returns (at: seq<int>)
    ensures ListsVersionless(pkgs, at, Versionless(pkgs))
  {
    at := [];
    if pkgs != [] {
      hide ListsVersionless;
      var n := |pkgs| - 1;
      at := VersionlessMeaning(pkgs[..n]);
      ListsMore(pkgs[..n], pkgs[n], at, Versionless(pkgs[..n]));
      assert pkgs == pkgs[..n] + [pkgs[n]];
      if pkgs[n].version == "" { at := at + [n]; }
    }
  }

  ghost predicate CountsExact(c: Counts, pkgs: seq<Package>, graph: ResolvedGraph) {
    && c.totalPackages == |pkgs| && c.directPackages == |DirectAt(pkgs)|
    && c.transitivePackages == |pkgs| - c.directPackages
    && (forall e :: e in c.byEcosystem <==> exists p :: p in pkgs && p.ecosystem == e)
    && (forall e | e in c.byEcosystem :: c.byEcosystem[e] == |EcosystemAt(pkgs, e)|)
    && c.dependencyEdges == SumLengths(graph.edges, graph.edges.Keys)
    && c.danglingEdges == |graph.dangling| && c.ambiguousEdges == |graph.ambiguous|
    && (exists at :: ListsVersionless(pkgs, at, c.emptyVersionPackages))
  }

  /** `Counter(p.ecosystem for p in packages)` */
  method CountEcosystems(pkgs: seq<Package>) returns (counts: map<string, nat>)
    ensures forall e :: e in counts <==> exists p :: p in pkgs && p.ecosystem == e
    ensures forall e | e in counts :: counts[e] == CountIn(pkgs, e)
  {
    counts := map[];
    for i := 0 to |pkgs|
      invariant forall e :: e in counts <==> exists k :: 0 <= k < i && pkgs[k].ecosystem == e
      invariant forall e :: CountIn(pkgs[..i], e) == if e in counts then counts[e] else 0
    {
      assert pkgs[..i + 1][..i] == pkgs[..i];
      var e := pkgs[i].ecosystem;
      counts := counts[e := (if e in counts then counts[e] else 0) + 1];
    }
    assert pkgs[..|pkgs|] == pkgs;
  }

  /** `sum(len(v) for v in graph.edges.values())` */
  method CountEdges(edges: map<string, seq<Package>>) returns (n: nat)
    ensures n == SumLengths(edges, edges.Keys)
  {
    n := 0;
    var rest := edges.Keys;
    while rest != {}
      invariant rest <= edges.Keys && n + SumLengths(edges, rest) == SumLengths(edges, edges.Keys)
      decreases |rest|
    {
      var k :| k in rest;
      SumLengthsPick(edges, rest, k);
      n, rest := n + |edges[k]|, rest - {k};
    }
  }

  method CountUp(pkgs: seq<Package>, graph: ResolvedGraph) returns (c: Counts)
    ensures CountsExact(c, pkgs, graph)
  {
    hide Direct, CountIn, SumLengths, DirectAt, EcosystemAt, ListsVersionless;
    var byEcosystem := CountEcosystems(pkgs);
    forall e ensures CountIn(pkgs, e) == |EcosystemAt(pkgs, e)| { EcosystemCount(pkgs, e); }
    DirectCount(pkgs);
    ghost var at := VersionlessMeaning(pkgs);
    var edges := CountEdges(graph.edges);
    var direct := |Direct(pkgs)|;
    var empty: seq<(string, string)> := [];
    for i := 0 to |pkgs|
      invariant empty == Versionless(pkgs[..i])
    {
      assert pkgs[..i + 1][..i] == pkgs[..i];
      if pkgs[i].version == "" { empty := empty + [(pkgs[i].ecosystem, pkgs[i].name)]; }
    }
    assert pkgs[..|pkgs|] == pkgs;
    c := Counts(|pkgs|, direct, |pkgs| - direct, byEcosystem, edges, |graph.dangling|, |graph.ambiguous|, empty);
  }

  /** With distinct identities the edges are as many as the resolved dependencies, counted with their
      candidates. */
  lemma EdgesAreTargets(c: Counts, pkgs: seq<Package>, graph: ResolvedGraph)
    requires IsResolution(graph, pkgs) && DistinctIdentities(pkgs) && CountsExact(c, pkgs, graph)
    ensures c.dependencyEdges == |Meetings(pkgs, pkgs)|
  {
    hide IsResolution, DistinctIdentities, Direct, CountIn, SumLengths, TargetCount, IdentitiesOf, Meetings;
    TargetCountMeaning(pkgs, pkgs);
    EdgesCountTargets(graph, pkgs, |pkgs|);
    assert pkgs[..|pkgs|] == pkgs;
    KeysAreIdentities(graph, pkgs);
  }

  // ----- Edges, dangling and ambiguous dependencies as numbers of positions

  /** Where the dependencies `deps` of `p` meet packages: dependency position, package position. */
  ghost function MetBy(all: seq<Package>, p: Package, deps: seq<Dependency>): set<(int, int)> {
    set k, j | 0 <= k < |deps| && 0 <= j < |all| && AsksFor(p, deps[k], all[j]) :: (k, j)
  }

  lemma {:induction false} TargetsMet(all: seq<Package>, p: Package, deps: seq<Dependency>)
    ensures |Targets(all, p, deps)| == |MetBy(all, p, deps)|
  {
    hide AsksFor, DepKey, Candidates;
    if deps == [] {
      assert MetBy(all, p, deps) == {};
    } else {
      var n := |deps| - 1;
      TargetsMet(all, p, deps[..n]);
      CandidateCount(all, p, deps[n]);
      var asked := Asked(all, p, deps[n]);
      var tag := (j: int) => (n, j);
      ImageSize(tag, asked);
      var before, last := MetBy(all, p, deps[..n]), ImageOf(tag, asked);
      assert MetBy(all, p, deps) == before + last by {
        forall x | x in MetBy(all, p, deps) ensures x in before + last {
          if x.0 < n { assert deps[..n][x.0] == deps[x.0]; } else { assert x.1 in asked && tag(x.1) == x; }
        }
        forall x | x in before ensures x in MetBy(all, p, deps) { assert deps[..n][x.0] == deps[x.0]; }
      }
      assert before !! last;
    }
  }

  /** Every meeting of a dependency with a package: package, dependency, package. */
  ghost function Meetings(all: seq<Package>, pkgs: seq<Package>): set<(int, int, int)> {
    set i, k, j | 0 <= i < |pkgs| && 0 <= k < |pkgs[i].dependencies| && 0 <= j < |all|
                  && AsksFor(pkgs[i], pkgs[i].dependencies[k], all[j]) :: (i, k, j)
  }

  lemma {:induction false} TargetCountMeaning(all: seq<Package>, pkgs: seq<Package>)
    ensures TargetCount(all, pkgs) == |Meetings(all, pkgs)|
  {
    hide AsksFor, Targets;
    if pkgs == [] {
      assert Meetings(all, pkgs) == {};
    } else {
      var n := |pkgs| - 1;
      var p := pkgs[n];
      TargetCountMeaning(all, pkgs[..n]);
      TargetsMet(all, p, p.dependencies);
      var met := MetBy(all, p, p.dependencies);
      var tag := (x: (int, int)) => (n, x.0, x.1);
      ImageSize(tag, met);
      var before, last := Meetings(all, pkgs[..n]), ImageOf(tag, met);
      assert Meetings(all, pkgs) == before + last by {
        forall x | x in Meetings(all, pkgs) ensures x in before + last {
          if x.0 < n { assert pkgs[..n][x.0] == pkgs[x.0]; } else { assert (x.1, x.2) in met && tag((x.1, x.2)) == x; }
        }
        forall x | x in before ensures x in Meetings(all, pkgs) { assert pkgs[..n][x.0] == pkgs[x.0]; }
      }
      assert before !! last;
    }
  }

  /** A dependency that meets no package, or several. */
  ghost predicate Odd(all: seq<Package>, p: Package, dep: Dependency, several: bool) {
    if several then |Asked(all, p, dep)| > 1 else Asked(all, p, dep) == {}
  }

  ghost function OddOf(all: seq<Package>, p: Package, deps: seq<Dependency>, several: bool): set<int> {
    set k | 0 <= k < |deps| && Odd(all, p, deps[k], several)
  }

  /** The dependencies, by package and position, that meet no package, or several. */
  ghost function OddAt(all: seq<Package>, pkgs: seq<Package>, several: bool): set<(int, int)> {
    set i, k | 0 <= i < |pkgs| && 0 <= k < |pkgs[i].dependencies|
               && Odd(all, pkgs[i], pkgs[i].dependencies[k], several) :: (i, k)
  }

  lemma {:induction false} OddCountOf(all: seq<Package>, p: Package, deps: seq<Dependency>)
    ensures |Unresolved(all, p, deps)| == |OddOf(all, p, deps, false)|
    ensures |Overresolved(all, p, deps)| == |OddOf(all, p, deps, true)|
  {
    hide Asked, Candidates, DepKey;
    if deps != [] {
      var n := |deps| - 1;
      OddCountOf(all, p, deps[..n]);
      CandidateCount(all, p, deps[n]);
      OddStep(all, p, deps[..n], deps[n], false);
      OddStep(all, p, deps[..n], deps[n], true);
      assert deps == deps[..n] + [deps[n]];
    }
  }

  lemma OddStep(all: seq<Package>, p: Package, deps: seq<Dependency>, dep: Dependency, several: bool)
    ensures |OddOf(all, p, deps + [dep], several)|
            == |OddOf(all, p, deps, several)| + (if Odd(all, p, dep, several) then 1 else 0)
  {
    hide Odd;
    assert OddOf(all, p, deps + [dep], several)
           == OddOf(all, p, deps, several) + (if Odd(all, p, dep, several) then {|deps|} else {});
  }

  /** The dangling, and the ambiguous, dependencies are counted position by position. */
  lemma {:induction false} OddCount(all: seq<Package>, pkgs: seq<Package>)
    ensures |AllUnresolved(all, pkgs)| == |OddAt(all, pkgs, false)|
    ensures |AllOverresolved(all, pkgs)| == |OddAt(all, pkgs, true)|
  {
    hide Unresolved, Overresolved, OddOf, OddAt;
    if pkgs == [] {
      NothingIsOdd(all);
    } else {
      var n := |pkgs| - 1;
      OddCount(all, pkgs[..n]);
      OddCountOf(all, pkgs[n], pkgs[n].dependencies);
      OddPackages(all, pkgs[..n], pkgs[n], false);
      OddPackages(all, pkgs[..n], pkgs[n], true);
      assert pkgs == pkgs[..n] + [pkgs[n]];
    }
  }

  lemma NothingIsOdd(all: seq<Package>)
    ensures OddAt(all, [], false) == {} && OddAt(all, [], true) == {}
  {
  }

  lemma OddPackages(all: seq<Package>, pkgs: seq<Package>, p: Package, several: bool)
    ensures |OddAt(all, pkgs + [p], several)| == |OddAt(all, pkgs, several)| + |OddOf(all, p, p.dependencies, several)|
  {
    hide Odd;
    var n, odd, more := |pkgs|, OddOf(all, p, p.dependencies, several), pkgs + [p];
    var tag := (k: int) => (n, k);
    ImageSize(tag, odd);
    var before, last := OddAt(all, pkgs, several), ImageOf(tag, odd);
    assert OddAt(all, more, several) == before + last by {
      forall x | x in OddAt(all, more, several) ensures x in before + last {
        if x.0 < n { assert pkgs[x.0] == more[x.0]; } else { assert x.1 in odd && tag(x.1) == x; }
      }
      forall x | x in before ensures x in OddAt(all, more, several) { assert pkgs[x.0] == more[x.0]; }
    }
    assert before !! last;
  }

  lemma DanglingAndAmbiguous(c: Counts, pkgs: seq<Package>, graph: ResolvedGraph)
    requires IsResolution(graph, pkgs) && CountsExact(c, pkgs, graph)
    ensures c.danglingEdges == |OddAt(pkgs, pkgs, false)| && c.ambiguousEdges == |OddAt(pkgs, pkgs, true)|
  {
    hide IndexOfPackages, EdgesOfPackages, DirectAt, SumLengths, OddAt;
    OddCount(pkgs, pkgs);
  }

  lemma KeysAreIdentities(graph: ResolvedGraph, pkgs: seq<Package>)
    requires IsResolution(graph, pkgs)
    ensures graph.edges.Keys == IdentitiesOf(pkgs)
  {
    hide Package.Identity, IndexOfPackages, LastWithIdentity;
    forall id ensures id in graph.edges <==> id in IdentitiesOf(pkgs) {
      if id in graph.edges {
        var i :| 0 <= i < |pkgs| && pkgs[i].Identity() == id;
        assert pkgs[i] in pkgs;
      }
      if id in IdentitiesOf(pkgs) {
        var p :| p in pkgs && p.Identity() == id;
        var i :| 0 <= i < |pkgs| && pkgs[i] == p;
        assert pkgs[i].Identity() == id;
      }
    }
  }
}
