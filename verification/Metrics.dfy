/** Graph metrics of an inventory: reachability, orphans, cycles and depth. */
module Metrics {
  import opened Counts
  import opened Digraphs
  import opened Models
  import opened Orders
  import opened Resolve
  import C = Cycles
  import R = CycleReports
  import D = Depth
  import E = CycleEntries

  datatype Metrics = Metrics(
    counts: Counts,
    orphanedPackages: nat,
    orphanedNames: seq<Node>,
    cycles: seq<seq<string>>,
    maxDepth: int)

  function DirectKeys(pkgs: seq<Package>): set<Node> {
    set p | p in pkgs && p.isDirect :: NodeKey(p)
  }

  function AllKeys(pkgs: seq<Package>): set<Node> {
    set p | p in pkgs :: NodeKey(p)
  }

  /** Some package of `K` has a resolved edge to some package of `L`. */
  ghost predicate NameEdge(graph: ResolvedGraph, pkgs: seq<Package>, K: Node, L: Node) {
    exists p, q :: p in pkgs && q in graph.EdgesOf(p) && NodeKey(p) == K && NodeKey(q) == L
  }

  /** `adj` is the name-level graph of `pkgs`. */
  ghost predicate IsNameGraph(adj: Graph<Node>, graph: ResolvedGraph, pkgs: seq<Package>) {
    forall K, L :: L in Succ(adj, K) <==> NameEdge(graph, pkgs, K, L)
  }

  /** `adj[K].add(L)` on a defaultdict of sets. */
  function AddEdge(adj: Graph<Node>, K: Node, L: Node): (r: Graph<Node>)
    ensures forall u, v :: v in Succ(r, u) <==> v in Succ(adj, u) || (u == K && v == L)
  {
    adj[K := Succ(adj, K) + {L}]
  }

  method BuildAdjacency(pkgs: seq<Package>, graph: ResolvedGraph) returns (adj: Graph<Node>)
    ensures IsNameGraph(adj, graph, pkgs)
  {
    hide ResolvedGraph.EdgesOf, NodeKey, AddEdge;
    adj := map[];
    for i := 0 to |pkgs|
      invariant forall K, L :: L in Succ(adj, K) <==> NameEdge(graph, pkgs[..i], K, L)
    {
      var pkg := pkgs[i];
      var targets := graph.EdgesOf(pkg);
      ghost var adj0 := adj;
      for j := 0 to |targets|
        invariant forall K, L :: L in Succ(adj, K) <==>
          L in Succ(adj0, K) || (K == NodeKey(pkg) && exists q :: q in targets[..j] && NodeKey(q) == L)
      {
        assert targets[..j + 1] == targets[..j] + [targets[j]];
        adj := AddEdge(adj, NodeKey(pkg), NodeKey(targets[j]));
      }
      assert targets[..|targets|] == targets;
    }
    assert pkgs[..|pkgs|] == pkgs;
  }

  /** Everything a walk from `roots` can meet, plus the roots. */
  lemma {:induction false} ClosedSetHoldsWalk(adj: Graph<Node>, s: set<Node>, w: seq<Node>)
    requires IsWalk(adj, w) && w[0] in s
    requires forall u, v | u in s && v in Succ(adj, u) :: v in s
    ensures w[|w| - 1] in s
  {
    if |w| > 1 {
      SubWalk(adj, w, 0, |w| - 1);
      ClosedSetHoldsWalk(adj, s, w[0..|w| - 1]);
      assert EdgeAt(adj, w, |w| - 2);
    }
  }

  /** The worklist reads `adj[node]` of a defaultdict, which leaves an empty entry behind. */
  function Touch(adj: Graph<Node>, node: Node): (r: Graph<Node>)
    ensures forall u :: Succ(r, u) == Succ(adj, u)
  {
    if node in adj then adj else adj[node := {}]
  }

  /** `todo` holds the nodes still on the worklist. */
  ghost predicate WorkState(adj: Graph<Node>, roots: set<Node>, reachable: set<Node>, todo: set<Node>) {
    && roots <= reachable + todo
    && (forall n | n in reachable + todo :: n in C.AllNodes(adj) + roots && ReachedFrom(adj, roots, n))
    && (forall u, v | u in reachable && v in Succ(adj, u) :: v in reachable + todo)
  }

  lemma WorkStart(adj: Graph<Node>, roots: set<Node>)
    ensures WorkState(adj, roots, {}, roots)
  {
    forall n | n in roots ensures ReachedFrom(adj, roots, n) { ReachesRefl(adj, n); }
  }

  lemma WorkStep(adj: Graph<Node>, roots: set<Node>, reachable: set<Node>, todo: set<Node>, node: Node,
                 todo': set<Node>)
    requires WorkState(adj, roots, reachable, todo) && node in todo
    requires todo <= todo' + {node} && todo' <= todo + (Succ(adj, node) - reachable)
    requires Succ(adj, node) <= reachable + todo' + {node}
    ensures node in C.AllNodes(adj) + roots
    ensures WorkState(adj, roots, reachable + {node}, todo')
  {
    hide ReachedFrom, C.AllNodes;
    assert ReachedFrom(adj, roots, node) by { assert node in reachable + todo; }
    forall n | n in reachable + {node} + todo' ensures n in C.AllNodes(adj) + roots && ReachedFrom(adj, roots, n) {
      if n in reachable + todo {
      } else {
        SuccReached(adj, roots, node, n);
      }
    }
    forall u, v | u in reachable + {node} && v in Succ(adj, u) ensures v in reachable + {node} + todo' {
      assert u in reachable ==> v in reachable + todo;
    }
  }

  lemma WorkDone(adj: Graph<Node>, roots: set<Node>, reachable: set<Node>)
    requires WorkState(adj, roots, reachable, {})
    ensures forall n :: n in reachable <==> ReachedFrom(adj, roots, n)
  {
    hide ReachedFrom, C.AllNodes;
    forall n | ReachedFrom(adj, roots, n) ensures n in reachable {
      ReachedInClosedSet(adj, roots, reachable, n);
    }
  }

  lemma ElementsConcat<T>(a: seq<T>, b: seq<T>)
    ensures Elements(a + b) == Elements(a) + Elements(b)
  {
  }

  lemma ElementsOf<T>(a: seq<T>, s: set<T>)
    requires forall x :: x in a <==> x in s
    ensures Elements(a) == s
  {
  }

  lemma PopNode(stack: seq<Node>, node: Node)
    requires stack != [] && node == stack[|stack| - 1]
    ensures Elements(stack) == Elements(stack[..|stack| - 1]) + {node}
  {
    assert stack == stack[..|stack| - 1] + [node];
    ElementsConcat(stack[..|stack| - 1], [node]);
  }

  /** Visiting a new node keeps the worklist invariant and uses up a node. */
  lemma VisitNode(adj: Graph<Node>, roots: set<Node>, reachable: set<Node>, stack: seq<Node>, rest: seq<Node>,
                  node: Node, more: seq<Node>)
    requires WorkState(adj, roots, reachable, Elements(stack)) && node !in reachable
    requires Elements(stack) == Elements(rest) + {node}
    requires forall x :: x in more <==> x in Succ(adj, node) - (reachable + {node})
    ensures WorkState(adj, roots, reachable + {node}, Elements(rest + more))
    ensures C.AllNodes(adj) + roots - (reachable + {node}) < C.AllNodes(adj) + roots - reachable
  {
    hide WorkState, C.AllNodes, Elements;
    ElementsConcat(rest, more);
    ElementsOf(more, Succ(adj, node) - (reachable + {node}));
    WorkStep(adj, roots, reachable, Elements(stack), node, Elements(rest + more));
    assert node in C.AllNodes(adj) + roots - reachable;
  }

  /** The worklist: exactly the nodes that the roots reach. */
  method Reachable(adj0: Graph<Node>, roots: set<Node>) returns (reachable: set<Node>, adj: Graph<Node>)
    ensures forall n :: n in reachable <==> ReachedFrom(adj0, roots, n)
    ensures forall u :: Succ(adj, u) == Succ(adj0, u)
  {
    hide *;
    adj := adj0;
    reachable := {};
    var stack := SortNodes(roots);
    WorkStart(adj0, roots);
    ElementsOf(stack, roots);
    while stack != []
      invariant WorkState(adj0, roots, reachable, Elements(stack))
      invariant forall u :: Succ(adj, u) == Succ(adj0, u)
      decreases C.AllNodes(adj0) + roots - reachable, |stack|
    {
      var node := stack[|stack| - 1];
      PopNode(stack, node);
      var rest := stack[..|stack| - 1];
      if node in reachable {
        DropKnown(adj0, roots, reachable, Elements(stack), node, Elements(rest));
        stack := rest;
        continue;
      }
      adj := Touch(adj, node);
      var more := SortNodes(Succ(adj, node) - (reachable + {node}));
      VisitNode(adj0, roots, reachable, stack, rest, node, more);
      reachable := reachable + {node};
      stack := rest + more;
    }
    ElementsOf(stack, {});
    WorkDone(adj0, roots, reachable);
  }

  lemma DropKnown(adj: Graph<Node>, roots: set<Node>, reachable: set<Node>, todo: set<Node>, node: Node,
                  todo': set<Node>)
    requires WorkState(adj, roots, reachable, todo) && node in reachable
    requires todo == todo' + {node}
    ensures WorkState(adj, roots, reachable, todo')
  {
    assert reachable + todo == reachable + todo';
  }

  lemma RootReached(adj: Graph<Node>, roots: set<Node>, n: Node)
    requires n in roots
    ensures ReachedFrom(adj, roots, n)
  {
    ReachesRefl(adj, n);
  }

  lemma SuccReached(adj: Graph<Node>, roots: set<Node>, u: Node, v: Node)
    requires ReachedFrom(adj, roots, u) && v in Succ(adj, u)
    ensures ReachedFrom(adj, roots, v) && v in C.AllNodes(adj)
  {
    var r :| r in roots && Reaches(adj, r, u);
    ReachesStep(adj, u, v);
    ReachesTransitive(adj, r, u, v);
  }

  lemma ReachedInClosedSet(adj: Graph<Node>, roots: set<Node>, s: set<Node>, n: Node)
    requires roots <= s && forall u, v | u in s && v in Succ(adj, u) :: v in s
    requires ReachedFrom(adj, roots, n)
    ensures n in s
  {
    var r :| r in roots && Reaches(adj, r, n);
    var w :| WalkFromTo(adj, r, n, w);
    ClosedSetHoldsWalk(adj, s, w);
  }

  /** The package-level graph that `resolve_graph` describes. */
  ghost function PackageGraph(graph: ResolvedGraph, pkgs: seq<Package>): Graph<Package> {
    map p | p in pkgs :: set q | q in graph.EdgesOf(p)
  }

  function Keys(w: seq<Package>): (k: seq<Node>)
    ensures |k| == |w| && forall i | 0 <= i < |w| :: k[i] == NodeKey(w[i])
  {
    seq(|w|, i requires 0 <= i < |w| => NodeKey(w[i]))
  }

  /** Package walks project to name walks. */
  lemma WalkProjects(graph: ResolvedGraph, pkgs: seq<Package>, adj: Graph<Node>, w: seq<Package>)
    requires IsNameGraph(adj, graph, pkgs) && IsWalk(PackageGraph(graph, pkgs), w)
    ensures IsWalk(adj, Keys(w))
  {
    hide ResolvedGraph.EdgesOf, NodeKey;
    var k := Keys(w);
    forall i | 0 <= i < |k| - 1 ensures EdgeAt(adj, k, i) {
      assert EdgeAt(PackageGraph(graph, pkgs), w, i);
      assert NameEdge(graph, pkgs, k[i], k[i + 1]);
    }
  }

  /** An edge between names can be taken by some package of the source name, and
      leads to every package of the target name. */
  lemma NameEdgeLifts(graph: ResolvedGraph, pkgs: seq<Package>, K: Node, L: Node) returns (p: Package)
    requires IsResolution(graph, pkgs) && DistinctIdentities(pkgs) && NameEdge(graph, pkgs, K, L)
    ensures p in pkgs && NodeKey(p) == K
    ensures forall q | q in pkgs && NodeKey(q) == L :: q in graph.EdgesOf(p)
  {
    hide ResolvedGraph.EdgesOf, NodeKey, IsResolution, DistinctIdentities;
    var q0;
    p, q0 :| p in pkgs && q0 in graph.EdgesOf(p) && NodeKey(p) == K && NodeKey(q0) == L;
    EdgeMeaning(graph, pkgs, p, q0);
    forall q | q in pkgs && NodeKey(q) == L ensures q in graph.EdgesOf(p) {
      EdgeMeaning(graph, pkgs, p, q);
      var dep :| dep in p.dependencies && AsksFor(p, dep, q0);
      KeysMeet(p, dep, q0);
      KeysMeet(p, dep, q);
    }
  }

  /** One carrier package for every step of a closed name walk. */
  lemma {:induction false} LiftSteps(graph: ResolvedGraph, pkgs: seq<Package>, adj: Graph<Node>, c: seq<Node>, n: nat)
    returns (ps: seq<Package>)
    requires IsResolution(graph, pkgs) && DistinctIdentities(pkgs) && IsNameGraph(adj, graph, pkgs)
    requires IsWalk(adj, c) && n <= |c| - 1
    ensures |ps| == n
    ensures forall i | 0 <= i < n :: ps[i] in pkgs && NodeKey(ps[i]) == c[i]
    ensures forall i, q | 0 <= i < n && q in pkgs && NodeKey(q) == c[i + 1] :: q in graph.EdgesOf(ps[i])
  {
    hide ResolvedGraph.EdgesOf, NodeKey, IsResolution, DistinctIdentities;
    if n == 0 {
      ps := [];
    } else {
      var rest := LiftSteps(graph, pkgs, adj, c, n - 1);
      assert EdgeAt(adj, c, n - 1);
      var p := NameEdgeLifts(graph, pkgs, c[n - 1], c[n]);
      ps := rest + [p];
    }
  }

  /** The name-level graph has a cycle exactly when the package-level graph has
      one: collapsing versions neither hides nor invents cycles. */
  lemma NameCycleIffPackageCycle(graph: ResolvedGraph, pkgs: seq<Package>, adj: Graph<Node>)
    requires IsResolution(graph, pkgs) && DistinctIdentities(pkgs) && IsNameGraph(adj, graph, pkgs)
    ensures Acyclic(adj) <==> Acyclic(PackageGraph(graph, pkgs))
  {
    hide ResolvedGraph.EdgesOf, NodeKey, IsResolution, DistinctIdentities, IsNameGraph;
    var pg := PackageGraph(graph, pkgs);
    if w :| IsClosedWalk(pg, w) {
      WalkProjects(graph, pkgs, adj, w);
      assert IsClosedWalk(adj, Keys(w));
    }
    if c :| IsClosedWalk(adj, c) {
      var ps := LiftSteps(graph, pkgs, adj, c, |c| - 1);
      var w := ps + [ps[0]];
      forall i | 0 <= i < |w| - 1 ensures EdgeAt(pg, w, i) {
      }
      assert IsClosedWalk(pg, w);
    }
  }

  /** No package that a direct package reaches has an orphaned name. */
  lemma ReachedPackageHasReachedName(graph: ResolvedGraph, pkgs: seq<Package>, adj: Graph<Node>, p: Package, q: Package)
    requires IsNameGraph(adj, graph, pkgs) && p in pkgs && p.isDirect
    requires Reaches(PackageGraph(graph, pkgs), p, q)
    ensures DirectReaches(adj, pkgs, NodeKey(q))
  {
    hide ResolvedGraph.EdgesOf, NodeKey, IsNameGraph;
    var w :| WalkFromTo(PackageGraph(graph, pkgs), p, q, w);
    WalkProjects(graph, pkgs, adj, w);
    assert WalkFromTo(adj, NodeKey(p), NodeKey(q), Keys(w));
  }

  /** Resolved edges stay inside an ecosystem, so cycle lists tell the nodes of a component apart. */
  lemma NameGraphKeepsEcosystem(graph: ResolvedGraph, pkgs: seq<Package>, adj: Graph<Node>)
    requires IsResolution(graph, pkgs) && DistinctIdentities(pkgs) && IsNameGraph(adj, graph, pkgs)
    ensures R.KeepsEcosystem(adj) && R.NamesTell(adj)
  {
    hide ResolvedGraph.EdgesOf, IsResolution, DistinctIdentities, Norm, SameName;
    forall K, L | L in Succ(adj, K) ensures L.ecosystem == K.ecosystem {
      var p, q :| p in pkgs && q in graph.EdgesOf(p) && NodeKey(p) == K && NodeKey(q) == L;
      EdgeMeaning(graph, pkgs, p, q);
    }
    R.EcosystemsTell(adj);
  }

  /** When no name is taken in two ecosystems, cycle lists tell all nodes apart. */
  lemma OneNameOneNode(graph: ResolvedGraph, pkgs: seq<Package>, adj: Graph<Node>)
    requires IsResolution(graph, pkgs) && IsNameGraph(adj, graph, pkgs)
    requires forall k, l | k in AllKeys(pkgs) && l in AllKeys(pkgs) && k.name == l.name :: k == l
    ensures R.UniqueNames(adj)
  {
    hide IsResolution, IsNameGraph, AllKeys, E.OnCycle;
    forall u | E.OnCycle(adj, u) ensures u in AllKeys(pkgs) {
      var v := E.CycleNodeHasEdge(adj, u);
      NameEdgeInside(graph, pkgs, adj, u, v);
    }
  }

  /** `n` is reached from the name of a direct package. */
  ghost predicate DirectReaches(adj: Graph<Node>, pkgs: seq<Package>, n: Node) {
    exists p :: p in pkgs && p.isDirect && Reaches(adj, NodeKey(p), n)
  }

  /** A walk that starts at the name of a direct package. */
  ghost predicate DirectWalk(adj: Graph<Node>, pkgs: seq<Package>, w: seq<Node>) {
    IsWalk(adj, w) && exists p :: p in pkgs && p.isDirect && NodeKey(p) == w[0]
  }

  lemma RootsAreDirect(adj: Graph<Node>, pkgs: seq<Package>)
    ensures forall n :: ReachedFrom(adj, DirectKeys(pkgs), n) <==> DirectReaches(adj, pkgs, n)
    ensures forall w :: D.RootWalk(adj, DirectKeys(pkgs), w) <==> DirectWalk(adj, pkgs, w)
  {
    hide NodeKey, Reaches, IsWalk;
    forall n ensures ReachedFrom(adj, DirectKeys(pkgs), n) <==> DirectReaches(adj, pkgs, n) {
      if DirectReaches(adj, pkgs, n) {
        var p :| p in pkgs && p.isDirect && Reaches(adj, NodeKey(p), n);
        assert NodeKey(p) in DirectKeys(pkgs);
      }
    }
  }

  lemma NameGraphStaysInside(graph: ResolvedGraph, pkgs: seq<Package>, adj: Graph<Node>)
    requires IsResolution(graph, pkgs) && IsNameGraph(adj, graph, pkgs)
    ensures Within(adj, AllKeys(pkgs)) && DirectKeys(pkgs) <= AllKeys(pkgs)
  {
    hide ResolvedGraph.EdgesOf, NodeKey, IsResolution, IsNameGraph;
    forall K | K in adj && adj[K] != {} ensures K in AllKeys(pkgs) && adj[K] <= AllKeys(pkgs) {
      forall L | L in adj[K] ensures L in AllKeys(pkgs) && K in AllKeys(pkgs) {
        NameEdgeInside(graph, pkgs, adj, K, L);
      }
    }
  }

  lemma NameEdgeInside(graph: ResolvedGraph, pkgs: seq<Package>, adj: Graph<Node>, K: Node, L: Node)
    requires IsResolution(graph, pkgs) && IsNameGraph(adj, graph, pkgs) && L in Succ(adj, K)
    ensures K in AllKeys(pkgs) && L in AllKeys(pkgs)
  {
    hide ResolvedGraph.EdgesOf, NodeKey, IsResolution;
    var p, q :| p in pkgs && q in graph.EdgesOf(p) && NodeKey(p) == K && NodeKey(q) == L;
    EdgesStayInside(graph, pkgs, p, q);
  }

  /** The reported names, in order, are exactly those of packages that no direct package reaches. */
  ghost predicate OrphansExact(m: Metrics, adj: Graph<Node>, pkgs: seq<Package>) {
    && (forall n :: n in m.orphanedNames <==>
          (exists q :: q in pkgs && NodeKey(q) == n) && !DirectReaches(adj, pkgs, n))
    && (forall i, j | 0 <= i < j < |m.orphanedNames| :: var a, b := m.orphanedNames[i], m.orphanedNames[j];
          StringLess(a.ecosystem, b.ecosystem) || (a.ecosystem == b.ecosystem && StringLess(a.name, b.name)))
  }

  /** Some direct package runs into a cycle. */
  ghost predicate DirectReachesCycle(adj: Graph<Node>, pkgs: seq<Package>) {
    exists c :: IsClosedWalk(adj, c) && DirectReaches(adj, pkgs, c[0])
  }

  /** The reported depth is the exact longest walk from a direct package, or the
      number of names when such a walk can run into a cycle. */
  ghost predicate DepthExact(m: Metrics, adj: Graph<Node>, pkgs: seq<Package>) {
    var names := |set q | q in pkgs :: NodeKey(q)|;
    && (DirectReachesCycle(adj, pkgs) ==> m.maxDepth == names)
    && (!DirectReachesCycle(adj, pkgs) && pkgs != [] ==> m.maxDepth < names)
    && (!DirectReachesCycle(adj, pkgs) ==> forall w | DirectWalk(adj, pkgs, w) :: |w| - 1 <= m.maxDepth)
    && (m.maxDepth == 0 || exists w :: DirectWalk(adj, pkgs, w) && |w| - 1 == m.maxDepth)
  }

  /** The reports are those of a finished search, and complete. */
  ghost predicate CyclesExact(m: Metrics, adj: Graph<Node>) {
    && (exists fin, rec, tree :: C.IsSearch(adj, m.cycles, fin, rec, tree))
    && (forall c | c in m.cycles :: C.NamesSimpleCycle(adj, c))
    && (forall c, i | c in m.cycles && 0 <= i < |c| - 1 :: C.NamesEdge(adj, c[i], c[i + 1]))
    && (forall w | IsClosedWalk(adj, w) :: C.ReportedNear(adj, m.cycles, w))
  }

  method DependencyMetrics(pkgs: seq<Package>, graph: ResolvedGraph) returns (m: Metrics, ghost names: Graph<Node>)
    requires IsResolution(graph, pkgs)
    ensures IsNameGraph(names, graph, pkgs)
    ensures OrphansExact(m, names, pkgs) && DepthExact(m, names, pkgs) && CyclesExact(m, names)
    ensures DistinctIdentities(pkgs) ==> (m.cycles == [] <==> Acyclic(PackageGraph(graph, pkgs)))
    ensures CountsExact(m.counts, pkgs, graph) && m.orphanedPackages == |m.orphanedNames|
    ensures m.counts.danglingEdges == |OddAt(pkgs, pkgs, false)| && m.counts.ambiguousEdges == |OddAt(pkgs, pkgs, true)|
    ensures DistinctIdentities(pkgs) ==> m.counts.dependencyEdges == |Meetings(pkgs, pkgs)|
  {
    hide *;
    var directKeys := DirectKeys(pkgs);
    var adj0 := BuildAdjacency(pkgs, graph);
    var reachable, adj := Reachable(adj0, directKeys);
    names := adj;
    SameNameGraph(adj0, adj, graph, pkgs);
    SameReached(adj0, adj, directKeys);
    var nodeKeys := AllKeys(pkgs);
    var orphaned := SortNodes(nodeKeys - reachable - directKeys);
    var cycles, fin, rec, tree := C.FindCycles(adj);
    var depth := D.MaxDepth(directKeys, adj, nodeKeys);
    var counts := CountUp(pkgs, graph);
    m := Metrics(counts, |orphaned|, orphaned, cycles, depth);
    assert C.IsSearch(adj, m.cycles, fin, rec, tree);
    MetricsExact(m, pkgs, graph, adj, reachable);
    DanglingAndAmbiguous(counts, pkgs, graph);
    if DistinctIdentities(pkgs) { EdgesAreTargets(counts, pkgs, graph); }
  }

  lemma SameNameGraph(adj0: Graph<Node>, adj: Graph<Node>, graph: ResolvedGraph, pkgs: seq<Package>)
    requires IsNameGraph(adj0, graph, pkgs) && forall u :: Succ(adj, u) == Succ(adj0, u)
    ensures IsNameGraph(adj, graph, pkgs)
  {
    hide Succ, NameEdge;
  }

  lemma SameWalks(g: Graph<Node>, h: Graph<Node>, w: seq<Node>)
    requires (forall u :: Succ(h, u) == Succ(g, u)) && IsWalk(g, w)
    ensures IsWalk(h, w)
  {
    hide Succ;
    forall i | 0 <= i < |w| - 1 ensures EdgeAt(h, w, i) { assert EdgeAt(g, w, i); }
  }

  lemma SameReached(adj0: Graph<Node>, adj: Graph<Node>, roots: set<Node>)
    requires forall u :: Succ(adj, u) == Succ(adj0, u)
    ensures forall n :: ReachedFrom(adj, roots, n) <==> ReachedFrom(adj0, roots, n)
  {
    hide Succ, IsWalk;
    forall n ensures ReachedFrom(adj, roots, n) <==> ReachedFrom(adj0, roots, n) {
      if ReachedFrom(adj, roots, n) {
        var r :| r in roots && Reaches(adj, r, n);
        var w :| WalkFromTo(adj, r, n, w);
        SameWalks(adj, adj0, w);
        assert WalkFromTo(adj0, r, n, w);
      }
      if ReachedFrom(adj0, roots, n) {
        var r :| r in roots && Reaches(adj0, r, n);
        var w :| WalkFromTo(adj0, r, n, w);
        SameWalks(adj0, adj, w);
        assert WalkFromTo(adj, r, n, w);
      }
    }
  }

  lemma OrphansAreExact(m: Metrics, adj: Graph<Node>, pkgs: seq<Package>, reachable: set<Node>)
    requires forall n :: n in reachable <==> ReachedFrom(adj, DirectKeys(pkgs), n)
    requires m.orphanedNames == SortNodes(AllKeys(pkgs) - reachable - DirectKeys(pkgs))
    ensures OrphansExact(m, adj, pkgs)
  {
    hide NodeKey, ReachedFrom, DirectKeys, DirectReaches, SortNodes, StringLess;
    RootsAreDirect(adj, pkgs);
    SortNodesOrder(AllKeys(pkgs) - reachable - DirectKeys(pkgs));
    forall n | n in DirectKeys(pkgs) ensures ReachedFrom(adj, DirectKeys(pkgs), n) {
      RootReached(adj, DirectKeys(pkgs), n);
    }
  }

  lemma DepthMeans(m: Metrics, adj: Graph<Node>, pkgs: seq<Package>)
    requires Within(adj, AllKeys(pkgs)) && DirectKeys(pkgs) <= AllKeys(pkgs)
    requires D.CappedLongest(adj, DirectKeys(pkgs), |AllKeys(pkgs)|, m.maxDepth)
    ensures DepthExact(m, adj, pkgs)
  {
    hide NodeKey, Within, ReachedFrom, DirectKeys, DirectReaches, DirectWalk, IsClosedWalk, D.RootWalk;
    RootsAreDirect(adj, pkgs);
    D.DepthIsExact(adj, DirectKeys(pkgs), AllKeys(pkgs), m.maxDepth);
    assert AllKeys(pkgs) == set q | q in pkgs :: NodeKey(q);
    if pkgs != [] { assert NodeKey(pkgs[0]) in AllKeys(pkgs); }
    CyclesAreReached(adj, pkgs);
  }

  lemma CyclesAreReached(adj: Graph<Node>, pkgs: seq<Package>)
    ensures D.RootReachesCycle(adj, DirectKeys(pkgs)) <==> DirectReachesCycle(adj, pkgs)
  {
    hide NodeKey, ReachedFrom, DirectKeys, DirectReaches, DirectWalk, IsWalk, D.RootWalk;
    RootsAreDirect(adj, pkgs);
    if c :| IsClosedWalk(adj, c) && ReachedFrom(adj, DirectKeys(pkgs), c[0]) {
      assert DirectReaches(adj, pkgs, c[0]);
    }
    if c :| IsClosedWalk(adj, c) && DirectReaches(adj, pkgs, c[0]) {
      assert ReachedFrom(adj, DirectKeys(pkgs), c[0]);
    }
  }

  lemma MetricsExact(m: Metrics, pkgs: seq<Package>, graph: ResolvedGraph, adj: Graph<Node>, reachable: set<Node>)
    requires IsResolution(graph, pkgs) && IsNameGraph(adj, graph, pkgs)
    requires forall n :: n in reachable <==> ReachedFrom(adj, DirectKeys(pkgs), n)
    requires m.orphanedNames == SortNodes(AllKeys(pkgs) - reachable - DirectKeys(pkgs))
    requires exists fin, rec, tree :: C.IsSearch(adj, m.cycles, fin, rec, tree)
    requires forall c | c in m.cycles :: C.NamesSimpleCycle(adj, c)
    requires forall c, i | c in m.cycles && 0 <= i < |c| - 1 :: C.NamesEdge(adj, c[i], c[i + 1])
    requires forall w | IsClosedWalk(adj, w) :: C.ReportedNear(adj, m.cycles, w)
    requires D.CappedLongest(adj, DirectKeys(pkgs), |AllKeys(pkgs)|, m.maxDepth)
    ensures OrphansExact(m, adj, pkgs) && DepthExact(m, adj, pkgs) && CyclesExact(m, adj)
    ensures DistinctIdentities(pkgs) ==> (m.cycles == [] <==> Acyclic(PackageGraph(graph, pkgs)))
  {
    hide IsResolution, IsNameGraph, DirectKeys, AllKeys, DistinctIdentities, PackageGraph, Within, Acyclic;
    hide OrphansExact, DepthExact, SortNodes, ReachedFrom, C.IsSearch, C.NamesSimpleCycle, C.ReportedNear,
      IsClosedWalk, D.CappedLongest,
      D.RootReachesCycle, D.RootWalk;
    OrphansAreExact(m, adj, pkgs, reachable);
    NameGraphStaysInside(graph, pkgs, adj);
    DepthMeans(m, adj, pkgs);
    C.EmptyReportMeansAcyclic(adj, m.cycles);
    if DistinctIdentities(pkgs) { NameCycleIffPackageCycle(graph, pkgs, adj); }
  }

  /** A package with an orphaned name is never pulled in by a direct package. */
  lemma OrphansAreUnreachable(m: Metrics, graph: ResolvedGraph, pkgs: seq<Package>, adj: Graph<Node>, p: Package,
                              q: Package)
    requires IsNameGraph(adj, graph, pkgs) && OrphansExact(m, adj, pkgs)
    requires p in pkgs && p.isDirect && NodeKey(q) in m.orphanedNames
    ensures !Reaches(PackageGraph(graph, pkgs), p, q)
  {
    hide IsNameGraph, NodeKey, PackageGraph, Reaches, ReachedFrom;
    if Reaches(PackageGraph(graph, pkgs), p, q) {
      ReachedPackageHasReachedName(graph, pkgs, adj, p, q);
    }
  }
}
