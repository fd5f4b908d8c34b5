/** How many lists the cycle search reports for one strongly connected component. */
module CycleReports {
  import opened CycleEntries
  import opened Cycles
  import opened Digraphs
  import opened Models
  import opened Orders

  /** `e` closed a reported cycle in the component of `s`. */
  ghost predicate BackEdgeIn(adj: Graph<Node>, rec: map<Edge, seq<Node>>, s: Node, e: Edge) {
    e in rec && StronglyConnected(adj, s, e.0)
  }

  ghost predicate OneBackEdge(adj: Graph<Node>, rec: map<Edge, seq<Node>>, s: Node) {
    exists e :: BackEdgeIn(adj, rec, s, e) && forall f | BackEdgeIn(adj, rec, s, f) :: f == e
  }

  /** The list `c` is reported for the component of `s`. */
  ghost predicate ListFor(adj: Graph<Node>, rec: map<Edge, seq<Node>>, s: Node, c: seq<string>) {
    exists e :: BackEdgeIn(adj, rec, s, e) && Names(rec[e]) == c
  }

  ghost predicate ExactlyOneList(adj: Graph<Node>, rec: map<Edge, seq<Node>>, s: Node) {
    exists c :: ListFor(adj, rec, s, c) && forall d | ListFor(adj, rec, s, d) :: d == c
  }

  /** Not two nodes of the component have an edge to `s`. */
  ghost predicate OnePredecessor(adj: Graph<Node>, s: Node) {
    forall x, y | s in Succ(adj, x) && s in Succ(adj, y) && StronglyConnected(adj, s, x)
      && StronglyConnected(adj, s, y) ::
      x == y
  }

  /** Every cycle of the component passes `s`: without `s` the component is acyclic. */
  ghost predicate AllCyclesPass(adj: Graph<Node>, s: Node) {
    forall w | IsClosedWalk(adj, w) && StronglyConnected(adj, s, w[0]) :: s in w
  }

  lemma ClosedWalkInside(adj: Graph<Node>, s: Node, w: seq<Node>, i: nat)
    requires IsClosedWalk(adj, w) && StronglyConnected(adj, s, w[0]) && i < |w|
    ensures StronglyConnected(adj, s, w[i])
  {
    hide Reaches, IsClosedWalk;
    ClosedWalkConnected(adj, w, 0, i);
    ReachesTransitive(adj, s, w[0], w[i]);
    ReachesTransitive(adj, w[i], w[0], s);
  }

  /** The nodes of a reported cycle lie in the component of its back edge. */
  lemma ReportInside(adj: Graph<Node>, cycles: seq<seq<string>>, rec: map<Edge, seq<Node>>, s: Node, e: Edge)
    requires CyclesJustified(adj, cycles, rec) && BackEdgeIn(adj, rec, s, e)
    ensures var c := rec[e];
      && |c| >= 2 && IsSimpleCycle(adj, c) && c[|c| - 2] == e.0 && c[|c| - 1] == e.1
      && forall i | 0 <= i < |c| :: StronglyConnected(adj, s, c[i])
  {
    hide Reaches, NamesSimpleCycle;
    var c := rec[e];
    assert Reported(adj, cycles, e, c);
    hide IsClosedWalk, Reported;
    ClosedWalkConnected(adj, c, |c| - 2, 0);
    ReachesTransitive(adj, s, e.0, c[0]);
    ReachesTransitive(adj, c[0], e.0, s);
    forall i | 0 <= i < |c| ensures StronglyConnected(adj, s, c[i]) { ClosedWalkInside(adj, s, c, i); }
  }

  /** Two edges `(c[j], c[j + 1])` of one reported cycle: only the last is a back edge. */
  lemma OnlyLastIsBackEdge(cycles: seq<seq<string>>, rec: map<Edge, seq<Node>>, tree: set<Edge>, e: Edge, j: nat)
    requires BackEdges(cycles, rec, tree) && e in rec && j + 1 < |rec[e]|
    requires (rec[e][j], rec[e][j + 1]) in rec
    ensures j == |rec[e]| - 2
  {
    hide ListedFrom;
    assert AlongTree(tree, rec[e]);
  }

  /** Every edge of the component into the node that finishes last is a back edge. */
  lemma EdgesIntoHead(adj: Graph<Node>, cycles: seq<seq<string>>, fin: map<Node, nat>, rec: map<Edge, seq<Node>>,
                      tree: set<Edge>, s: Node, x: Node)
    requires IsSearch(adj, cycles, fin, rec, tree) && FinishesLast(adj, fin, s)
    requires s in Succ(adj, x) && StronglyConnected(adj, s, x)
    ensures BackEdgeIn(adj, rec, s, (x, s))
  {
    hide CyclesJustified, BackEdges, TreeSpans, EntersFirst, StronglyConnected;
    assert SettledBefore(fin, rec, x, s);
  }

  lemma LastPredecessor(adj: Graph<Node>, s: Node) returns (x: Node)
    requires OnCycle(adj, s)
    ensures s in Succ(adj, x) && StronglyConnected(adj, s, x)
  {
    hide Reaches;
    var w :| IsClosedWalk(adj, w) && s in w;
    var i :| 0 <= i < |w| && w[i] == s;
    var j := if i == 0 then |w| - 1 else i;
    x := w[j - 1];
    assert w[j] == s && EdgeAt(adj, w, j - 1);
    hide IsClosedWalk;
    ClosedWalkConnected(adj, w, j, j - 1);
  }

  lemma BackEdgeOnWalk(adj: Graph<Node>, cycles: seq<seq<string>>, fin: map<Node, nat>, rec: map<Edge, seq<Node>>,
                       tree: set<Edge>, s: Node, w: seq<Node>) returns (i: nat)
    requires IsSearch(adj, cycles, fin, rec, tree) && IsClosedWalk(adj, w) && StronglyConnected(adj, s, w[0])
    ensures i < |w| - 1 && BackEdgeIn(adj, rec, s, (w[i], w[i + 1]))
  {
    SearchParts(adj, cycles, fin, rec, tree);
    hide IsSearch, CyclesJustified, BackEdges, StronglyConnected, BlackEdgesSettled;
    i := ClosedWalkHasBackEdge(adj, fin, rec, w);
    ClosedWalkInside(adj, s, w, i);
  }

  /** The component that is entered at `s` has exactly one back edge if and only if one of its nodes
      alone leads to `s` and all its cycles pass `s`. */
  lemma OneBackEdgeIff(adj: Graph<Node>, cycles: seq<seq<string>>, fin: map<Node, nat>, rec: map<Edge, seq<Node>>,
                       tree: set<Edge>, s: Node)
    requires IsSearch(adj, cycles, fin, rec, tree) && Entry(adj, s) && OnCycle(adj, s)
    ensures OneBackEdge(adj, rec, s) <==> OnePredecessor(adj, s) && AllCyclesPass(adj, s)
  {
    hide IsSearch, FinishesLast, Entry, OnCycle, BackEdgeIn, StronglyConnected, IsWalk;
    EntryIff(adj, cycles, fin, rec, tree, s);
    var p := LastPredecessor(adj, s);
    EdgesIntoHead(adj, cycles, fin, rec, tree, s, p);
    if OneBackEdge(adj, rec, s) {
      forall x, y | s in Succ(adj, x) && s in Succ(adj, y) && StronglyConnected(adj, s, x)
        && StronglyConnected(adj, s, y)
        ensures x == y
      {
        EdgesIntoHead(adj, cycles, fin, rec, tree, s, x);
        EdgesIntoHead(adj, cycles, fin, rec, tree, s, y);
        assert (x, s) == (y, s);
      }
      forall w | IsClosedWalk(adj, w) && StronglyConnected(adj, s, w[0]) ensures s in w {
        var i := BackEdgeOnWalk(adj, cycles, fin, rec, tree, s, w);
        assert (w[i], w[i + 1]) == (p, s);
      }
    }
    if OnePredecessor(adj, s) && AllCyclesPass(adj, s) {
      forall f | BackEdgeIn(adj, rec, s, f) ensures f == (p, s) {
        PassingBackEdge(adj, cycles, fin, rec, tree, s, p, f);
      }
    }
  }

  lemma PassingBackEdge(adj: Graph<Node>, cycles: seq<seq<string>>, fin: map<Node, nat>, rec: map<Edge, seq<Node>>,
                        tree: set<Edge>, s: Node, p: Node, f: Edge)
    requires IsSearch(adj, cycles, fin, rec, tree) && OnePredecessor(adj, s) && AllCyclesPass(adj, s)
    requires BackEdgeIn(adj, rec, s, (p, s)) && s in Succ(adj, p) && BackEdgeIn(adj, rec, s, f)
    ensures f == (p, s)
  {
    hide IsSearch, CyclesJustified, BackEdges, StronglyConnected, IsSimpleCycle, AllCyclesPass, OnePredecessor;
    SearchParts(adj, cycles, fin, rec, tree);
    var c := rec[f];
    ReportInside(adj, cycles, rec, s, f);
    var j := StepInto(adj, c, s);
    OnlyFrom(adj, s, c[j - 1], p);
    OnlyLastIsBackEdge(cycles, rec, tree, f, j - 1);
  }

  lemma StepInto(adj: Graph<Node>, c: seq<Node>, s: Node) returns (j: nat)
    requires IsSimpleCycle(adj, c) && AllCyclesPass(adj, s) && StronglyConnected(adj, s, c[0])
    ensures 1 <= j < |c| && c[j] == s && s in Succ(adj, c[j - 1])
  {
    hide StronglyConnected, NoDuplicates;
    assert s in c;
    var i :| 0 <= i < |c| && c[i] == s;
    j := if i == 0 then |c| - 1 else i;
    assert EdgeAt(adj, c, j - 1);
  }

  lemma OnlyFrom(adj: Graph<Node>, s: Node, x: Node, p: Node)
    requires OnePredecessor(adj, s) && s in Succ(adj, x) && s in Succ(adj, p)
    requires StronglyConnected(adj, s, x) && StronglyConnected(adj, s, p)
    ensures x == p
  {
    hide StronglyConnected;
  }

  // ---------- lists ----------

  /** Edges stay inside an ecosystem, as resolved edges do. */
  ghost predicate KeepsEcosystem(adj: Graph<Node>) {
    forall u, v | v in Succ(adj, u) :: v.ecosystem == u.ecosystem
  }

  lemma {:induction false} WalkKeepsEcosystem(adj: Graph<Node>, w: seq<Node>, i: nat)
    requires KeepsEcosystem(adj) && IsWalk(adj, w) && i < |w|
    ensures w[i].ecosystem == w[0].ecosystem
  {
    if i > 0 {
      WalkKeepsEcosystem(adj, w, i - 1);
      assert EdgeAt(adj, w, i - 1);
    }
  }

  lemma ComponentKeepsEcosystem(adj: Graph<Node>, s: Node, v: Node)
    requires KeepsEcosystem(adj) && StronglyConnected(adj, s, v)
    ensures v.ecosystem == s.ecosystem
  {
    var w :| WalkFromTo(adj, s, v, w);
    WalkKeepsEcosystem(adj, w, |w| - 1);
  }

  /** Inside a component names tell nodes apart. */
  ghost predicate NamesTell(adj: Graph<Node>) {
    forall u, v | StronglyConnected(adj, u, v) && u.name == v.name :: u == v
  }

  lemma EcosystemsTell(adj: Graph<Node>)
    requires KeepsEcosystem(adj)
    ensures NamesTell(adj)
  {
    hide StronglyConnected, KeepsEcosystem;
    forall u, v | StronglyConnected(adj, u, v) && u.name == v.name ensures u == v {
      ComponentKeepsEcosystem(adj, u, v);
    }
  }

  lemma SameNames(c: seq<Node>, d: seq<Node>)
    requires Names(c) == Names(d)
    ensures |c| == |d| && forall i | 0 <= i < |c| :: c[i].name == d[i].name
  {
    assert |c| == |Names(c)| == |d|;
    assert forall i | 0 <= i < |c| :: Names(c)[i] == c[i].name && Names(d)[i] == d[i].name;
  }

  /** Different back edges of a component give different lists. */
  lemma ListsDiffer(adj: Graph<Node>, cycles: seq<seq<string>>, rec: map<Edge, seq<Node>>, s: Node, e: Edge, f: Edge)
    requires CyclesJustified(adj, cycles, rec) && NamesTell(adj)
    requires BackEdgeIn(adj, rec, s, e) && BackEdgeIn(adj, rec, s, f) && Names(rec[e]) == Names(rec[f])
    ensures e == f
  {
    hide CyclesJustified, NamesTell, Reaches, IsClosedWalk, Names;
    ReportInside(adj, cycles, rec, s, e);
    ReportInside(adj, cycles, rec, s, f);
    var c, d := rec[e], rec[f];
    SameNames(c, d);
    forall i | 0 <= i < |c| ensures c[i] == d[i] {
      ReachesTransitive(adj, c[i], s, d[i]);
      ReachesTransitive(adj, d[i], s, c[i]);
      NamesTellThese(adj, c[i], d[i]);
    }
    assert c == d;
  }

  lemma NamesTellThese(adj: Graph<Node>, u: Node, v: Node)
    requires NamesTell(adj) && StronglyConnected(adj, u, v) && u.name == v.name
    ensures u == v
  {
    hide StronglyConnected;
  }

  lemma OneListOneBackEdge(adj: Graph<Node>, cycles: seq<seq<string>>, rec: map<Edge, seq<Node>>, s: Node)
    requires CyclesJustified(adj, cycles, rec) && NamesTell(adj) && ExactlyOneList(adj, rec, s)
    ensures OneBackEdge(adj, rec, s)
  {
    var c :| ListFor(adj, rec, s, c) && forall d | ListFor(adj, rec, s, d) :: d == c;
    var e :| BackEdgeIn(adj, rec, s, e) && Names(rec[e]) == c;
    hide CyclesJustified, NamesTell, Names, BackEdgeIn, ListFor;
    forall f | BackEdgeIn(adj, rec, s, f) ensures f == e {
      BackEdgeGivesList(adj, rec, s, f);
      ListsDiffer(adj, cycles, rec, s, e, f);
    }
  }

  lemma BackEdgeGivesList(adj: Graph<Node>, rec: map<Edge, seq<Node>>, s: Node, e: Edge)
    requires BackEdgeIn(adj, rec, s, e)
    ensures e in rec && ListFor(adj, rec, s, Names(rec[e]))
  {
    hide StronglyConnected, Names;
  }

  /** The component that is entered at `s` gets exactly one list if and only if one of its nodes
      alone leads to `s` and all its cycles pass `s`. */
  lemma OneListIff(adj: Graph<Node>, cycles: seq<seq<string>>, fin: map<Node, nat>, rec: map<Edge, seq<Node>>,
                   tree: set<Edge>, s: Node)
    requires IsSearch(adj, cycles, fin, rec, tree) && NamesTell(adj) && Entry(adj, s) && OnCycle(adj, s)
    ensures ExactlyOneList(adj, rec, s) <==> OnePredecessor(adj, s) && AllCyclesPass(adj, s)
  {
    hide IsSearch, CyclesJustified, Entry, OnCycle, ExactlyOneList, OnePredecessor, AllCyclesPass, NamesTell,
      BackEdgeIn;
    SearchParts(adj, cycles, fin, rec, tree);
    OneBackEdgeIff(adj, cycles, fin, rec, tree, s);
    OneListMeansOneBackEdge(adj, cycles, rec, s);
  }

  lemma SameComponentSameLists(adj: Graph<Node>, rec: map<Edge, seq<Node>>, u: Node, s: Node, c: seq<string>)
    requires StronglyConnected(adj, u, s)
    ensures ListFor(adj, rec, u, c) <==> ListFor(adj, rec, s, c)
  {
    hide Reaches, Names;
    forall e | e in rec ensures BackEdgeIn(adj, rec, u, e) <==> BackEdgeIn(adj, rec, s, e) {
      if BackEdgeIn(adj, rec, u, e) {
        ReachesTransitive(adj, s, u, e.0);
        ReachesTransitive(adj, e.0, u, s);
      }
      if BackEdgeIn(adj, rec, s, e) {
        ReachesTransitive(adj, u, s, e.0);
        ReachesTransitive(adj, e.0, s, u);
      }
    }
  }

  /** Every component with a cycle: it has one entry, and there the condition is exact. */
  lemma OneListInEveryComponent(adj: Graph<Node>, cycles: seq<seq<string>>, fin: map<Node, nat>,
                                rec: map<Edge, seq<Node>>, tree: set<Edge>, u: Node) returns (s: Node)
    requires IsSearch(adj, cycles, fin, rec, tree) && NamesTell(adj) && OnCycle(adj, u)
    ensures StronglyConnected(adj, u, s) && Entry(adj, s) && OnCycle(adj, s)
    ensures forall t | StronglyConnected(adj, u, t) && Entry(adj, t) :: t == s
    ensures ExactlyOneList(adj, rec, u) <==> OnePredecessor(adj, s) && AllCyclesPass(adj, s)
  {
    hide IsSearch, NamesTell, OnCycle, Entry, StronglyConnected, OnePredecessor, AllCyclesPass, ListFor;
    s := EntryExists(adj, cycles, fin, rec, tree, u);
    OneListIff(adj, cycles, fin, rec, tree, s);
    forall c ensures ListFor(adj, rec, u, c) <==> ListFor(adj, rec, s, c) {
      SameComponentSameLists(adj, rec, u, s, c);
    }
  }

  // ---------- components without branches ----------

  /** Every node of the component has at most one successor inside it. */
  ghost predicate NoBranches(adj: Graph<Node>, s: Node) {
    forall x, y, z | StronglyConnected(adj, s, x) && StronglyConnected(adj, s, y) && StronglyConnected(adj, s, z)
                     && y in Succ(adj, x) && z in Succ(adj, x) :: y == z
  }

  /** Without branches a walk inside the component never leaves a cycle of it. */
  lemma {:induction false} WalkStaysOnCycle(adj: Graph<Node>, s: Node, c: seq<Node>, w: seq<Node>, i: nat)
    requires NoBranches(adj, s) && IsClosedWalk(adj, c) && IsWalk(adj, w) && w[0] in c && i < |w|
    requires forall k | 0 <= k < |c| :: StronglyConnected(adj, s, c[k])
    requires forall k | 0 <= k < |w| :: StronglyConnected(adj, s, w[k])
    ensures w[i] in c
  {
    hide StronglyConnected;
    if i > 0 {
      WalkStaysOnCycle(adj, s, c, w, i - 1);
      assert EdgeAt(adj, w, i - 1);
      var k := NextOnCycle(adj, c, w[i - 1]);
      assert c[k + 1] == w[i];
    }
  }

  lemma NextOnCycle(adj: Graph<Node>, c: seq<Node>, x: Node) returns (k: nat)
    requires IsClosedWalk(adj, c) && x in c
    ensures k + 1 < |c| && c[k] == x && c[k + 1] in Succ(adj, x)
  {
    var i :| 0 <= i < |c| && c[i] == x;
    k := if i == |c| - 1 then 0 else i;
    assert EdgeAt(adj, c, k);
  }

  lemma AllOnCycle(adj: Graph<Node>, s: Node, c: seq<Node>, v: Node)
    requires NoBranches(adj, s) && IsClosedWalk(adj, c) && StronglyConnected(adj, s, v)
    requires forall k | 0 <= k < |c| :: StronglyConnected(adj, s, c[k])
    ensures v in c
  {
    assert StronglyConnected(adj, s, c[0]);
    ReachesTransitive(adj, c[0], s, v);
    var w :| WalkFromTo(adj, c[0], v, w);
    forall k | 0 <= k < |w| ensures StronglyConnected(adj, s, w[k]) {
      WalkReaches(adj, w, 0, k);
      WalkReaches(adj, w, k, |w| - 1);
      hide Reaches;
      ReachesTransitive(adj, s, c[0], w[k]);
      ReachesTransitive(adj, w[k], v, s);
    }
    WalkStaysOnCycle(adj, s, c, w, |w| - 1);
  }

  lemma SameBackEdge(adj: Graph<Node>, cycles: seq<seq<string>>, rec: map<Edge, seq<Node>>, tree: set<Edge>, s: Node,
                     e: Edge, f: Edge)
    requires CyclesJustified(adj, cycles, rec) && BackEdges(cycles, rec, tree) && NoBranches(adj, s)
    requires BackEdgeIn(adj, rec, s, e) && BackEdgeIn(adj, rec, s, f)
    ensures f == e
  {
    hide CyclesJustified, BackEdges, StronglyConnected, IsClosedWalk;
    ReportInside(adj, cycles, rec, s, e);
    ReportInside(adj, cycles, rec, s, f);
    var c, d := rec[e], rec[f];
    AllOnCycle(adj, s, c, f.0);
    var k := NextOnCycle(adj, c, f.0);
    LastStep(adj, d);
    assert c[k + 1] == f.1;
    OnlyLastIsBackEdge(cycles, rec, tree, e, k);
  }

  lemma LastStep(adj: Graph<Node>, c: seq<Node>)
    requires IsClosedWalk(adj, c)
    ensures |c| >= 2 && c[|c| - 1] in Succ(adj, c[|c| - 2])
  {
    assert EdgeAt(adj, c, |c| - 2);
  }

  /** A component with a cycle and without branches gets exactly one list, wherever the search
      enters it. */
  lemma NoBranchesOneList(adj: Graph<Node>, cycles: seq<seq<string>>, fin: map<Node, nat>, rec: map<Edge, seq<Node>>,
                          tree: set<Edge>, s: Node)
    requires IsSearch(adj, cycles, fin, rec, tree) && OnCycle(adj, s) && NoBranches(adj, s)
    ensures ExactlyOneList(adj, rec, s)
  {
    var w :| IsClosedWalk(adj, w) && s in w;
    var k :| 0 <= k < |w| && w[k] == s;
    ClosedWalkConnected(adj, w, k, 0);
    hide IsSearch, IsClosedWalk, NoBranches, BackEdgeIn, StronglyConnected, Names, Reaches;
    var i := BackEdgeOnWalk(adj, cycles, fin, rec, tree, s, w);
    var e := (w[i], w[i + 1]);
    SearchParts(adj, cycles, fin, rec, tree);
    forall f | BackEdgeIn(adj, rec, s, f) ensures f == e { SameBackEdge(adj, cycles, rec, tree, s, e, f); }
    OneBackEdgeOneList(adj, rec, s, e);
  }

  lemma OneBackEdgeOneList(adj: Graph<Node>, rec: map<Edge, seq<Node>>, s: Node, e: Edge)
    requires BackEdgeIn(adj, rec, s, e) && forall f | BackEdgeIn(adj, rec, s, f) :: f == e
    ensures ExactlyOneList(adj, rec, s)
  {
    hide StronglyConnected, Names;
    assert ListFor(adj, rec, s, Names(rec[e]));
  }

  // ---------- the lists of all components together ----------

  /** No two nodes on cycles share a name. */
  ghost predicate UniqueNames(adj: Graph<Node>) {
    forall u, v | OnCycle(adj, u) && OnCycle(adj, v) && u.name == v.name :: u == v
  }

  lemma UniqueNamesTell(adj: Graph<Node>)
    requires UniqueNames(adj)
    ensures NamesTell(adj)
  {
    hide OnCycle, StronglyConnected;
    forall u, v | StronglyConnected(adj, u, v) && u.name == v.name ensures u == v {
      if u != v { DifferentNodesOnCycle(adj, u, v); }
    }
  }

  /** Different back edges give different lists, in one component or in two. */
  lemma AllListsDiffer(adj: Graph<Node>, cycles: seq<seq<string>>, rec: map<Edge, seq<Node>>, e: Edge, f: Edge)
    requires CyclesJustified(adj, cycles, rec) && UniqueNames(adj)
    requires e in rec && f in rec && Names(rec[e]) == Names(rec[f])
    ensures e == f
  {
    hide CyclesJustified, UniqueNames, NoDuplicates, IsClosedWalk, Names, OnCycle;
    var c, d := rec[e], rec[f];
    ReportedCycle(adj, cycles, rec, e);
    ReportedCycle(adj, cycles, rec, f);
    SameNames(c, d);
    forall i | 0 <= i < |c| ensures c[i] == d[i] { UniqueHere(adj, c[i], d[i]); }
    assert c == d;
  }

  lemma ReportedCycle(adj: Graph<Node>, cycles: seq<seq<string>>, rec: map<Edge, seq<Node>>, e: Edge)
    requires CyclesJustified(adj, cycles, rec) && e in rec
    ensures var c := rec[e];
      |c| >= 2 && c[|c| - 2] == e.0 && c[|c| - 1] == e.1 && forall i | 0 <= i < |c| :: OnCycle(adj, c[i])
  {
    hide NamesSimpleCycle;
    var c := rec[e];
    assert Reported(adj, cycles, e, c);
    forall i | 0 <= i < |c| ensures OnCycle(adj, c[i]) { assert c[i] in c; }
  }

  lemma UniqueHere(adj: Graph<Node>, u: Node, v: Node)
    requires UniqueNames(adj) && OnCycle(adj, u) && OnCycle(adj, v) && u.name == v.name
    ensures u == v
  {
    hide OnCycle;
  }

  /** The documented claim: every component with a cycle gets one list, and no two the same one. */
  ghost predicate OneListEach(adj: Graph<Node>, rec: map<Edge, seq<Node>>) {
    && (forall u | OnCycle(adj, u) :: ExactlyOneList(adj, rec, u))
    && (forall u, v, c | ListFor(adj, rec, u, c) && ListFor(adj, rec, v, c) :: StronglyConnected(adj, u, v))
  }

  /** With unique names different components never share a list. */
  lemma ListTellsComponent(adj: Graph<Node>, cycles: seq<seq<string>>, rec: map<Edge, seq<Node>>, u: Node, v: Node,
                           c: seq<string>)
    requires CyclesJustified(adj, cycles, rec) && UniqueNames(adj) && ListFor(adj, rec, u, c) && ListFor(adj, rec, v, c)
    ensures StronglyConnected(adj, u, v)
  {
    hide CyclesJustified, UniqueNames, Names, Reaches;
    var e :| BackEdgeIn(adj, rec, u, e) && Names(rec[e]) == c;
    var f :| BackEdgeIn(adj, rec, v, f) && Names(rec[f]) == c;
    AllListsDiffer(adj, cycles, rec, e, f);
    ReachesTransitive(adj, u, e.0, v);
    ReachesTransitive(adj, v, e.0, u);
  }

  ghost function Component(adj: Graph<Node>, u: Node): set<Node> {
    set v | v in AllNodes(adj) && StronglyConnected(adj, u, v)
  }

  ghost function CyclicComponents(adj: Graph<Node>): set<set<Node>> {
    set u | u in AllNodes(adj) && OnCycle(adj, u) :: Component(adj, u)
  }

  ghost function ListOf(rec: map<Edge, seq<Node>>, e: Edge): seq<string> { if e in rec then Names(rec[e]) else [] }

  lemma ListImage(adj: Graph<Node>, cycles: seq<seq<string>>, rec: map<Edge, seq<Node>>, tree: set<Edge>)
    requires CyclesJustified(adj, cycles, rec) && BackEdges(cycles, rec, tree)
    ensures ImageOf((e: Edge) => ListOf(rec, e), rec.Keys) == (set c | c in cycles)
  {
    hide CyclesJustified, BackEdges, Names;
    ListedBackEdges(adj, cycles, rec, tree);
    var f := (e: Edge) => ListOf(rec, e);
    forall c | c in cycles ensures c in ImageOf(f, rec.Keys) {
      var e :| e in rec && Names(rec[e]) == c;
      assert f(e) == c;
    }
  }

  /** There are as many lists as back edges. */
  lemma ListCount(adj: Graph<Node>, cycles: seq<seq<string>>, rec: map<Edge, seq<Node>>, tree: set<Edge>)
    requires CyclesJustified(adj, cycles, rec) && BackEdges(cycles, rec, tree) && UniqueNames(adj)
    ensures |cycles| == |rec|
  {
    hide CyclesJustified, BackEdges, Names, UniqueNames, ImageOf;
    var f := (e: Edge) => ListOf(rec, e);
    ListImage(adj, cycles, rec, tree);
    forall x, y | x in rec.Keys && y in rec.Keys && f(x) == f(y) ensures x == y {
      AllListsDiffer(adj, cycles, rec, x, y);
    }
    ImageSize(f, rec.Keys);
    ListedBackEdges(adj, cycles, rec, tree);
    DistinctCount(cycles);
  }

  lemma ListedBackEdges(adj: Graph<Node>, cycles: seq<seq<string>>, rec: map<Edge, seq<Node>>, tree: set<Edge>)
    requires CyclesJustified(adj, cycles, rec) && BackEdges(cycles, rec, tree)
    ensures NoDuplicates(cycles) && (forall e | e in rec :: Names(rec[e]) in cycles)
    ensures forall c | c in cycles :: exists e :: e in rec && Names(rec[e]) == c
  {
    hide NamesSimpleCycle, AlongTree, IsSimpleCycle;
    forall c | c in cycles ensures exists e :: e in rec && Names(rec[e]) == c { assert ListedFrom(rec, c); }
    forall e | e in rec ensures Names(rec[e]) in cycles { assert Reported(adj, cycles, e, rec[e]); }
  }

  lemma {:induction false} DistinctCount<T>(q: seq<T>)
    requires NoDuplicates(q)
    ensures |set x | x in q| == |q|
  {
    if q != [] {
      var front, last := q[..|q| - 1], q[|q| - 1];
      DistinctCount(front);
      assert (set x | x in q) == (set x | x in front) + {last};
    }
  }

  lemma SameComponent(adj: Graph<Node>, u: Node, v: Node)
    requires u in AllNodes(adj) && v in AllNodes(adj)
    ensures Component(adj, u) == Component(adj, v) <==> StronglyConnected(adj, u, v)
  {
    hide Reaches, AllNodes;
    ReachesRefl(adj, u);
    ReachesRefl(adj, v);
    assert u in Component(adj, u) && v in Component(adj, v);
    if StronglyConnected(adj, u, v) {
      forall x | x in AllNodes(adj) ensures x in Component(adj, u) <==> x in Component(adj, v) {
        if StronglyConnected(adj, u, x) { ReachesTransitive(adj, v, u, x); ReachesTransitive(adj, x, u, v); }
        if StronglyConnected(adj, v, x) { ReachesTransitive(adj, u, v, x); ReachesTransitive(adj, x, v, u); }
      }
    }
  }

  /** Back edges reach every component with a cycle and no other. */
  lemma BackEdgesCoverComponents(adj: Graph<Node>, cycles: seq<seq<string>>, fin: map<Node, nat>,
                                 rec: map<Edge, seq<Node>>, tree: set<Edge>)
    requires IsSearch(adj, cycles, fin, rec, tree)
    ensures forall e | e in rec :: e.0 in AllNodes(adj) && OnCycle(adj, e.0)
    ensures ImageOf((e: Edge) => Component(adj, e.0), rec.Keys) == CyclicComponents(adj)
  {
    hide IsSearch, CyclesJustified, Component, OnCycle, StronglyConnected, AllNodes, BackEdgeIn;
    var comp := (e: Edge) => Component(adj, e.0);
    SearchParts(adj, cycles, fin, rec, tree);
    forall e | e in rec ensures e.0 in AllNodes(adj) && OnCycle(adj, e.0) {
      ReportedCycle(adj, cycles, rec, e);
      CycleNodeIsMet(adj, e.0);
    }
    forall u | u in AllNodes(adj) && OnCycle(adj, u) ensures exists e :: e in rec && comp(e) == Component(adj, u) {
      var e := BackEdgeOf(adj, cycles, fin, rec, tree, u);
      BackEdgeConnects(adj, rec, u, e);
      CycleNodeIsMet(adj, e.0);
      SameComponent(adj, u, e.0);
      assert comp(e) == Component(adj, u);
    }
  }

  lemma BackEdgeConnects(adj: Graph<Node>, rec: map<Edge, seq<Node>>, u: Node, e: Edge)
    requires BackEdgeIn(adj, rec, u, e)
    ensures e in rec && StronglyConnected(adj, u, e.0)
  {
    hide StronglyConnected;
  }

  lemma CycleNodeIsMet(adj: Graph<Node>, u: Node)
    requires OnCycle(adj, u)
    ensures u in AllNodes(adj)
  {
    CycleNodeIsKey(adj, u);
  }

  lemma BackEdgeOf(adj: Graph<Node>, cycles: seq<seq<string>>, fin: map<Node, nat>, rec: map<Edge, seq<Node>>,
                   tree: set<Edge>, u: Node) returns (e: Edge)
    requires IsSearch(adj, cycles, fin, rec, tree) && OnCycle(adj, u)
    ensures BackEdgeIn(adj, rec, u, e) && e in rec
  {
    var w :| IsClosedWalk(adj, w) && u in w;
    var k :| 0 <= k < |w| && w[k] == u;
    ClosedWalkConnected(adj, w, k, 0);
    hide IsSearch, StronglyConnected, IsClosedWalk;
    var i := BackEdgeOnWalk(adj, cycles, fin, rec, tree, u, w);
    e := (w[i], w[i + 1]);
  }

  /** With unique names there are as many lists as components with a cycle exactly when the
      documented claim holds of each. */
  lemma ListCountIff(adj: Graph<Node>, cycles: seq<seq<string>>, fin: map<Node, nat>, rec: map<Edge, seq<Node>>,
                     tree: set<Edge>)
    requires IsSearch(adj, cycles, fin, rec, tree) && UniqueNames(adj)
    ensures |CyclicComponents(adj)| <= |cycles|
    ensures |cycles| == |CyclicComponents(adj)| <==> forall u | OnCycle(adj, u) :: OneBackEdge(adj, rec, u)
  {
    hide IsSearch, CyclesJustified, BackEdges, UniqueNames, OnCycle, Component, CyclicComponents, StronglyConnected,
      OneBackEdge;
    var comp := (e: Edge) => Component(adj, e.0);
    SearchParts(adj, cycles, fin, rec, tree);
    ListCount(adj, cycles, rec, tree);
    BackEdgesCoverComponents(adj, cycles, fin, rec, tree);
    ImageSize(comp, rec.Keys);
    if forall u | OnCycle(adj, u) :: OneBackEdge(adj, rec, u) {
      forall e, f | e in rec && f in rec && comp(e) == comp(f) ensures e == f {
        SameComponent(adj, e.0, f.0);
        TheBackEdge(adj, rec, e, f);
      }
    }
    if forall e, f | e in rec.Keys && f in rec.Keys && comp(e) == comp(f) :: e == f {
      forall u | OnCycle(adj, u) ensures OneBackEdge(adj, rec, u) {
        var e := BackEdgeOf(adj, cycles, fin, rec, tree, u);
        forall f | BackEdgeIn(adj, rec, u, f) ensures f == e {
          BackEdgesTogether(adj, rec, u, e, f);
          SameComponent(adj, e.0, f.0);
          assert comp(e) == comp(f);
        }
        OneBackEdgeFrom(adj, rec, u, e);
      }
    }
  }

  /** With unique names the documented claim holds of the whole graph exactly when the condition
      holds at the entry of every component with a cycle; and exactly then there are as
      many lists as such components. */
  lemma DocumentedClaimIff(adj: Graph<Node>, cycles: seq<seq<string>>, fin: map<Node, nat>,
                           rec: map<Edge, seq<Node>>, tree: set<Edge>)
    requires IsSearch(adj, cycles, fin, rec, tree) && UniqueNames(adj)
    ensures OneListEach(adj, rec) <==>
            forall s | OnCycle(adj, s) && Entry(adj, s) :: OnePredecessor(adj, s) && AllCyclesPass(adj, s)
    ensures OneListEach(adj, rec) <==> |cycles| == |CyclicComponents(adj)|
  {
    hide IsSearch, CyclesJustified, UniqueNames, NamesTell, OnCycle, Entry, OnePredecessor, AllCyclesPass,
      ExactlyOneList, OneBackEdge, CyclicComponents, ListFor, StronglyConnected;
    SearchParts(adj, cycles, fin, rec, tree);
    UniqueNamesTell(adj);
    forall u, v, c | ListFor(adj, rec, u, c) && ListFor(adj, rec, v, c) ensures StronglyConnected(adj, u, v) {
      ListTellsComponent(adj, cycles, rec, u, v, c);
    }
    forall s | OnCycle(adj, s) && Entry(adj, s)
      ensures ExactlyOneList(adj, rec, s) <==> OnePredecessor(adj, s) && AllCyclesPass(adj, s)
    {
      OneListIff(adj, cycles, fin, rec, tree, s);
    }
    forall u | OnCycle(adj, u)
      ensures exists s :: OnCycle(adj, s) && Entry(adj, s)
                          && (ExactlyOneList(adj, rec, u) <==> OnePredecessor(adj, s) && AllCyclesPass(adj, s))
      ensures ExactlyOneList(adj, rec, u) <==> OneBackEdge(adj, rec, u)
    {
      var s := OneListInEveryComponent(adj, cycles, fin, rec, tree, u);
      OneListMeansOneBackEdge(adj, cycles, rec, u);
    }
    ListCountIff(adj, cycles, fin, rec, tree);
  }

  lemma OneListMeansOneBackEdge(adj: Graph<Node>, cycles: seq<seq<string>>, rec: map<Edge, seq<Node>>, u: Node)
    requires CyclesJustified(adj, cycles, rec) && NamesTell(adj)
    ensures ExactlyOneList(adj, rec, u) <==> OneBackEdge(adj, rec, u)
  {
    hide CyclesJustified, NamesTell, ExactlyOneList, BackEdgeIn;
    if ExactlyOneList(adj, rec, u) { OneListOneBackEdge(adj, cycles, rec, u); }
    if OneBackEdge(adj, rec, u) {
      var e :| BackEdgeIn(adj, rec, u, e) && forall f | BackEdgeIn(adj, rec, u, f) :: f == e;
      OneBackEdgeOneList(adj, rec, u, e);
    }
  }

  lemma OneBackEdgeFrom(adj: Graph<Node>, rec: map<Edge, seq<Node>>, u: Node, e: Edge)
    requires BackEdgeIn(adj, rec, u, e) && forall f | BackEdgeIn(adj, rec, u, f) :: f == e
    ensures OneBackEdge(adj, rec, u)
  {
    hide BackEdgeIn;
  }

  lemma TheBackEdge(adj: Graph<Node>, rec: map<Edge, seq<Node>>, e: Edge, f: Edge)
    requires e in rec && f in rec && StronglyConnected(adj, e.0, f.0) && OneBackEdge(adj, rec, e.0)
    ensures e == f
  {
    ReachesRefl(adj, e.0);
    hide Reaches;
    assert BackEdgeIn(adj, rec, e.0, e) && BackEdgeIn(adj, rec, e.0, f);
  }

  lemma BackEdgesTogether(adj: Graph<Node>, rec: map<Edge, seq<Node>>, u: Node, e: Edge, f: Edge)
    requires BackEdgeIn(adj, rec, u, e) && BackEdgeIn(adj, rec, u, f)
    ensures e in rec && f in rec && StronglyConnected(adj, e.0, f.0)
  {
    hide Reaches;
    ReachesTransitive(adj, e.0, u, f.0);
    ReachesTransitive(adj, f.0, u, e.0);
  }

  // ---------- where the documented claim fails ----------

  /** A node with an edge to itself is always reported. */
  lemma SelfLoopIsReported(adj: Graph<Node>, cycles: seq<seq<string>>, fin: map<Node, nat>, rec: map<Edge, seq<Node>>,
                           tree: set<Edge>, u: Node)
    requires IsSearch(adj, cycles, fin, rec, tree) && u in Succ(adj, u)
    ensures (u, u) in rec && rec[(u, u)] == [u, u] && Names([u, u]) in cycles
  {
    SearchParts(adj, cycles, fin, rec, tree);
    hide IsSearch, BackEdges, NamesSimpleCycle;
    assert SettledBefore(fin, rec, u, u);
    var c := rec[(u, u)];
    assert Reported(adj, cycles, (u, u), c);
    assert c[..|c| - 1][0] == c[..|c| - 1][|c| - 2];
    assert c == [u, u];
  }

  const A := Node(PYPI, "a")
  const B := Node(PYPI, "b")
  const C := Node(PYPI, "c")
  const D := Node(PYPI, "d")
  const TWO_LOOPS: Graph<Node> := map[A := {A, B}, B := {A, B}]

  lemma EdgeConnects(adj: Graph<Node>, u: Node, v: Node)
    requires v in Succ(adj, u)
    ensures Reaches(adj, u, v)
  {
    ReachesStep(adj, u, v);
  }

  /** Two lists for one component: two nodes with edges to themselves and to each other. */
  lemma TwoListsInOneComponent(cycles: seq<seq<string>>, fin: map<Node, nat>, rec: map<Edge, seq<Node>>,
                               tree: set<Edge>)
    requires IsSearch(TWO_LOOPS, cycles, fin, rec, tree)
    ensures StronglyConnected(TWO_LOOPS, A, B)
    ensures ["a", "a"] in cycles && ListFor(TWO_LOOPS, rec, A, ["a", "a"])
    ensures ["b", "b"] in cycles && ListFor(TWO_LOOPS, rec, A, ["b", "b"])
    ensures !ExactlyOneList(TWO_LOOPS, rec, A)
  {
    hide IsSearch;
    SelfLoopIsReported(TWO_LOOPS, cycles, fin, rec, tree, A);
    SelfLoopIsReported(TWO_LOOPS, cycles, fin, rec, tree, B);
    EdgeConnects(TWO_LOOPS, A, B);
    EdgeConnects(TWO_LOOPS, B, A);
    ReachesRefl(TWO_LOOPS, A);
    assert BackEdgeIn(TWO_LOOPS, rec, A, (A, A)) && Names([A, A]) == ["a", "a"];
    assert BackEdgeIn(TWO_LOOPS, rec, A, (B, B)) && Names([B, B]) == ["b", "b"];
    assert ["a", "a"][0][0] != ["b", "b"][0][0];
  }

  /** One list for two components: lists hold names alone, and a repeated list is not added. */
  const TWO_ECOSYSTEMS: Graph<Node> := map[A := {A}, Node(NPM, "a") := {Node(NPM, "a")}]

  lemma SelfLoopsOnly(w: seq<Node>, i: nat)
    requires IsWalk(TWO_ECOSYSTEMS, w) && i < |w|
    ensures w[i] == w[0]
  {
    if i > 0 {
      SelfLoopsOnly(w, i - 1);
      assert EdgeAt(TWO_ECOSYSTEMS, w, i - 1);
    }
  }

  lemma TwoComponentsApart()
    ensures !StronglyConnected(TWO_ECOSYSTEMS, A, Node(NPM, "a"))
    ensures OnCycle(TWO_ECOSYSTEMS, A) && OnCycle(TWO_ECOSYSTEMS, Node(NPM, "a"))
  {
    var n := Node(NPM, "a");
    assert EdgeAt(TWO_ECOSYSTEMS, [A, A], 0) && EdgeAt(TWO_ECOSYSTEMS, [n, n], 0);
    assert IsClosedWalk(TWO_ECOSYSTEMS, [A, A]) && IsClosedWalk(TWO_ECOSYSTEMS, [n, n]);
    assert A in [A, A] && n in [n, n];
    if w: seq<Node> :| WalkFromTo(TWO_ECOSYSTEMS, A, n, w) { SelfLoopsOnly(w, |w| - 1); }
  }

  lemma OneListForTwoComponents(cycles: seq<seq<string>>, fin: map<Node, nat>, rec: map<Edge, seq<Node>>,
                                tree: set<Edge>)
    requires IsSearch(TWO_ECOSYSTEMS, cycles, fin, rec, tree)
    ensures !StronglyConnected(TWO_ECOSYSTEMS, A, Node(NPM, "a"))
    ensures OnCycle(TWO_ECOSYSTEMS, A) && OnCycle(TWO_ECOSYSTEMS, Node(NPM, "a"))
    ensures cycles == [["a", "a"]]
  {
    hide IsSearch, BackEdges, Reported, BlackEdgesSettled, StronglyConnected, OnCycle, IsWalk;
    TwoComponentsApart();
    SearchParts(TWO_ECOSYSTEMS, cycles, fin, rec, tree);
    SelfLoopIsReported(TWO_ECOSYSTEMS, cycles, fin, rec, tree, A);
    forall i | 0 <= i < |cycles| ensures cycles[i] == ["a", "a"] { SelfLoopNames(cycles[i]); }
    assert Names([A, A]) == ["a", "a"];
    NoDuplicatesBound(cycles, {["a", "a"]});
  }

  lemma SelfLoopNames(c: seq<string>)
    requires NamesSimpleCycle(TWO_ECOSYSTEMS, c)
    ensures c == ["a", "a"]
  {
    var w: seq<Node> :| IsSimpleCycle(TWO_ECOSYSTEMS, w) && Spells(w, c);
    forall i | 0 <= i < |w| ensures w[i] == w[0] { SelfLoopsOnly(w, i); }
    assert |w| > 2 ==> w[..|w| - 1][0] != w[..|w| - 1][1];
    assert |w| == 2;
    assert EdgeAt(TWO_ECOSYSTEMS, w, 0);
    assert w[0].name == "a";
  }

  // ---------- the order of the nodes decides ----------

  /** A ring whose first half splits in two: a -> {b, c} -> d -> a. */
  const SPLIT: Graph<Node> := map[A := {B, C}, B := {D}, C := {D}, D := {A}]

  /** The same ring with other names: d, a, b and c become a, b, c and d. */
  const TURNED: Graph<Node> := map[A := {B}, B := {C, D}, C := {A}, D := {A}]

  function Turn(n: Node): Node {
    if n == A then B else if n == B then C else if n == C then D else if n == D then A else n
  }

  /** `Turn` renames the nodes of `SPLIT` to those of `TURNED`. */
  ghost predicate TurnedIsSplit() {
    && (forall u, v :: Turn(u) == Turn(v) ==> u == v)
    && (forall u, v :: v in Succ(SPLIT, u) <==> Turn(v) in Succ(TURNED, Turn(u)))
  }

  lemma TurnRenames()
    ensures TurnedIsSplit()
  {
    hide Turn, Succ;
    forall u, v ensures v in Succ(SPLIT, u) <==> Turn(v) in Succ(TURNED, Turn(u)) { TurnedEdge(u, v); }
    forall u, v | Turn(u) == Turn(v) ensures u == v { TurnInjective(u, v); }
  }

  lemma FourNodes()
    ensures A != B && A != C && A != D && B != C && B != D && C != D
  {
    assert A.name[0] == 'a' && B.name[0] == 'b' && C.name[0] == 'c' && D.name[0] == 'd';
  }

  lemma TurnedEdge(u: Node, v: Node)
    ensures v in Succ(SPLIT, u) <==> Turn(v) in Succ(TURNED, Turn(u))
  {
  }

  lemma TurnInjective(u: Node, v: Node)
    requires Turn(u) == Turn(v)
    ensures u == v
  {
    FourNodes();
  }

  /** All four nodes lie in one component. */
  ghost predicate OneComponent(adj: Graph<Node>) {
    adj.Keys == {A, B, C, D} && forall u | u in adj :: StronglyConnected(adj, A, u)
  }

  lemma RingsAreComponents()
    ensures OneComponent(SPLIT) && OneComponent(TURNED)
  {
    hide Reaches, IsClosedWalk;
    var w, x, y, z := [A, B, D, A], [A, C, D, A], [A, B, C, A], [A, B, D, A];
    RingWalks();
    ClosedWalkConnected(SPLIT, w, 0, 1);
    ClosedWalkConnected(SPLIT, w, 0, 2);
    ClosedWalkConnected(SPLIT, x, 0, 1);
    ClosedWalkConnected(TURNED, y, 0, 1);
    ClosedWalkConnected(TURNED, y, 0, 2);
    ClosedWalkConnected(TURNED, z, 0, 2);
    ReachesRefl(SPLIT, A);
    ReachesRefl(TURNED, A);
  }

  lemma RingWalks()
    ensures IsClosedWalk(SPLIT, [A, B, D, A]) && IsClosedWalk(SPLIT, [A, C, D, A])
    ensures IsClosedWalk(TURNED, [A, B, C, A]) && IsClosedWalk(TURNED, [A, B, D, A])
  {
    Ring(SPLIT, B, D);
    Ring(SPLIT, C, D);
    Ring(TURNED, B, C);
    Ring(TURNED, B, D);
  }

  lemma Ring(adj: Graph<Node>, x: Node, y: Node)
    requires x in Succ(adj, A) && y in Succ(adj, x) && A in Succ(adj, y)
    ensures IsClosedWalk(adj, [A, x, y, A])
  {
    var w := [A, x, y, A];
    assert EdgeAt(adj, w, 0) && EdgeAt(adj, w, 1) && EdgeAt(adj, w, 2);
  }

  lemma AIsLeast(t: Node)
    requires t in {A, B, C, D}
    ensures !KeyLess(NodeOrder(t), NodeOrder(A))
  {
    StringIrreflexive(PYPI);
    StringIrreflexive("a");
    var k, a := NodeOrder(t), NodeOrder(A);
    assert k[0] == a[0] == PYPI && k[1] == t.name && a[1] == "a";
    assert !StringLess(t.name, "a") by { assert |t.name| == 1 && t.name[0] >= 'a'; }
    assert k[1..][0] == t.name && a[1..][0] == "a" && k[1..][1..] == [] && a[1..][1..] == [];
  }

  lemma AEntersFirst(adj: Graph<Node>)
    requires adj == SPLIT || adj == TURNED
    ensures EntersFirst(adj, A) && KeepsEcosystem(adj)
  {
    hide KeyLess;
    forall t | t in adj ensures !KeyLess(NodeOrder(t), NodeOrder(A)) { AIsLeast(t); }
  }

  lemma SplitCyclesPassA(w: seq<Node>)
    requires IsClosedWalk(SPLIT, w)
    ensures A in w
  {
    assert EdgeAt(SPLIT, w, 0);
    if w[0] != A && w[0] != D {
      assert w[1] == D;
      assert |w| > 2;
      assert EdgeAt(SPLIT, w, 1);
      assert w[2] == A;
    } else if w[0] == D {
      assert w[1] == A;
    }
  }

  /** `SPLIT` and `TURNED` are one graph up to names, and both are one component, but the first gets
      exactly one list and the second does not: the order of the names belongs in the condition. */
  lemma OrderDecides(cycles: seq<seq<string>>, fin: map<Node, nat>, rec: map<Edge, seq<Node>>, tree: set<Edge>,
                     cycles': seq<seq<string>>, fin': map<Node, nat>, rec': map<Edge, seq<Node>>, tree': set<Edge>)
    requires IsSearch(SPLIT, cycles, fin, rec, tree) && IsSearch(TURNED, cycles', fin', rec', tree')
    ensures TurnedIsSplit() && OneComponent(SPLIT) && OneComponent(TURNED)
    ensures ExactlyOneList(SPLIT, rec, A) && !ExactlyOneList(TURNED, rec', A)
  {
    hide IsSearch, EntersFirst, KeepsEcosystem, NamesTell, ExactlyOneList, Reaches, OneComponent, IsClosedWalk,
      OnePredecessor, Turn, TurnedIsSplit, Entry, PossibleEntry;
    TurnRenames();
    RingsAreComponents();
    AEntersFirst(SPLIT);
    AEntersFirst(TURNED);
    EcosystemsTell(SPLIT);
    EcosystemsTell(TURNED);
    RingWalks();
    assert OnCycle(SPLIT, A) && OnCycle(TURNED, A);
    TurnedHasTwoPredecessors();
    SplitHasOnePredecessor();
    forall w | IsClosedWalk(SPLIT, w) ensures A in w { SplitCyclesPassA(w); }
    ClearEntryIsEntry(SPLIT, cycles, fin, rec, tree, A);
    ClearEntryIsEntry(TURNED, cycles', fin', rec', tree', A);
    OneListIff(SPLIT, cycles, fin, rec, tree, A);
    OneListIff(TURNED, cycles', fin', rec', tree', A);
  }

  lemma SplitHasOnePredecessor()
    ensures OnePredecessor(SPLIT, A)
  {
    hide Reaches;
    FourNodes();
  }

  lemma TurnedHasTwoPredecessors()
    ensures !OnePredecessor(TURNED, A)
  {
    hide Reaches, IsClosedWalk;
    RingsAreComponents();
    assert StronglyConnected(TURNED, A, C) && StronglyConnected(TURNED, A, D);
  }
}
