/** Where the cycle search enters a strongly connected component, told from the graph alone. */
module CycleEntries {
  import opened Cycles
  import opened Digraphs
  import opened Models
  import opened Orders

  /** `s` lies on a closed walk, that is, in a component with a cycle. */
  ghost predicate OnCycle(adj: Graph<Node>, s: Node) {
    exists w :: IsClosedWalk(adj, w) && s in w
  }

  lemma SearchParts(adj: Graph<Node>, cycles: seq<seq<string>>, fin: map<Node, nat>, rec: map<Edge, seq<Node>>,
                    tree: set<Edge>)
    requires IsSearch(adj, cycles, fin, rec, tree)
    ensures CyclesJustified(adj, cycles, rec) && BackEdges(cycles, rec, tree) && BlackEdgesSettled(adj, fin, rec)
    ensures forall n | n in adj :: n in fin
  {
    hide CyclesJustified, BackEdges, BlackEdgesSettled, TreeSpans, FinishesLast, AllMeetingsOk;
  }

  // ---------- the entry ----------

  /** A simple walk that ends where it first meets the component of `s`. */
  ghost predicate Enters(adj: Graph<Node>, s: Node, q: seq<Node>) {
    && IsWalk(adj, q) && NoDuplicates(q) && StronglyConnected(adj, s, q[|q| - 1])
    && forall i | 0 <= i < |q| - 1 :: !StronglyConnected(adj, s, q[i])
  }

  /** The walks part at position `k`, where `p` takes the smaller node. */
  ghost predicate Before(p: seq<Node>, q: seq<Node>, k: int) {
    0 <= k < |p| && k < |q| && p[..k] == q[..k] && Smaller(p[k], q[k])
  }

  /** The least node of the dictionary that reaches `s`. */
  ghost predicate LeastReaching(adj: Graph<Node>, r: Node, s: Node) {
    r in adj && Reaches(adj, r, s) && forall t | t in adj && Reaches(adj, t, s) :: !Smaller(t, r)
  }

  /** From the least node that reaches the component, `p` is the first of all simple walks into it,
      in lexicographic order, and ends in `s`. */
  ghost predicate IsFirstWalk(adj: Graph<Node>, s: Node, p: seq<Node>) {
    && Enters(adj, s, p) && p[|p| - 1] == s && LeastReaching(adj, p[0], s)
    && forall q | Enters(adj, s, q) && q[0] == p[0] && q != p :: exists k :: Before(p, q, k)
  }

  /** The component of `s` is entered at `s`. */
  ghost predicate Entry(adj: Graph<Node>, s: Node) {
    exists p :: IsFirstWalk(adj, s, p)
  }

  /** The search can enter the component of `s` at `s`: no smaller node of the dictionary reaches
      `s`, or an edge leads to `s` from outside the component. */
  ghost predicate PossibleEntry(adj: Graph<Node>, s: Node) {
    EntersFirst(adj, s) || exists x :: s in Succ(adj, x) && !StronglyConnected(adj, s, x)
  }

  /** An entry that can be read off the graph: no smaller node reaches `s`, or no other node of the
      component is a possible entry. */
  ghost predicate ClearEntry(adj: Graph<Node>, s: Node) {
    EntersFirst(adj, s) || forall t | StronglyConnected(adj, s, t) && PossibleEntry(adj, t) :: t == s
  }

  lemma {:induction false} GreatestNumber(fin: map<Node, nat>, nodes: set<Node>) returns (s: Node)
    requires nodes != {} && nodes <= fin.Keys
    ensures s in nodes && forall v | v in nodes :: fin[v] <= fin[s]
    decreases |nodes|
  {
    s :| s in nodes;
    if nodes != {s} {
      var t := GreatestNumber(fin, nodes - {s});
      if fin[t] > fin[s] { s := t; }
    }
  }

  lemma CycleNodeHasEdge(adj: Graph<Node>, u: Node) returns (v: Node)
    requires OnCycle(adj, u)
    ensures v in Succ(adj, u)
  {
    var w :| IsClosedWalk(adj, w) && u in w;
    var i :| 0 <= i < |w| && w[i] == u;
    var j := if i < |w| - 1 then i else 0;
    assert EdgeAt(adj, w, j);
    v := w[j + 1];
  }

  lemma CycleNodeIsKey(adj: Graph<Node>, u: Node)
    requires OnCycle(adj, u)
    ensures u in adj
  {
    var v := CycleNodeHasEdge(adj, u);
  }

  lemma DifferentNodesOnCycle(adj: Graph<Node>, u: Node, v: Node)
    requires StronglyConnected(adj, u, v) && u != v
    ensures OnCycle(adj, u) && OnCycle(adj, v)
  {
    var p :| WalkFromTo(adj, u, v, p);
    var q :| WalkFromTo(adj, v, u, q);
    WalkConcat(adj, u, v, u, p, q);
    var w := p + q[1..];
    assert w[|p| - 1] == v && w[0] == u;
    assert |p| >= 2 && IsClosedWalk(adj, w);
  }

  /** The component of a node on a cycle is full of such nodes. */
  lemma ComponentOnCycle(adj: Graph<Node>, u: Node, v: Node)
    requires OnCycle(adj, u) && StronglyConnected(adj, u, v)
    ensures OnCycle(adj, v)
  {
    hide OnCycle, StronglyConnected;
    if u != v { DifferentNodesOnCycle(adj, u, v); }
  }

  /** Every component with a cycle has a node that finishes last in it. */
  lemma HeadExists(adj: Graph<Node>, cycles: seq<seq<string>>, fin: map<Node, nat>, rec: map<Edge, seq<Node>>,
                   tree: set<Edge>, u: Node) returns (s: Node)
    requires IsSearch(adj, cycles, fin, rec, tree) && OnCycle(adj, u)
    ensures StronglyConnected(adj, u, s) && FinishesLast(adj, fin, s) && OnCycle(adj, s)
  {
    hide BlackEdgesSettled, CyclesJustified, BackEdges, TreeSpans, EntersFirst, OnCycle, Reaches;
    CycleNodeIsKey(adj, u);
    ReachesRefl(adj, u);
    var nodes := set v | v in fin && StronglyConnected(adj, u, v);
    assert u in nodes;
    s := GreatestNumber(fin, nodes);
    ComponentOnCycle(adj, u, s);
    forall v | StronglyConnected(adj, s, v) ensures v in fin && fin[v] <= fin[s] {
      ReachesTransitive(adj, u, s, v);
      ReachesTransitive(adj, v, s, u);
      ComponentOnCycle(adj, u, v);
      CycleNodeIsKey(adj, v);
    }
  }

  /** The node that finishes last was entered from outside, or as a start. */
  lemma HeadIsPossibleEntry(adj: Graph<Node>, cycles: seq<seq<string>>, fin: map<Node, nat>, rec: map<Edge, seq<Node>>,
                    tree: set<Edge>, s: Node)
    requires IsSearch(adj, cycles, fin, rec, tree) && FinishesLast(adj, fin, s)
    ensures PossibleEntry(adj, s)
  {
    hide CyclesJustified, EntersFirst, StronglyConnected, AlongTree, ListedFrom;
    if !EntersFirst(adj, s) {
      var p :| (p, s) in tree;
      assert SettledBefore(fin, rec, p, s);
    }
  }

  lemma ClearEntryFinishesLast(adj: Graph<Node>, cycles: seq<seq<string>>, fin: map<Node, nat>,
                               rec: map<Edge, seq<Node>>, tree: set<Edge>, s: Node)
    requires IsSearch(adj, cycles, fin, rec, tree) && OnCycle(adj, s) && ClearEntry(adj, s)
    ensures FinishesLast(adj, fin, s)
  {
    hide BlackEdgesSettled, CyclesJustified, BackEdges, TreeSpans, EntersFirst, FinishesLast, OnCycle, PossibleEntry,
      StronglyConnected;
    if !EntersFirst(adj, s) {
      var h := HeadExists(adj, cycles, fin, rec, tree, s);
      HeadIsPossibleEntry(adj, cycles, fin, rec, tree, h);
    }
  }

  // ---------- the node that finishes last is the entry ----------

  lemma TreeEdgeFalls(adj: Graph<Node>, cycles: seq<seq<string>>, fin: map<Node, nat>, rec: map<Edge, seq<Node>>,
                      tree: set<Edge>, a: Node, b: Node)
    requires IsSearch(adj, cycles, fin, rec, tree) && (a, b) in tree
    ensures a in fin && b in fin && fin[b] < fin[a]
  {
    hide CyclesJustified, EntersFirst, FinishesLast, AlongTree, ListedFrom, AllMeetingsOk, HasParent;
    assert SettledBefore(fin, rec, a, b);
  }

  /** No node on the way to the last finisher lies in its component. */
  lemma WayOutside(adj: Graph<Node>, cycles: seq<seq<string>>, fin: map<Node, nat>, rec: map<Edge, seq<Node>>,
                   tree: set<Edge>, s: Node, p: seq<Node>, i: nat)
    requires IsSearch(adj, cycles, fin, rec, tree) && FinishesLast(adj, fin, s)
    requires PathInTree(p, tree) && i < |p| - 1 && p[|p| - 1] == s
    ensures !StronglyConnected(adj, s, p[i])
  {
    hide IsSearch, StronglyConnected;
    var w := p[i..];
    forall k | 0 <= k < |w| ensures w[k] in fin && (k < |w| - 1 ==> w[k + 1] in fin && fin[w[k + 1]] < fin[w[k]]) {
      var j := if k < |w| - 1 then k + 1 else k;
      assert w[j - 1] == p[i + j - 1] && w[j] == p[i + j];
      TreeEdgeFalls(adj, cycles, fin, rec, tree, w[j - 1], w[j]);
    }
    FinishingOrderFalls(fin, w);
  }

  /** What leads back to the path cannot leave the finished nodes around it. */
  lemma {:induction false} StaysDone(adj: Graph<Node>, done: set<Node>, path: seq<Node>, w: seq<Node>, i: nat)
    requires ClosedBut(adj, done, path) && IsWalk(adj, w) && w[0] in done && i < |w|
    requires forall k | 0 <= k < |w| :: w[k] !in path
    ensures w[i] in done
  {
    if i > 0 {
      StaysDone(adj, done, path, w, i - 1);
      assert EdgeAt(adj, w, i - 1);
    }
  }

  lemma StartIsLeast(adj: Graph<Node>, tree: set<Edge>, met: map<Node, Meeting>, s: Node)
    requires s in met && MeetingOk(adj, tree, met, s) && s in adj
    requires met[s].path[0] in met && MeetingOk(adj, tree, met, met[s].path[0])
    ensures LeastReaching(adj, met[s].path[0], s)
  {
    hide NoDuplicates, PathInTree, Smaller;
    var p := met[s].path;
    var r := p[0];
    WalkReaches(adj, p, 0, |p| - 1);
    if |p| > 1 { assert EdgeAt(adj, p, 0); }
    assert met[r].path == p[..1];
    forall t | t in adj && Reaches(adj, t, s) ensures !Smaller(t, r) {
      if Smaller(t, r) {
        var w :| WalkFromTo(adj, t, s, w);
        assert met[r].path[..0] == [];
        StaysDone(adj, met[r].done, [], w, |w| - 1);
        assert false;
      }
    }
  }

  lemma {:induction false} FirstDifference(p: seq<Node>, q: seq<Node>) returns (k: nat)
    requires p != q
    ensures k <= |p| && k <= |q| && p[..k] == q[..k]
    ensures p < q || q < p || (k < |p| && k < |q| && p[k] != q[k])
  {
    k := 0;
    while k < |p| && k < |q| && p[k] == q[k]
      invariant k <= |p| && k <= |q| && p[..k] == q[..k]
    {
      k := k + 1;
    }
    assert p[..|p|] == p && q[..|q|] == q;
  }

  lemma SmallerTotal(a: Node, b: Node)
    ensures a == b || Smaller(a, b) || Smaller(b, a)
    ensures !(Smaller(a, b) && Smaller(b, a)) && !Smaller(a, a)
  {
    KeyTotal(NodeOrder(a), NodeOrder(b));
    KeyIrreflexive(NodeOrder(a));
    if Smaller(a, b) && Smaller(b, a) { KeyTransitive(NodeOrder(a), NodeOrder(b), NodeOrder(a)); }
    assert NodeOrder(a) == NodeOrder(b) ==> NodeOrder(a)[0] == NodeOrder(b)[0] && NodeOrder(a)[1] == NodeOrder(b)[1];
  }

  /** A walk between two nodes of a component stays in it. */
  lemma WalkInComponent(adj: Graph<Node>, s: Node, t: Node, w: seq<Node>, i: nat)
    requires StronglyConnected(adj, s, t) && WalkFromTo(adj, t, s, w) && i < |w|
    ensures StronglyConnected(adj, s, w[i])
  {
    WalkReaches(adj, w, 0, i);
    WalkReaches(adj, w, i, |w| - 1);
    hide Reaches, IsWalk;
    ReachesTransitive(adj, s, t, w[i]);
  }

  /** The search would have taken the smaller turn: nothing in the component was met before `s`. */
  lemma NoSmallerTurn(adj: Graph<Node>, tree: set<Edge>, met: map<Node, Meeting>, s: Node, q: seq<Node>, k: nat)
    requires s in met && MeetingOk(adj, tree, met, s) && Enters(adj, s, q) && Enters(adj, s, met[s].path)
    requires 1 <= k < |met[s].path| && k < |q| && met[s].path[..k] == q[..k]
    requires met[s].path[k] in met && MeetingOk(adj, tree, met, met[s].path[k])
    ensures !Smaller(q[k], met[s].path[k])
  {
    hide StronglyConnected, PathInTree, Smaller;
    var p := met[s].path;
    var a, b := p[k], q[k];
    var done := met[a].done;
    assert met[a].path == p[..k + 1] && p[..k + 1][..k] == p[..k] && s !in done;
    if Smaller(b, a) {
      assert EdgeAt(adj, q, k - 1) && q[k - 1] == q[..k][k - 1] == p[k - 1];
      assert forall i | 0 <= i < k :: q[..k][i] == q[i] != q[k];
      assert b in done;
      DoneReaches(adj, done, p, q, k);
      var t := q[|q| - 1];
      DoneFillsComponent(adj, done, p, k, s, t);
      assert false;
    }
  }

  lemma DoneReaches(adj: Graph<Node>, done: set<Node>, p: seq<Node>, q: seq<Node>, k: nat)
    requires k < |p| && k < |q| && ClosedBut(adj, done, p[..k]) && p[..k] == q[..k] && q[k] in done
    requires IsWalk(adj, q) && NoDuplicates(q)
    ensures q[|q| - 1] in done
  {
    hide ClosedBut;
    SubWalk(adj, q, k, |q|);
    var w := q[k..|q|];
    forall i | 0 <= i < |w| ensures w[i] !in p[..k] {
      assert w[i] == q[k + i] && forall j | 0 <= j < k :: q[..k][j] == q[j] != q[k + i];
    }
    StaysDone(adj, done, p[..k], w, |w| - 1);
  }

  lemma DoneFillsComponent(adj: Graph<Node>, done: set<Node>, p: seq<Node>, k: nat, s: Node, t: Node)
    requires k < |p| && ClosedBut(adj, done, p[..k]) && t in done && StronglyConnected(adj, s, t)
    requires forall i | 0 <= i < |p| - 1 :: !StronglyConnected(adj, s, p[i])
    ensures s in done
  {
    var w :| WalkFromTo(adj, t, s, w);
    hide ClosedBut, Reaches, IsWalk;
    forall i | 0 <= i < |w| ensures w[i] !in p[..k] {
      WalkInComponent(adj, s, t, w, i);
      assert forall j | 0 <= j < k :: p[..k][j] == p[j] != w[i];
    }
    StaysDone(adj, done, p[..k], w, |w| - 1);
  }

  lemma PathIsFirst(adj: Graph<Node>, tree: set<Edge>, met: map<Node, Meeting>, s: Node, q: seq<Node>)
    requires s in met && MeetingOk(adj, tree, met, s) && Enters(adj, s, met[s].path)
    requires forall i | 0 <= i < |met[s].path| ::
      met[s].path[i] in met && MeetingOk(adj, tree, met, met[s].path[i])
    requires Enters(adj, s, q) && q[0] == met[s].path[0] && q != met[s].path
    ensures exists k :: Before(met[s].path, q, k)
  {
    hide StronglyConnected, PathInTree, Smaller, ClosedBut, InTurn;
    var p := met[s].path;
    var k := FirstDifference(p, q);
    NoProperPrefix(adj, s, p, q);
    NoProperPrefix(adj, s, q, p);
    assert k >= 1;
    NoSmallerTurn(adj, tree, met, s, q, k);
    SmallerTotal(p[k], q[k]);
    assert Before(p, q, k);
  }

  lemma NoProperPrefix(adj: Graph<Node>, s: Node, p: seq<Node>, q: seq<Node>)
    requires Enters(adj, s, p) && Enters(adj, s, q)
    ensures !(p < q)
  {
    hide StronglyConnected, NoDuplicates;
    if |p| < |q| { assert !StronglyConnected(adj, s, q[|p| - 1]); }
  }

  lemma SelfConnected(adj: Graph<Node>, s: Node)
    ensures StronglyConnected(adj, s, s)
  {
    ReachesRefl(adj, s);
  }

  lemma LastFinisherIsEntry(adj: Graph<Node>, cycles: seq<seq<string>>, fin: map<Node, nat>,
                            rec: map<Edge, seq<Node>>, tree: set<Edge>, s: Node)
    requires IsSearch(adj, cycles, fin, rec, tree) && FinishesLast(adj, fin, s) && s in adj
    ensures Entry(adj, s)
  {
    hide IsSearch, StronglyConnected, Entry, MeetingOk, PathInTree, NoDuplicates, IsWalk;
    var met := Meetings(adj, cycles, fin, rec, tree);
    var p := met[s].path;
    MeetingParts(adj, tree, met, s);
    forall i | 0 <= i < |p| - 1 ensures !StronglyConnected(adj, s, p[i]) {
      WayOutside(adj, cycles, fin, rec, tree, s, p, i);
    }
    MeetingIsFirst(adj, tree, met, s);
  }

  lemma MeetingIsFirst(adj: Graph<Node>, tree: set<Edge>, met: map<Node, Meeting>, s: Node)
    requires s in met && s in adj && forall n | n in met :: MeetingOk(adj, tree, met, n)
    requires var p := met[s].path; forall i | 0 <= i < |p| - 1 :: !StronglyConnected(adj, s, p[i])
    ensures Entry(adj, s)
  {
    hide StronglyConnected, LeastReaching, Before, MeetingOk, PathInTree, NoDuplicates, EdgeAt;
    var p := met[s].path;
    MeetingParts(adj, tree, met, s);
    SelfConnected(adj, s);
    assert Enters(adj, s, p);
    StartIsLeast(adj, tree, met, s);
    forall q | Enters(adj, s, q) && q[0] == p[0] && q != p ensures exists k :: Before(p, q, k) {
      PathIsFirst(adj, tree, met, s, q);
    }
    assert IsFirstWalk(adj, s, p);
  }

  lemma Meetings(adj: Graph<Node>, cycles: seq<seq<string>>, fin: map<Node, nat>, rec: map<Edge, seq<Node>>,
                 tree: set<Edge>) returns (met: map<Node, Meeting>)
    requires IsSearch(adj, cycles, fin, rec, tree)
    ensures forall n | n in met :: MeetingOk(adj, tree, met, n)
    ensures forall n | n in fin :: n in met
  {
    hide BlackEdgesSettled, CyclesJustified, BackEdges, TreeSpans, EntersFirst, FinishesLast, MeetingOk;
    met :| AllMeetingsOk(adj, fin, tree, met);
  }

  lemma MeetingParts(adj: Graph<Node>, tree: set<Edge>, met: map<Node, Meeting>, s: Node)
    requires s in met && MeetingOk(adj, tree, met, s)
    ensures var p := met[s].path;
      && IsWalk(adj, p) && NoDuplicates(p) && p[|p| - 1] == s && PathInTree(p, tree)
      && forall i | 0 <= i < |p| :: p[i] in met
  {
    hide ClosedBut, InTurn;
  }

  // ---------- a component has one entry ----------

  lemma BeforeIsStrict(p: seq<Node>, q: seq<Node>, k: int, j: int)
    requires Before(p, q, k)
    ensures !Before(q, p, j)
  {
    hide Smaller;
    SmallerTotal(p[k], q[k]);
    if 0 <= j < |q| && j < |p| {
      SmallerTotal(p[j], q[j]);
      if k < j { PrefixesDiffer(p, q, k, j); }
      if j < k { assert p[..k][j] == p[j] && q[..k][j] == q[j]; }
    }
  }

  lemma PrefixesDiffer(p: seq<Node>, q: seq<Node>, k: nat, j: nat)
    requires k < j <= |p| && j <= |q| && p[k] != q[k]
    ensures p[..j] != q[..j]
  {
    assert p[..j][k] == p[k] && q[..j][k] == q[k];
  }

  lemma EntersComponent(adj: Graph<Node>, s: Node, t: Node, q: seq<Node>)
    requires StronglyConnected(adj, s, t) && Enters(adj, s, q)
    ensures Enters(adj, t, q)
  {
    hide Reaches, NoDuplicates;
    ReachesTransitive(adj, t, s, q[|q| - 1]);
    ReachesTransitive(adj, q[|q| - 1], s, t);
    forall i | 0 <= i < |q| - 1 ensures !StronglyConnected(adj, t, q[i]) {
      if StronglyConnected(adj, t, q[i]) {
        ReachesTransitive(adj, s, t, q[i]);
        ReachesTransitive(adj, q[i], t, s);
      }
    }
  }

  lemma LeastIsOne(adj: Graph<Node>, s: Node, t: Node, r: Node, r': Node)
    requires StronglyConnected(adj, s, t) && LeastReaching(adj, r, s) && LeastReaching(adj, r', t)
    ensures r == r'
  {
    hide Reaches, Smaller;
    ReachesTransitive(adj, r, s, t);
    ReachesTransitive(adj, r', t, s);
    SmallerTotal(r, r');
  }

  lemma EntryIsOne(adj: Graph<Node>, s: Node, t: Node)
    requires Entry(adj, s) && Entry(adj, t) && StronglyConnected(adj, s, t)
    ensures s == t
  {
    var p :| IsFirstWalk(adj, s, p);
    var q :| IsFirstWalk(adj, t, q);
    hide StronglyConnected, LeastReaching, Before, Enters;
    StronglyConnectedSymmetric(adj, s, t);
    LeastIsOne(adj, s, t, p[0], q[0]);
    EntersComponent(adj, s, t, p);
    EntersComponent(adj, t, s, q);
    if p != q {
      var k :| Before(p, q, k);
      var j :| Before(q, p, j);
      BeforeIsStrict(p, q, k, j);
      assert false;
    }
  }

  lemma StronglyConnectedSymmetric(adj: Graph<Node>, s: Node, t: Node)
    requires StronglyConnected(adj, s, t)
    ensures StronglyConnected(adj, t, s)
  {
    hide Reaches;
  }

  /** In a component with a cycle the node that finishes last is the entry. */
  lemma EntryIff(adj: Graph<Node>, cycles: seq<seq<string>>, fin: map<Node, nat>, rec: map<Edge, seq<Node>>,
                 tree: set<Edge>, s: Node)
    requires IsSearch(adj, cycles, fin, rec, tree) && OnCycle(adj, s)
    ensures FinishesLast(adj, fin, s) <==> Entry(adj, s)
  {
    hide IsSearch, OnCycle, FinishesLast, Entry, StronglyConnected;
    if FinishesLast(adj, fin, s) {
      CycleNodeIsKey(adj, s);
      LastFinisherIsEntry(adj, cycles, fin, rec, tree, s);
    }
    if Entry(adj, s) {
      var h := HeadExists(adj, cycles, fin, rec, tree, s);
      CycleNodeIsKey(adj, h);
      LastFinisherIsEntry(adj, cycles, fin, rec, tree, h);
      EntryIsOne(adj, s, h);
    }
  }

  lemma ClearEntryIsEntry(adj: Graph<Node>, cycles: seq<seq<string>>, fin: map<Node, nat>, rec: map<Edge, seq<Node>>,
                          tree: set<Edge>, s: Node)
    requires IsSearch(adj, cycles, fin, rec, tree) && OnCycle(adj, s) && ClearEntry(adj, s)
    ensures Entry(adj, s)
  {
    hide *;
    ClearEntryFinishesLast(adj, cycles, fin, rec, tree, s);
    EntryIff(adj, cycles, fin, rec, tree, s);
  }

  /** Every component with a cycle has its one entry. */
  lemma EntryExists(adj: Graph<Node>, cycles: seq<seq<string>>, fin: map<Node, nat>, rec: map<Edge, seq<Node>>,
                    tree: set<Edge>, u: Node) returns (s: Node)
    requires IsSearch(adj, cycles, fin, rec, tree) && OnCycle(adj, u)
    ensures StronglyConnected(adj, u, s) && Entry(adj, s) && OnCycle(adj, s)
    ensures forall t | StronglyConnected(adj, u, t) && Entry(adj, t) :: t == s
  {
    hide IsSearch, OnCycle, FinishesLast, Entry, Reaches;
    s := HeadExists(adj, cycles, fin, rec, tree, u);
    EntryIff(adj, cycles, fin, rec, tree, s);
    forall t | StronglyConnected(adj, u, t) && Entry(adj, t) ensures t == s {
      ReachesTransitive(adj, t, u, s);
      ReachesTransitive(adj, s, u, t);
      EntryIsOne(adj, t, s);
    }
  }
}
