/** The iterative three-colour depth-first search that reports dependency cycles. */
module Cycles {
  import opened Digraphs
  import opened Models
  import opened Orders

  datatype Color = White | Grey | Black

  /** `color.get(n, WHITE)` */
  function ColorOf(color: map<Node, Color>, n: Node): Color {
    if n in color then color[n] else White
  }

  /** `sorted(adj.get(node, ()))` */
  function Neighbors(adj: Graph<Node>, u: Node): (q: seq<Node>)
    ensures forall x :: x in q <==> x in Succ(adj, u)
  {
    SortNodes(Succ(adj, u))
  }

  /** `c` holds the names of `w`, position by position. */
  ghost predicate Spells(w: seq<Node>, c: seq<string>) {
    |c| == |w| && forall i | 0 <= i < |w| :: c[i] == w[i].name
  }

  /** `[n[1] for n in q]` */
  function Names(q: seq<Node>): (c: seq<string>)
    ensures Spells(q, c)
  {
    seq(|q|, i requires 0 <= i < |q| => q[i].name)
  }

  /** Every node that a search can meet. */
  function AllNodes(adj: Graph<Node>): set<Node> {
    adj.Keys + set u, v | u in adj && v in adj[u] :: v
  }

  type Stack = seq<(Node, int)>
  type Edge = (Node, Node)

  ghost predicate StackMatchesPath(adj: Graph<Node>, stack: Stack, path: seq<Node>) {
    && |stack| == |path|
    && forall i | 0 <= i < |path| :: stack[i].0 == path[i] && 0 <= stack[i].1 <= |Neighbors(adj, path[i])|
  }

  /** Each path entry is the neighbour its predecessor last looked at. */
  ghost predicate Linked(adj: Graph<Node>, stack: Stack, path: seq<Node>, i: int) {
    0 < i < |path| && i <= |stack| && 0 < stack[i - 1].1 <= |Neighbors(adj, path[i - 1])|
    && path[i] == Neighbors(adj, path[i - 1])[stack[i - 1].1 - 1]
  }

  /** The explored edge `u -> v` ended in a finished node or closed a reported cycle. */
  ghost predicate Settled(fin: map<Node, nat>, rec: map<Edge, seq<Node>>, u: Node, v: Node) {
    v in fin || (u, v) in rec
  }

  /** The same for a finished `u`: `v` finished earlier. */
  ghost predicate SettledBefore(fin: map<Node, nat>, rec: map<Edge, seq<Node>>, u: Node, v: Node)
    requires u in fin
  {
    (v in fin && fin[v] < fin[u]) || (u, v) in rec
  }

  /** `c` is a simple cycle through the edge `e`, which it takes last, and is reported. */
  ghost predicate Reported(adj: Graph<Node>, cycles: seq<seq<string>>, e: (Node, Node), c: seq<Node>) {
    && IsSimpleCycle(adj, c) && c[|c| - 2] == e.0 && c[|c| - 1] == e.1
    && Names(c) in cycles
  }

  ghost predicate PathIsGrey(color: map<Node, Color>, path: seq<Node>) {
    && NoDuplicates(path)
    && forall n :: n in path <==> ColorOf(color, n) == Grey
  }

  ghost predicate FinishedAreBlack(color: map<Node, Color>, fin: map<Node, nat>) {
    && (forall n :: n in fin <==> ColorOf(color, n) == Black)
    && forall n | n in fin :: fin[n] < |fin|
  }

  ghost predicate BlackEdgesSettled(adj: Graph<Node>, fin: map<Node, nat>, rec: map<Edge, seq<Node>>) {
    forall u, v | u in fin && v in Succ(adj, u) :: SettledBefore(fin, rec, u, v)
  }

  /** The edges a path node has looked at are settled, except the one to the next path node. */
  ghost predicate GreyEdgesSettled(adj: Graph<Node>, stack: Stack, path: seq<Node>, fin: map<Node, nat>,
                                   rec: map<Edge, seq<Node>>, i: int)
    requires 0 <= i < |path| && i < |stack| && stack[i].1 <= |Neighbors(adj, path[i])|
  {
    forall k | 0 <= k < stack[i].1 - (if i < |path| - 1 then 1 else 0) ::
      Settled(fin, rec, path[i], Neighbors(adj, path[i])[k])
  }

  ghost predicate NamesSimpleCycle(adj: Graph<Node>, c: seq<string>) {
    exists w :: IsSimpleCycle(adj, w) && Spells(w, c)
  }

  ghost predicate CyclesJustified(adj: Graph<Node>, cycles: seq<seq<string>>, rec: map<Edge, seq<Node>>) {
    && NoDuplicates(cycles)
    && (forall e | e in rec :: Reported(adj, cycles, e, rec[e]))
    && (forall c | c in cycles :: NamesSimpleCycle(adj, c))
  }

  ghost predicate StackState(adj: Graph<Node>, stack: Stack, path: seq<Node>, fin: map<Node, nat>,
                             rec: map<Edge, seq<Node>>)
  {
    && StackMatchesPath(adj, stack, path)
    && (forall i | 0 < i < |path| :: Linked(adj, stack, path, i))
    && (forall i | 0 <= i < |path| :: GreyEdgesSettled(adj, stack, path, fin, rec, i))
  }

  ghost predicate ColorState(color: map<Node, Color>, path: seq<Node>, fin: map<Node, nat>) {
    && PathIsGrey(color, path) && FinishedAreBlack(color, fin)
    && forall n | n in color :: color[n] != White
  }

  /** What holds at every step of the search.  `fin` numbers the black nodes in
      finishing order; `rec` keeps the node cycle each back edge reported. */
  ghost predicate DfsState(adj: Graph<Node>, color: map<Node, Color>, stack: Stack, path: seq<Node>,
                           cycles: seq<seq<string>>, fin: map<Node, nat>, rec: map<Edge, seq<Node>>)
  {
    && StackState(adj, stack, path, fin, rec)
    && ColorState(color, path, fin)
    && BlackEdgesSettled(adj, fin, rec)
    && CyclesJustified(adj, cycles, rec)
  }

  lemma PathIsWalk(adj: Graph<Node>, color: map<Node, Color>, stack: Stack, path: seq<Node>,
                   cycles: seq<seq<string>>, fin: map<Node, nat>, rec: map<Edge, seq<Node>>)
    requires DfsState(adj, color, stack, path, cycles, fin, rec) && path != []
    ensures IsWalk(adj, path)
  {
    forall i | 0 <= i < |path| - 1 ensures EdgeAt(adj, path, i) {
      assert Linked(adj, stack, path, i + 1);
      assert path[i + 1] in Neighbors(adj, path[i]);
    }
  }

  /** A white root starts the search with itself on the stack. */
  lemma BeginStep(adj: Graph<Node>, color: map<Node, Color>, start: Node,
                  cycles: seq<seq<string>>, fin: map<Node, nat>, rec: map<Edge, seq<Node>>)
    requires DfsState(adj, color, [], [], cycles, fin, rec) && ColorOf(color, start) == White
    ensures DfsState(adj, color[start := Grey], [(start, 0)], [start], cycles, fin, rec)
  {
    hide BlackEdgesSettled, CyclesJustified;
    var color' := color[start := Grey];
    assert PathIsGrey(color', [start]) by {
      forall n ensures n in [start] <==> ColorOf(color', n) == Grey {
        assert n !in [];
        assert ColorOf(color, n) != Grey;
      }
    }
    assert FinishedAreBlack(color', fin) by {
      forall n ensures n in fin <==> ColorOf(color', n) == Black {
        assert n in fin <==> ColorOf(color, n) == Black;
      }
    }
  }

  /** A settled neighbour is passed over. */
  lemma SkipStack(adj: Graph<Node>, stack: Stack, path: seq<Node>, fin: map<Node, nat>,
                  rec: map<Edge, seq<Node>>, node: Node, idx: int)
    requires StackState(adj, stack, path, fin, rec) && stack != []
    requires stack[|stack| - 1] == (node, idx) && 0 <= idx < |Neighbors(adj, node)|
    requires Settled(fin, rec, node, Neighbors(adj, node)[idx])
    ensures StackState(adj, stack[|stack| - 1 := (node, idx + 1)], path, fin, rec)
  {
    hide Neighbors, Settled;
    var stack' := stack[|stack| - 1 := (node, idx + 1)];
    forall i | 0 < i < |path| ensures Linked(adj, stack', path, i) {
      assert Linked(adj, stack, path, i);
    }
    forall i | 0 <= i < |path| ensures GreyEdgesSettled(adj, stack', path, fin, rec, i) {
      assert GreyEdgesSettled(adj, stack, path, fin, rec, i);
    }
  }

  lemma SkipStep(adj: Graph<Node>, color: map<Node, Color>, stack: Stack, path: seq<Node>,
                 cycles: seq<seq<string>>, fin: map<Node, nat>, rec: map<Edge, seq<Node>>,
                 node: Node, idx: int)
    requires DfsState(adj, color, stack, path, cycles, fin, rec) && stack != []
    requires stack[|stack| - 1] == (node, idx) && 0 <= idx < |Neighbors(adj, node)|
    requires Settled(fin, rec, node, Neighbors(adj, node)[idx])
    ensures DfsState(adj, color, stack[|stack| - 1 := (node, idx + 1)], path, cycles, fin, rec)
  {
    hide StackState, ColorState, BlackEdgesSettled, CyclesJustified;
    SkipStack(adj, stack, path, fin, rec, node, idx);
  }

  /** `cycles` after a cycle was seen: a repeated name list is not added again. */
  function Report(cycles: seq<seq<string>>, c: seq<string>): (r: seq<seq<string>>)
    ensures c in r && forall x | x in cycles :: x in r
  {
    if c in cycles then cycles else cycles + [c]
  }

  lemma BackEdgeCycle(adj: Graph<Node>, path: seq<Node>, s: nat, nxt: Node)
    requires IsWalk(adj, path) && NoDuplicates(path) && s < |path| && path[s] == nxt
    requires nxt in Succ(adj, path[|path| - 1])
    ensures IsSimpleCycle(adj, path[s..] + [nxt])
  {
    SubWalk(adj, path, s, |path|);
    assert path[s..|path|] == path[s..];
    WalkSnoc(adj, path[s..], nxt);
    var c := path[s..] + [nxt];
    assert c[..|c| - 1] == path[s..];
  }

  lemma ReportJustified(adj: Graph<Node>, cycles: seq<seq<string>>, rec: map<Edge, seq<Node>>,
                        e: (Node, Node), c: seq<Node>)
    requires CyclesJustified(adj, cycles, rec)
    requires IsSimpleCycle(adj, c) && c[|c| - 2] == e.0 && c[|c| - 1] == e.1
    ensures CyclesJustified(adj, Report(cycles, Names(c)), rec[e := c])
  {
    hide IsSimpleCycle;
    var rec', cycles' := rec[e := c], Report(cycles, Names(c));
    forall f | f in rec' ensures Reported(adj, cycles', f, rec'[f]) {
      if f != e { assert Reported(adj, cycles, f, rec[f]); }
    }
    forall x | x in cycles' ensures NamesSimpleCycle(adj, x) {
      if x !in cycles { assert x == Names(c); }
    }
  }

  lemma RecordKeepsStack(adj: Graph<Node>, stack: Stack, path: seq<Node>, fin: map<Node, nat>,
                         rec: map<Edge, seq<Node>>, e: (Node, Node), c: seq<Node>)
    requires StackState(adj, stack, path, fin, rec) && BlackEdgesSettled(adj, fin, rec)
    ensures StackState(adj, stack, path, fin, rec[e := c]) && BlackEdgesSettled(adj, fin, rec[e := c])
  {
    hide Neighbors, Linked;
    var rec' := rec[e := c];
    forall i | 0 <= i < |path| ensures GreyEdgesSettled(adj, stack, path, fin, rec', i) {
      assert GreyEdgesSettled(adj, stack, path, fin, rec, i);
    }
    forall u, v | u in fin && v in Succ(adj, u) ensures SettledBefore(fin, rec', u, v) {
      assert SettledBefore(fin, rec, u, v);
    }
  }

  /** A grey neighbour closes a cycle with the tail of the path. */
  lemma BackEdgeStep(adj: Graph<Node>, color: map<Node, Color>, stack: Stack, path: seq<Node>,
                     cycles: seq<seq<string>>, fin: map<Node, nat>, rec: map<Edge, seq<Node>>,
                     node: Node, idx: int, s: nat)
    requires DfsState(adj, color, stack, path, cycles, fin, rec) && stack != []
    requires stack[|stack| - 1] == (node, idx) && 0 <= idx < |Neighbors(adj, node)|
    requires s < |path| && path[s] == Neighbors(adj, node)[idx] && path[|path| - 1] == node
    ensures var nxt := path[s]; var c := path[s..] + [nxt];
            DfsState(adj, color, stack[|stack| - 1 := (node, idx + 1)], path,
                     Report(cycles, Names(c)), fin, rec[(node, nxt) := c])
  {
    hide StackState, BlackEdgesSettled, CyclesJustified, PathIsGrey, FinishedAreBlack, Neighbors;
    var nxt := path[s];
    var c := path[s..] + [nxt];
    assert IsSimpleCycle(adj, c) by {
      PathIsWalk(adj, color, stack, path, cycles, fin, rec);
      assert nxt in Neighbors(adj, node);
      BackEdgeStepPath(color, path, fin);
      BackEdgeCycle(adj, path, s, nxt);
    }
    hide IsSimpleCycle, ColorState;
    ReportJustified(adj, cycles, rec, (node, nxt), c);
    RecordKeepsStack(adj, stack, path, fin, rec, (node, nxt), c);
    SkipStack(adj, stack, path, fin, rec[(node, nxt) := c], node, idx);
  }

  lemma BackEdgeStepPath(color: map<Node, Color>, path: seq<Node>, fin: map<Node, nat>)
    requires ColorState(color, path, fin)
    ensures NoDuplicates(path)
  {
  }

  lemma PushColors(color: map<Node, Color>, path: seq<Node>, fin: map<Node, nat>, nxt: Node)
    requires ColorState(color, path, fin) && ColorOf(color, nxt) == White
    ensures ColorState(color[nxt := Grey], path + [nxt], fin)
  {
    var color' := color[nxt := Grey];
    assert nxt !in path;
    forall n ensures n in path + [nxt] <==> ColorOf(color', n) == Grey {
      assert n in path <==> ColorOf(color, n) == Grey;
    }
    forall n ensures n in fin <==> ColorOf(color', n) == Black {
      assert n in fin <==> ColorOf(color, n) == Black;
    }
  }

  lemma PushStack(adj: Graph<Node>, stack: Stack, path: seq<Node>, fin: map<Node, nat>,
                  rec: map<Edge, seq<Node>>, node: Node, idx: int)
    requires StackState(adj, stack, path, fin, rec) && stack != []
    requires stack[|stack| - 1] == (node, idx) && 0 <= idx < |Neighbors(adj, node)|
    ensures var nxt := Neighbors(adj, node)[idx];
            StackState(adj, stack[|stack| - 1 := (node, idx + 1)] + [(nxt, 0)], path + [nxt], fin, rec)
  {
    hide Neighbors, Settled;
    var nxt := Neighbors(adj, node)[idx];
    var stack' := stack[|stack| - 1 := (node, idx + 1)] + [(nxt, 0)];
    var path' := path + [nxt];
    forall i | 0 < i < |path'| ensures Linked(adj, stack', path', i) {
      if i < |path| { assert Linked(adj, stack, path, i); }
    }
    forall i | 0 <= i < |path'| ensures GreyEdgesSettled(adj, stack', path', fin, rec, i) {
      if i < |path| { assert GreyEdgesSettled(adj, stack, path, fin, rec, i); }
    }
  }

  /** A white neighbour turns grey and goes on top. */
  lemma PushStep(adj: Graph<Node>, color: map<Node, Color>, stack: Stack, path: seq<Node>,
                 cycles: seq<seq<string>>, fin: map<Node, nat>, rec: map<Edge, seq<Node>>,
                 node: Node, idx: int)
    requires DfsState(adj, color, stack, path, cycles, fin, rec) && stack != []
    requires stack[|stack| - 1] == (node, idx) && 0 <= idx < |Neighbors(adj, node)|
    requires ColorOf(color, Neighbors(adj, node)[idx]) == White
    ensures var nxt := Neighbors(adj, node)[idx];
            DfsState(adj, color[nxt := Grey], stack[|stack| - 1 := (node, idx + 1)] + [(nxt, 0)], path + [nxt],
                     cycles, fin, rec)
  {
    hide StackState, ColorState, BlackEdgesSettled, CyclesJustified, Neighbors;
    PushColors(color, path, fin, Neighbors(adj, node)[idx]);
    PushStack(adj, stack, path, fin, rec, node, idx);
  }

  lemma FinishColors(color: map<Node, Color>, path: seq<Node>, fin: map<Node, nat>)
    requires ColorState(color, path, fin) && path != []
    ensures path[|path| - 1] !in fin
    ensures ColorState(color[path[|path| - 1] := Black], path[..|path| - 1], fin[path[|path| - 1] := |fin|])
  {
    var node := path[|path| - 1];
    var path' := path[..|path| - 1];
    var color', fin' := color[node := Black], fin[node := |fin|];
    assert path == path' + [node];
    assert ColorOf(color, node) == Grey by { assert node in path; }
    assert |fin'| == |fin| + 1;
    forall n ensures n in path' <==> ColorOf(color', n) == Grey {
      assert n in path <==> ColorOf(color, n) == Grey;
    }
    forall n ensures n in fin' <==> ColorOf(color', n) == Black {
      assert n in fin <==> ColorOf(color, n) == Black;
    }
  }

  lemma FinishStack(adj: Graph<Node>, stack: Stack, path: seq<Node>, fin: map<Node, nat>,
                    rec: map<Edge, seq<Node>>, node: Node, stamp: nat)
    requires StackState(adj, stack, path, fin, rec) && stack != [] && stack[|stack| - 1].0 == node
    ensures StackState(adj, stack[..|stack| - 1], path[..|path| - 1], fin[node := stamp], rec)
  {
    hide Neighbors;
    var path', stack', fin' := path[..|path| - 1], stack[..|stack| - 1], fin[node := stamp];
    forall i | 0 < i < |path'| ensures Linked(adj, stack', path', i) {
      assert Linked(adj, stack, path, i);
    }
    forall i | 0 <= i < |path'| ensures GreyEdgesSettled(adj, stack', path', fin', rec, i) {
      assert GreyEdgesSettled(adj, stack, path, fin, rec, i);
      assert Linked(adj, stack, path, i + 1);
    }
  }

  lemma FinishSettles(adj: Graph<Node>, stack: Stack, path: seq<Node>, fin: map<Node, nat>,
                      rec: map<Edge, seq<Node>>, node: Node)
    requires StackState(adj, stack, path, fin, rec) && BlackEdgesSettled(adj, fin, rec)
    requires forall n | n in fin :: fin[n] < |fin|
    requires stack != [] && stack[|stack| - 1] == (node, |Neighbors(adj, node)|) && node !in fin
    ensures BlackEdgesSettled(adj, fin[node := |fin|], rec)
  {
    hide Linked, Neighbors;
    var fin' := fin[node := |fin|];
    assert GreyEdgesSettled(adj, stack, path, fin, rec, |path| - 1);
    forall u, v | u in fin' && v in Succ(adj, u) ensures SettledBefore(fin', rec, u, v) {
      if u != node {
        assert SettledBefore(fin, rec, u, v);
      } else {
        assert v in Neighbors(adj, node);
        assert Settled(fin, rec, node, v);
      }
    }
  }

  /** A node whose neighbours are all explored turns black and leaves the path. */
  lemma FinishStep(adj: Graph<Node>, color: map<Node, Color>, stack: Stack, path: seq<Node>,
                   cycles: seq<seq<string>>, fin: map<Node, nat>, rec: map<Edge, seq<Node>>, node: Node)
    requires DfsState(adj, color, stack, path, cycles, fin, rec) && stack != []
    requires stack[|stack| - 1] == (node, |Neighbors(adj, node)|)
    ensures DfsState(adj, color[node := Black], stack[..|stack| - 1], path[..|path| - 1], cycles, fin[node := |fin|],
                     rec)
  {
    hide BlackEdgesSettled, CyclesJustified, Neighbors, GreyEdgesSettled, Linked, PathIsGrey;
    assert path[|path| - 1] == node;
    assert FinishedAreBlack(color, fin);
    hide StackState, ColorState, FinishedAreBlack;
    FinishColors(color, path, fin);
    FinishStack(adj, stack, path, fin, rec, node, |fin|);
    FinishSettles(adj, stack, path, fin, rec, node);
  }

  // ---------- tree edges ----------

  ghost predicate PathInTree(path: seq<Node>, tree: set<Edge>) {
    forall i | 0 < i < |path| :: (path[i - 1], path[i]) in tree
  }

  /** A path node can be entered by a tree edge only from its predecessor. */
  ghost predicate EnteredFromPath(path: seq<Node>, tree: set<Edge>) {
    forall t, i | t in tree && 0 <= i < |path| && path[i] == t.1 :: i > 0 && t.0 == path[i - 1]
  }

  /** A reported edge is one that its source has already looked at. */
  ghost predicate LookedAt(adj: Graph<Node>, stack: Stack, path: seq<Node>, rec: map<Edge, seq<Node>>) {
    forall e, i | e in rec && 0 <= i < |path| && StackMatchesPath(adj, stack, path) && path[i] == e.0 ::
      e.1 in Neighbors(adj, path[i])[..stack[i].1]
  }

  ghost predicate AllMet(color: map<Node, Color>, tree: set<Edge>, rec: map<Edge, seq<Node>>) {
    (forall t | t in tree :: t.1 in color) && forall e | e in rec :: e.0 in color && e.1 in color
  }

  /** All edges of `c` but the last are tree edges. */
  ghost predicate AlongTree(tree: set<Edge>, c: seq<Node>) {
    forall i | 0 <= i < |c| - 2 :: (c[i], c[i + 1]) in tree
  }

  ghost predicate ListedFrom(rec: map<Edge, seq<Node>>, c: seq<string>) {
    exists e :: e in rec && Names(rec[e]) == c
  }

  /** Reports and back edges correspond: a back edge is no tree edge, it closes a cycle of
      tree edges, and every list comes from a back edge. */
  ghost predicate BackEdges(cycles: seq<seq<string>>, rec: map<Edge, seq<Node>>, tree: set<Edge>) {
    && rec.Keys !! tree
    && (forall e | e in rec :: AlongTree(tree, rec[e]))
    && (forall c | c in cycles :: ListedFrom(rec, c))
  }

  ghost predicate TreeState(adj: Graph<Node>, color: map<Node, Color>, stack: Stack, path: seq<Node>,
                            cycles: seq<seq<string>>, rec: map<Edge, seq<Node>>, tree: set<Edge>)
  {
    && PathInTree(path, tree) && EnteredFromPath(path, tree)
    && LookedAt(adj, stack, path, rec) && AllMet(color, tree, rec)
    && BackEdges(cycles, rec, tree)
  }

  lemma TreeBegin(adj: Graph<Node>, color: map<Node, Color>, start: Node, cycles: seq<seq<string>>,
                  rec: map<Edge, seq<Node>>, tree: set<Edge>)
    requires TreeState(adj, color, [], [], cycles, rec, tree) && start !in color
    ensures TreeState(adj, color[start := Grey], [(start, 0)], [start], cycles, rec, tree)
  {
    hide BackEdges, Neighbors;
  }

  lemma TreeSkip(adj: Graph<Node>, color: map<Node, Color>, stack: Stack, path: seq<Node>, cycles: seq<seq<string>>,
                 rec: map<Edge, seq<Node>>, tree: set<Edge>, node: Node, idx: int)
    requires TreeState(adj, color, stack, path, cycles, rec, tree) && StackMatchesPath(adj, stack, path)
    requires stack != [] && stack[|stack| - 1] == (node, idx) && 0 <= idx < |Neighbors(adj, node)|
    ensures TreeState(adj, color, stack[|stack| - 1 := (node, idx + 1)], path, cycles, rec, tree)
  {
    hide BackEdges, Neighbors, AllMet, PathInTree, EnteredFromPath;
    forall e, i | e in rec && 0 <= i < |path| && path[i] == e.0
      ensures e.1 in Neighbors(adj, path[i])[..stack[|stack| - 1 := (node, idx + 1)][i].1]
    {
      var k :| 0 <= k < stack[i].1 && Neighbors(adj, path[i])[k] == e.1;
      assert Neighbors(adj, path[i])[..stack[|stack| - 1 := (node, idx + 1)][i].1][k] == e.1;
    }
  }

  lemma NeighborsDiffer(adj: Graph<Node>, node: Node, j: int, k: int)
    requires 0 <= j < k < |Neighbors(adj, node)|
    ensures Neighbors(adj, node)[j] != Neighbors(adj, node)[k]
  {
    var q := Neighbors(adj, node);
    NodeOrderInjective(Succ(adj, node));
    assert StrictlySorted(NodeOrder, Sorted(NodeOrder, Succ(adj, node)));
    KeyIrreflexive(NodeOrder(q[j]));
  }

  /** A grey neighbour is reached by an edge that is new and no tree edge. */
  lemma BackEdgeIsNew(adj: Graph<Node>, color: map<Node, Color>, stack: Stack, path: seq<Node>,
                      cycles: seq<seq<string>>,
                      rec: map<Edge, seq<Node>>, tree: set<Edge>, node: Node, idx: int, s: nat)
    requires TreeState(adj, color, stack, path, cycles, rec, tree) && StackMatchesPath(adj, stack, path)
    requires NoDuplicates(path) && stack != []
    requires stack[|stack| - 1] == (node, idx) && 0 <= idx < |Neighbors(adj, node)|
    requires s < |path| && path[s] == Neighbors(adj, node)[idx]
    ensures (node, path[s]) !in rec && (node, path[s]) !in tree
  {
    hide BackEdges, Neighbors, AllMet, PathInTree;
    var e, last := (node, path[s]), |path| - 1;
    assert path[last] == node;
    if e in rec {
      var k :| 0 <= k < idx && Neighbors(adj, node)[..idx][k] == e.1;
      NeighborsDiffer(adj, node, k, idx);
    }
    if s > 0 { assert path[s - 1] != node; }
  }

  lemma PathAlongTree(path: seq<Node>, tree: set<Edge>, s: nat)
    requires PathInTree(path, tree) && s < |path|
    ensures AlongTree(tree, path[s..] + [path[s]])
  {
    var c := path[s..] + [path[s]];
    forall i | 0 <= i < |c| - 2 ensures (c[i], c[i + 1]) in tree {
      assert c[i] == path[s + i + 1 - 1] && c[i + 1] == path[s + i + 1];
    }
  }

  lemma OneMoreReport(cycles: seq<seq<string>>, rec: map<Edge, seq<Node>>, tree: set<Edge>, e: Edge, c: seq<Node>)
    requires BackEdges(cycles, rec, tree) && e !in rec && e !in tree && AlongTree(tree, c)
    ensures BackEdges(Report(cycles, Names(c)), rec[e := c], tree)
  {
    hide Names, AlongTree;
    var rec' := rec[e := c];
    forall x | x in Report(cycles, Names(c)) ensures ListedFrom(rec', x) {
      if x in cycles {
        var f :| f in rec && Names(rec[f]) == x;
        assert rec'[f] == rec[f];
      } else {
        assert rec'[e] == c;
      }
    }
  }

  lemma LookedAtOneMore(adj: Graph<Node>, stack: Stack, path: seq<Node>, rec: map<Edge, seq<Node>>, idx: int,
                        c: seq<Node>)
    requires LookedAt(adj, stack, path, rec) && StackMatchesPath(adj, stack, path) && NoDuplicates(path) && path != []
    requires stack[|path| - 1].1 == idx + 1 && 0 <= idx < |Neighbors(adj, path[|path| - 1])|
    ensures LookedAt(adj, stack, path, rec[(path[|path| - 1], Neighbors(adj, path[|path| - 1])[idx]) := c])
  {
    hide Neighbors;
    var node := path[|path| - 1];
    assert Neighbors(adj, node)[..idx + 1][idx] == Neighbors(adj, node)[idx];
  }

  lemma TreeBackEdge(adj: Graph<Node>, color: map<Node, Color>, stack: Stack, path: seq<Node>, cycles: seq<seq<string>>,
                     rec: map<Edge, seq<Node>>, tree: set<Edge>, node: Node, idx: int, s: nat)
    requires TreeState(adj, color, stack, path, cycles, rec, tree) && StackMatchesPath(adj, stack, path)
    requires NoDuplicates(path) && stack != [] && node in color
    requires stack[|stack| - 1] == (node, idx) && 0 <= idx < |Neighbors(adj, node)|
    requires s < |path| && path[s] == Neighbors(adj, node)[idx] && path[s] in color
    ensures var nxt := path[s]; var c := path[s..] + [nxt];
            TreeState(adj, color, stack[|stack| - 1 := (node, idx + 1)], path, Report(cycles, Names(c)),
                      rec[(node, nxt) := c], tree)
  {
    hide *;
    BackEdgeIsNew(adj, color, stack, path, cycles, rec, tree, node, idx, s);
    TreeSkip(adj, color, stack, path, cycles, rec, tree, node, idx);
    StackStillMatches(adj, stack, path, node, idx);
    RecordEdge(adj, color, stack[|stack| - 1 := (node, idx + 1)], path, cycles, rec, tree, idx, s);
  }

  lemma StackStillMatches(adj: Graph<Node>, stack: Stack, path: seq<Node>, node: Node, idx: int)
    requires StackMatchesPath(adj, stack, path) && stack != []
    requires stack[|stack| - 1] == (node, idx) && 0 <= idx < |Neighbors(adj, node)|
    ensures StackMatchesPath(adj, stack[|stack| - 1 := (node, idx + 1)], path)
    ensures |path| == |stack| && path[|path| - 1] == node
  {
    hide Neighbors;
  }

  lemma RecordEdge(adj: Graph<Node>, color: map<Node, Color>, stack: Stack, path: seq<Node>, cycles: seq<seq<string>>,
                   rec: map<Edge, seq<Node>>, tree: set<Edge>, idx: int, s: nat)
    requires TreeState(adj, color, stack, path, cycles, rec, tree) && StackMatchesPath(adj, stack, path)
    requires NoDuplicates(path) && s < |path| && path[|path| - 1] in color && path[s] in color
    requires 0 <= idx < |Neighbors(adj, path[|path| - 1])| && stack[|path| - 1].1 == idx + 1
    requires path[s] == Neighbors(adj, path[|path| - 1])[idx]
    requires (path[|path| - 1], path[s]) !in rec && (path[|path| - 1], path[s]) !in tree
    ensures var c := path[s..] + [path[s]];
            TreeState(adj, color, stack, path, Report(cycles, Names(c)), rec[(path[|path| - 1], path[s]) := c], tree)
  {
    hide Neighbors, Names, LookedAt, BackEdges, PathInTree, EnteredFromPath, AlongTree, StackMatchesPath, NoDuplicates;
    var e, c := (path[|path| - 1], path[s]), path[s..] + [path[s]];
    PathAlongTree(path, tree, s);
    OneMoreReport(cycles, rec, tree, e, c);
    LookedAtOneMore(adj, stack, path, rec, idx, c);
  }

  lemma OneMoreTreeEdge(cycles: seq<seq<string>>, rec: map<Edge, seq<Node>>, tree: set<Edge>, t: Edge)
    requires BackEdges(cycles, rec, tree) && t !in rec
    ensures BackEdges(cycles, rec, tree + {t})
  {
    hide Names, ListedFrom;
  }

  lemma PathGrows(path: seq<Node>, tree: set<Edge>, nxt: Node)
    requires PathInTree(path, tree) && EnteredFromPath(path, tree) && path != [] && nxt !in path
    requires forall t | t in tree :: t.1 != nxt
    ensures var tree' := tree + {(path[|path| - 1], nxt)};
            PathInTree(path + [nxt], tree') && EnteredFromPath(path + [nxt], tree')
  {
  }

  lemma LookedAtGrows(adj: Graph<Node>, stack: Stack, path: seq<Node>, rec: map<Edge, seq<Node>>, nxt: Node)
    requires LookedAt(adj, stack, path, rec) && StackMatchesPath(adj, stack, path)
    requires forall e | e in rec :: e.0 != nxt
    ensures LookedAt(adj, stack + [(nxt, 0)], path + [nxt], rec)
  {
    hide Neighbors;
    var stack', path' := stack + [(nxt, 0)], path + [nxt];
    forall e, i | e in rec && 0 <= i < |path'| && path'[i] == e.0
      ensures e.1 in Neighbors(adj, path'[i])[..stack'[i].1]
    {
      assert i < |path| && path'[i] == path[i] && stack'[i] == stack[i];
    }
  }

  lemma TreePush(adj: Graph<Node>, color: map<Node, Color>, stack: Stack, path: seq<Node>, cycles: seq<seq<string>>,
                 rec: map<Edge, seq<Node>>, tree: set<Edge>, node: Node, idx: int)
    requires TreeState(adj, color, stack, path, cycles, rec, tree) && StackMatchesPath(adj, stack, path)
    requires stack != [] && forall n | n in path :: n in color
    requires stack[|stack| - 1] == (node, idx) && 0 <= idx < |Neighbors(adj, node)|
    requires Neighbors(adj, node)[idx] !in color
    ensures var nxt := Neighbors(adj, node)[idx];
            TreeState(adj, color[nxt := Grey], stack[|stack| - 1 := (node, idx + 1)] + [(nxt, 0)], path + [nxt],
                      cycles, rec, tree + {(node, nxt)})
  {
    TreeSkip(adj, color, stack, path, cycles, rec, tree, node, idx);
    var nxt := Neighbors(adj, node)[idx];
    var stack' := stack[|stack| - 1 := (node, idx + 1)];
    assert StackMatchesPath(adj, stack', path) && path[|path| - 1] == node;
    hide Neighbors, Names, LookedAt, BackEdges, PathInTree, EnteredFromPath, StackMatchesPath;
    OneMoreTreeEdge(cycles, rec, tree, (node, nxt));
    PathGrows(path, tree, nxt);
    LookedAtGrows(adj, stack', path, rec, nxt);
  }

  lemma TreeFinish(adj: Graph<Node>, color: map<Node, Color>, stack: Stack, path: seq<Node>, cycles: seq<seq<string>>,
                   rec: map<Edge, seq<Node>>, tree: set<Edge>, node: Node)
    requires TreeState(adj, color, stack, path, cycles, rec, tree) && StackMatchesPath(adj, stack, path) && path != []
    ensures TreeState(adj, color[node := Black], stack[..|stack| - 1], path[..|path| - 1], cycles, rec, tree)
  {
    hide BackEdges, Neighbors;
    var stack', path' := stack[..|stack| - 1], path[..|path| - 1];
    assert StackMatchesPath(adj, stack', path');
    forall e, i | e in rec && 0 <= i < |path'| && path'[i] == e.0
      ensures e.1 in Neighbors(adj, path'[i])[..stack'[i].1]
    {
      assert path[i] == e.0 && stack[i] == stack'[i];
    }
  }

  // ---------- what one start reaches ----------

  /** The search from `start` so far: what it met is reachable from `start`, earlier finishing
      numbers stay, and `start` is at the bottom of the path until it finishes last. */
  ghost predicate FromStart(adj: Graph<Node>, start: Node, path: seq<Node>, fin: map<Node, nat>, fin0: map<Node, nat>) {
    && (forall n | n in path :: Reaches(adj, start, n))
    && (forall n | n in fin && n !in fin0 :: Reaches(adj, start, n))
    && (forall n | n in fin0 :: n in fin && fin[n] == fin0[n])
    && (if path != [] then path[0] == start else start in fin && fin[start] == |fin| - 1)
  }

  ghost predicate HasParent(tree: set<Edge>, n: Node) {
    exists p :: (p, n) in tree
  }

  /** The tree so far: its edges are edges of the graph and leave met nodes, and every node that
      this search has met, but its start, has been entered by one. */
  ghost predicate TreeGrows(adj: Graph<Node>, start: Node, path: seq<Node>, fin: map<Node, nat>, fin0: map<Node, nat>,
                            tree: set<Edge>, tree0: set<Edge>)
  {
    && tree0 <= tree
    && (forall t | t in tree :: t.1 in Succ(adj, t.0) && (t.0 in path || t.0 in fin))
    && (forall n | n in path || (n in fin && n !in fin0) :: n == start || HasParent(tree, n))
  }

  lemma GrowsPush(adj: Graph<Node>, start: Node, path: seq<Node>, fin: map<Node, nat>, fin0: map<Node, nat>,
                  tree: set<Edge>, tree0: set<Edge>, nxt: Node)
    requires TreeGrows(adj, start, path, fin, fin0, tree, tree0) && path != [] && nxt in Succ(adj, path[|path| - 1])
    ensures TreeGrows(adj, start, path + [nxt], fin, fin0, tree + {(path[|path| - 1], nxt)}, tree0)
  {
    var tree' := tree + {(path[|path| - 1], nxt)};
    forall n | n in path + [nxt] || (n in fin && n !in fin0) ensures n == start || HasParent(tree', n) {
      if n != nxt && HasParent(tree, n) {
        var p :| (p, n) in tree;
        assert (p, n) in tree';
      }
    }
    assert (path[|path| - 1], nxt) in tree';
  }

  lemma GrowsFinish(adj: Graph<Node>, start: Node, path: seq<Node>, fin: map<Node, nat>, fin0: map<Node, nat>,
                    tree: set<Edge>, tree0: set<Edge>)
    requires TreeGrows(adj, start, path, fin, fin0, tree, tree0) && path != []
    ensures TreeGrows(adj, start, path[..|path| - 1], fin[path[|path| - 1] := |fin|], fin0, tree, tree0)
  {
    hide Succ, HasParent;
    var node, path' := path[|path| - 1], path[..|path| - 1];
    assert path == path' + [node];
  }

  lemma GrowsBegin(adj: Graph<Node>, start: Node, fin: map<Node, nat>, tree: set<Edge>)
    requires forall t | t in tree :: t.1 in Succ(adj, t.0) && t.0 in fin
    ensures TreeGrows(adj, start, [start], fin, fin, tree, tree)
  {
  }

  lemma FromStartPush(adj: Graph<Node>, start: Node, path: seq<Node>, fin: map<Node, nat>, fin0: map<Node, nat>,
                      nxt: Node)
    requires FromStart(adj, start, path, fin, fin0) && path != [] && nxt in Succ(adj, path[|path| - 1])
    ensures FromStart(adj, start, path + [nxt], fin, fin0)
  {
    hide Reaches;
    ReachesStep(adj, path[|path| - 1], nxt);
    ReachesTransitive(adj, start, path[|path| - 1], nxt);
  }

  lemma FromStartFinish(adj: Graph<Node>, start: Node, path: seq<Node>, fin: map<Node, nat>, fin0: map<Node, nat>)
    requires FromStart(adj, start, path, fin, fin0) && path != [] && path[|path| - 1] !in fin
    ensures FromStart(adj, start, path[..|path| - 1], fin[path[|path| - 1] := |fin|], fin0)
  {
    hide Reaches;
    var node, path' := path[|path| - 1], path[..|path| - 1];
    assert forall n | n in path' :: n in path;
    assert |fin[node := |fin|]| == |fin| + 1;
  }

  // ---------- what the search knew when it met a node ----------

  /** The path down to the node and the nodes that had finished. */
  datatype Meeting = Meeting(path: seq<Node>, done: set<Node>)

  predicate Smaller(a: Node, b: Node) { KeyLess(NodeOrder(a), NodeOrder(b)) }

  /** What was left of the finished nodes led back to the path. */
  ghost predicate ClosedBut(adj: Graph<Node>, done: set<Node>, path: seq<Node>) {
    forall x, y | x in done && y in Succ(adj, x) :: y in done || y in path
  }

  /** Everything the search could have taken instead of `n` had been met before. */
  ghost predicate InTurn(adj: Graph<Node>, p: seq<Node>, done: set<Node>)
    requires p != []
  {
    if |p| == 1 then forall t | t in adj && Smaller(t, p[0]) :: t in done
    else forall b | b in Succ(adj, p[|p| - 2]) && Smaller(b, p[|p| - 1]) :: b in done || b in p[..|p| - 1]
  }

  ghost predicate MeetingOk(adj: Graph<Node>, tree: set<Edge>, met: map<Node, Meeting>, n: Node)
    requires n in met
  {
    var p, done := met[n].path, met[n].done;
    && IsWalk(adj, p) && NoDuplicates(p) && p[|p| - 1] == n && PathInTree(p, tree)
    && (forall i | 0 <= i < |p| :: p[i] in met && met[p[i]].path == p[..i + 1] && n !in met[p[i]].done)
    && ClosedBut(adj, done, p[..|p| - 1]) && InTurn(adj, p, done)
  }

  ghost predicate MetState(adj: Graph<Node>, path: seq<Node>, fin: map<Node, nat>, tree: set<Edge>,
                           met: map<Node, Meeting>)
  {
    && (forall n :: n in met <==> n in path || n in fin)
    && (forall i | 0 <= i < |path| :: met[path[i]].path == path[..i + 1])
    && (forall n | n in met :: MeetingOk(adj, tree, met, n) && met[n].done <= fin.Keys)
  }

  lemma MeetingStays(adj: Graph<Node>, tree: set<Edge>, tree': set<Edge>, met: map<Node, Meeting>, n: Node, nxt: Node,
                     m: Meeting)
    requires n in met && MeetingOk(adj, tree, met, n) && nxt !in met && tree <= tree'
    ensures MeetingOk(adj, tree', met[nxt := m], n)
  {
    hide IsWalk, NoDuplicates, ClosedBut, InTurn;
    var p := met[n].path;
    forall i | 0 <= i < |p| ensures p[i] != nxt { assert p[i] in met; }
  }

  /** Meeting `nxt` at the end of the path. */
  lemma Meet(adj: Graph<Node>, path: seq<Node>, fin: map<Node, nat>, tree: set<Edge>, tree': set<Edge>,
             met: map<Node, Meeting>, nxt: Node)
    requires MetState(adj, path, fin, tree, met) && nxt !in path && nxt !in fin && tree <= tree'
    requires IsWalk(adj, path + [nxt]) && NoDuplicates(path + [nxt]) && PathInTree(path + [nxt], tree')
    requires ClosedBut(adj, fin.Keys, path) && InTurn(adj, path + [nxt], fin.Keys)
    ensures MetState(adj, path + [nxt], fin, tree', met[nxt := Meeting(path + [nxt], fin.Keys)])
  {
    hide IsWalk, NoDuplicates, ClosedBut, InTurn, PathInTree, MeetingOk;
    var q, m := path + [nxt], Meeting(path + [nxt], fin.Keys);
    var met' := met[nxt := m];
    assert nxt !in met;
    forall i | 0 <= i < |path| ensures path[i] in met && nxt !in met[path[i]].done { assert path[i] in path; }
    MeetPaths(path, met, nxt, fin.Keys);
    assert q[..|q| - 1] == path;
    NewMeetingOk(adj, tree', met', nxt);
    forall n | n in met ensures MeetingOk(adj, tree', met', n) {
      MeetingStays(adj, tree, tree', met, n, nxt, m);
    }
    hide MetState;
    MetAgain(adj, path, fin, tree, tree', met, nxt);
  }

  lemma MeetPaths(path: seq<Node>, met: map<Node, Meeting>, nxt: Node, done: set<Node>)
    requires nxt !in path && nxt !in done
    requires forall i | 0 <= i < |path| ::
      path[i] in met && met[path[i]].path == path[..i + 1] && nxt !in met[path[i]].done
    ensures var q := path + [nxt]; var met' := met[nxt := Meeting(q, done)];
      forall i | 0 <= i < |q| :: q[i] in met' && met'[q[i]].path == q[..i + 1] && nxt !in met'[q[i]].done
  {
    var q := path + [nxt];
    assert q[..|q|] == q;
    assert forall i | 0 <= i < |path| :: q[i] == path[i] && q[..i + 1] == path[..i + 1] && path[i] in path;
  }

  lemma MetAgain(adj: Graph<Node>, path: seq<Node>, fin: map<Node, nat>, tree: set<Edge>, tree': set<Edge>,
                 met: map<Node, Meeting>, nxt: Node)
    requires MetState(adj, path, fin, tree, met) && nxt !in met
    requires var q := path + [nxt]; var met' := met[nxt := Meeting(q, fin.Keys)];
      && (forall i | 0 <= i < |q| :: q[i] in met' && met'[q[i]].path == q[..i + 1])
      && (forall n | n in met :: MeetingOk(adj, tree', met', n)) && MeetingOk(adj, tree', met', nxt)
    ensures MetState(adj, path + [nxt], fin, tree', met[nxt := Meeting(path + [nxt], fin.Keys)])
  {
    hide MeetingOk;
    assert forall n :: n in path + [nxt] <==> n in path || n == nxt;
  }

  lemma NewMeetingOk(adj: Graph<Node>, tree: set<Edge>, met: map<Node, Meeting>, n: Node)
    requires n in met && IsWalk(adj, met[n].path) && NoDuplicates(met[n].path) && PathInTree(met[n].path, tree)
    requires var p, done := met[n].path, met[n].done;
      && p[|p| - 1] == n && ClosedBut(adj, done, p[..|p| - 1]) && InTurn(adj, p, done)
      && forall i | 0 <= i < |p| :: p[i] in met && met[p[i]].path == p[..i + 1] && n !in met[p[i]].done
    ensures MeetingOk(adj, tree, met, n)
  {
    hide IsWalk, NoDuplicates, PathInTree, ClosedBut, InTurn;
  }

  lemma MetFinish(adj: Graph<Node>, path: seq<Node>, fin: map<Node, nat>, tree: set<Edge>, met: map<Node, Meeting>)
    requires MetState(adj, path, fin, tree, met) && path != []
    ensures MetState(adj, path[..|path| - 1], fin[path[|path| - 1] := |fin|], tree, met)
  {
    hide MeetingOk;
    var path' := path[..|path| - 1];
    assert path == path' + [path[|path| - 1]];
    forall i | 0 <= i < |path'| ensures met[path'[i]].path == path'[..i + 1] {
      assert path[i] in path && path'[i] == path[i] && path'[..i + 1] == path[..i + 1];
    }
  }

  /** Edges out of finished nodes end in finished nodes or on the path. */
  lemma FinishedLeadBack(adj: Graph<Node>, color: map<Node, Color>, stack: Stack, path: seq<Node>,
                         cycles: seq<seq<string>>, fin: map<Node, nat>, rec: map<Edge, seq<Node>>, tree: set<Edge>)
    requires DfsState(adj, color, stack, path, cycles, fin, rec)
    requires TreeState(adj, color, stack, path, cycles, rec, tree)
    ensures ClosedBut(adj, fin.Keys, path)
    ensures forall e | e in rec :: e.1 in fin || e.1 in path
  {
    hide StackState, CyclesJustified, PathInTree, EnteredFromPath, LookedAt, BackEdges;
    forall e | e in rec ensures e.1 in fin || e.1 in path {
      assert e.1 in color && color[e.1] != White;
      assert ColorOf(color, e.1) == Grey || ColorOf(color, e.1) == Black;
    }
    forall x, y | x in fin && y in Succ(adj, x) ensures y in fin || y in path {
      assert SettledBefore(fin, rec, x, y);
    }
  }

  /** The neighbours before `idx` in the order are finished or on the path. */
  lemma EarlierNeighbors(adj: Graph<Node>, color: map<Node, Color>, stack: Stack, path: seq<Node>,
                         cycles: seq<seq<string>>, fin: map<Node, nat>, rec: map<Edge, seq<Node>>, node: Node, idx: int)
    requires DfsState(adj, color, stack, path, cycles, fin, rec) && stack != []
    requires stack[|stack| - 1] == (node, idx) && 0 <= idx < |Neighbors(adj, node)|
    requires forall e | e in rec :: e.1 in fin || e.1 in path
    ensures forall b | b in Succ(adj, node) && Smaller(b, Neighbors(adj, node)[idx]) :: b in fin || b in path
  {
    hide ColorState, BlackEdgesSettled, CyclesJustified, Neighbors, Linked;
    var q := Neighbors(adj, node);
    assert path[|path| - 1] == node;
    assert GreyEdgesSettled(adj, stack, path, fin, rec, |path| - 1);
    forall b | b in Succ(adj, node) && Smaller(b, q[idx]) ensures b in fin || b in path {
      assert b in q;
      var k :| 0 <= k < |q| && q[k] == b;
      NeighborsAscend(adj, node);
      SmallerIsEarlier(q, k, idx);
      assert Settled(fin, rec, node, q[k]);
    }
  }

  lemma NeighborsAscend(adj: Graph<Node>, node: Node)
    ensures StrictlySorted(NodeOrder, Neighbors(adj, node))
  {
    NodeOrderInjective(Succ(adj, node));
    assert StrictlySorted(NodeOrder, Sorted(NodeOrder, Succ(adj, node)));
  }

  lemma PushMet(adj: Graph<Node>, color: map<Node, Color>, stack: Stack, path: seq<Node>, cycles: seq<seq<string>>,
                fin: map<Node, nat>, rec: map<Edge, seq<Node>>, tree: set<Edge>, met: map<Node, Meeting>, node: Node,
                idx: int)
    requires DfsState(adj, color, stack, path, cycles, fin, rec) && stack != []
    requires TreeState(adj, color, stack, path, cycles, rec, tree) && MetState(adj, path, fin, tree, met)
    requires stack[|stack| - 1] == (node, idx) && 0 <= idx < |Neighbors(adj, node)|
    requires ColorOf(color, Neighbors(adj, node)[idx]) == White
    ensures var nxt := Neighbors(adj, node)[idx];
      MetState(adj, path + [nxt], fin, tree + {(node, nxt)}, met[nxt := Meeting(path + [nxt], fin.Keys)])
  {
    hide *;
    var nxt := Neighbors(adj, node)[idx];
    TopFacts(adj, color, stack, path, cycles, fin, rec);
    FinishedLeadBack(adj, color, stack, path, cycles, fin, rec, tree);
    EarlierNeighbors(adj, color, stack, path, cycles, fin, rec, node, idx);
    PathIsWalk(adj, color, stack, path, cycles, fin, rec);
    PathFacts(adj, color, stack, path, cycles, fin, rec, tree);
    assert nxt in Neighbors(adj, node);
    WalkSnoc(adj, path, nxt);
    LongerPath(adj, path, tree, node, nxt, fin.Keys);
    Meet(adj, path, fin, tree, tree + {(node, nxt)}, met, nxt);
  }

  lemma PathFacts(adj: Graph<Node>, color: map<Node, Color>, stack: Stack, path: seq<Node>, cycles: seq<seq<string>>,
                  fin: map<Node, nat>, rec: map<Edge, seq<Node>>, tree: set<Edge>)
    requires DfsState(adj, color, stack, path, cycles, fin, rec)
    requires TreeState(adj, color, stack, path, cycles, rec, tree)
    ensures NoDuplicates(path) && PathInTree(path, tree)
  {
    hide StackState, BlackEdgesSettled, CyclesJustified, EnteredFromPath, LookedAt, BackEdges;
  }

  lemma LongerPath(adj: Graph<Node>, path: seq<Node>, tree: set<Edge>, node: Node, nxt: Node, done: set<Node>)
    requires path != [] && path[|path| - 1] == node && nxt !in path && NoDuplicates(path) && PathInTree(path, tree)
    requires forall b | b in Succ(adj, node) && Smaller(b, nxt) :: b in done || b in path
    ensures NoDuplicates(path + [nxt]) && PathInTree(path + [nxt], tree + {(node, nxt)})
    ensures InTurn(adj, path + [nxt], done)
  {
    hide Smaller;
    var q := path + [nxt];
    assert q[..|q| - 1] == path && q[|q| - 2] == node;
  }

  lemma BeginMet(adj: Graph<Node>, color: map<Node, Color>, start: Node, cycles: seq<seq<string>>, fin: map<Node, nat>,
                 rec: map<Edge, seq<Node>>, tree: set<Edge>, met: map<Node, Meeting>)
    requires DfsState(adj, color, [], [], cycles, fin, rec) && TreeState(adj, color, [], [], cycles, rec, tree)
    requires MetState(adj, [], fin, tree, met) && ColorOf(color, start) == White
    requires forall t | t in adj && Smaller(t, start) :: t in fin
    ensures MetState(adj, [start], fin, tree, met[start := Meeting([start], fin.Keys)])
  {
    hide DfsState, TreeState, MetState, ClosedBut, Smaller;
    FinishedLeadBack(adj, color, [], [], cycles, fin, rec, tree);
    WhiteIsNew(adj, color, cycles, fin, rec, start);
    assert [] + [start] == [start];
    Meet(adj, [], fin, tree, tree, met, start);
  }

  lemma WhiteIsNew(adj: Graph<Node>, color: map<Node, Color>, cycles: seq<seq<string>>, fin: map<Node, nat>,
                   rec: map<Edge, seq<Node>>, n: Node)
    requires DfsState(adj, color, [], [], cycles, fin, rec) && ColorOf(color, n) == White
    ensures n !in fin
  {
    hide StackState, BlackEdgesSettled, CyclesJustified;
  }

  /** `path.index(x)`.  Its `ValueError` branch, which would fall back to 0, is
      dead: a grey node is always on the path, so callers can promise `x in path`. */
  method IndexOf(path: seq<Node>, x: Node) returns (i: nat)
    requires x in path
    ensures i < |path| && path[i] == x && x !in path[..i]
  {
    i := 0;
    while path[i] != x
      invariant i < |path| && x !in path[..i] && x in path[i..]
      decreases |path| - i
    {
      i := i + 1;
    }
  }

  /** The facts about the top of the stack that the loop body needs. */
  lemma TopFacts(adj: Graph<Node>, color: map<Node, Color>, stack: Stack, path: seq<Node>,
                 cycles: seq<seq<string>>, fin: map<Node, nat>, rec: map<Edge, seq<Node>>)
    requires DfsState(adj, color, stack, path, cycles, fin, rec) && stack != []
    ensures |path| == |stack| && path[|path| - 1] == stack[|stack| - 1].0
    ensures 0 <= stack[|stack| - 1].1 <= |Neighbors(adj, stack[|stack| - 1].0)|
    ensures forall n :: n in path <==> ColorOf(color, n) == Grey
    ensures forall n :: n in fin <==> ColorOf(color, n) == Black
    ensures forall n | n in color :: color[n] != White
  {
  }

  /** A reported cycle lies in the strongly connected component of the closed walk `w`. */
  ghost predicate ReportedNear(adj: Graph<Node>, cycles: seq<seq<string>>, w: seq<Node>) {
    exists c, l :: IsSimpleCycle(adj, c) && l in cycles && Spells(c, l)
                   && forall x, y | x in c && y in w :: StronglyConnected(adj, x, y)
  }

  lemma InitialState(adj: Graph<Node>)
    ensures DfsState(adj, map[], [], [], [], map[], map[])
  {
  }

  // The steps of the whole state: colours, stack and reports, and what one start has met.

  ghost predicate SearchState(adj: Graph<Node>, color: map<Node, Color>, stack: Stack, path: seq<Node>,
                              cycles: seq<seq<string>>, fin: map<Node, nat>, rec: map<Edge, seq<Node>>,
                              tree: set<Edge>)
  {
    DfsState(adj, color, stack, path, cycles, fin, rec) && TreeState(adj, color, stack, path, cycles, rec, tree)
  }

  ghost predicate StartState(adj: Graph<Node>, start: Node, path: seq<Node>, fin: map<Node, nat>, fin0: map<Node, nat>,
                             tree: set<Edge>, tree0: set<Edge>, met: map<Node, Meeting>)
  {
    && FromStart(adj, start, path, fin, fin0) && TreeGrows(adj, start, path, fin, fin0, tree, tree0)
    && MetState(adj, path, fin, tree, met)
  }

  lemma Begin(adj: Graph<Node>, start: Node, color: map<Node, Color>, cycles: seq<seq<string>>, fin: map<Node, nat>,
              rec: map<Edge, seq<Node>>, tree: set<Edge>, met: map<Node, Meeting>)
    requires SearchState(adj, color, [], [], cycles, fin, rec, tree) && ColorOf(color, start) == White
    requires MetState(adj, [], fin, tree, met) && forall t | t in adj && Smaller(t, start) :: t in fin
    requires forall t | t in tree :: t.1 in Succ(adj, t.0) && t.0 in fin
    ensures SearchState(adj, color[start := Grey], [(start, 0)], [start], cycles, fin, rec, tree)
    ensures StartState(adj, start, [start], fin, fin, tree, tree, met[start := Meeting([start], fin.Keys)])
  {
    hide DfsState, TreeState, FromStart, TreeGrows, MetState, ColorOf, Succ, Smaller;
    BeginMet(adj, color, start, cycles, fin, rec, tree, met);
    BeginStep(adj, color, start, cycles, fin, rec);
    BeginTree(adj, color, start, cycles, fin, rec, tree);
    GrowsBegin(adj, start, fin, tree);
  }

  lemma Skip(adj: Graph<Node>, color: map<Node, Color>, stack: Stack, path: seq<Node>, cycles: seq<seq<string>>,
             fin: map<Node, nat>, rec: map<Edge, seq<Node>>, tree: set<Edge>, node: Node, idx: int)
    requires SearchState(adj, color, stack, path, cycles, fin, rec, tree) && stack != []
    requires stack[|stack| - 1] == (node, idx) && 0 <= idx < |Neighbors(adj, node)|
    requires Neighbors(adj, node)[idx] in fin
    ensures SearchState(adj, color, stack[|stack| - 1 := (node, idx + 1)], path, cycles, fin, rec, tree)
  {
    hide DfsState, TreeState, Neighbors;
    SkipTree(adj, color, stack, path, cycles, fin, rec, tree, node, idx);
    SkipStep(adj, color, stack, path, cycles, fin, rec, node, idx);
  }

  lemma CloseCycle(adj: Graph<Node>, color: map<Node, Color>, stack: Stack, path: seq<Node>,
                   cycles: seq<seq<string>>, fin: map<Node, nat>, rec: map<Edge, seq<Node>>, tree: set<Edge>,
                   node: Node, idx: int, s: nat)
    requires SearchState(adj, color, stack, path, cycles, fin, rec, tree) && stack != []
    requires stack[|stack| - 1] == (node, idx) && 0 <= idx < |Neighbors(adj, node)|
    requires s < |path| && path[s] == Neighbors(adj, node)[idx] && path[|path| - 1] == node
    ensures var nxt := path[s]; var c := path[s..] + [nxt];
            SearchState(adj, color, stack[|stack| - 1 := (node, idx + 1)], path, Report(cycles, Names(c)), fin,
                        rec[(node, nxt) := c], tree)
  {
    hide DfsState, TreeState, Neighbors, Names, Report;
    BackEdgeTree(adj, color, stack, path, cycles, fin, rec, tree, node, idx, s);
    BackEdgeStep(adj, color, stack, path, cycles, fin, rec, node, idx, s);
  }

  lemma Descend(adj: Graph<Node>, start: Node, color: map<Node, Color>, stack: Stack, path: seq<Node>,
                cycles: seq<seq<string>>, fin: map<Node, nat>, fin0: map<Node, nat>, rec: map<Edge, seq<Node>>,
                tree: set<Edge>, tree0: set<Edge>, met: map<Node, Meeting>, node: Node, idx: int)
    requires SearchState(adj, color, stack, path, cycles, fin, rec, tree) && stack != []
    requires StartState(adj, start, path, fin, fin0, tree, tree0, met)
    requires stack[|stack| - 1] == (node, idx) && 0 <= idx < |Neighbors(adj, node)|
    requires ColorOf(color, Neighbors(adj, node)[idx]) == White
    ensures var nxt := Neighbors(adj, node)[idx]; var tree' := tree + {(node, nxt)};
      && nxt in AllNodes(adj) - color.Keys
      && AllNodes(adj) - color[nxt := Grey].Keys < AllNodes(adj) - color.Keys
      && SearchState(adj, color[nxt := Grey], stack[|stack| - 1 := (node, idx + 1)] + [(nxt, 0)], path + [nxt], cycles,
                     fin, rec, tree')
      && StartState(adj, start, path + [nxt], fin, fin0, tree', tree0, met[nxt := Meeting(path + [nxt], fin.Keys)])
  {
    hide DfsState, TreeState, FromStart, TreeGrows, MetState, Neighbors, AllNodes, ColorOf, Succ;
    var nxt := Neighbors(adj, node)[idx];
    TopFacts(adj, color, stack, path, cycles, fin, rec);
    PushTree(adj, color, stack, path, cycles, fin, rec, tree, node, idx);
    PushStep(adj, color, stack, path, cycles, fin, rec, node, idx);
    NeighborKnown(adj, node, idx);
    FromStartPush(adj, start, path, fin, fin0, nxt);
    GrowsPush(adj, start, path, fin, fin0, tree, tree0, nxt);
    PushMet(adj, color, stack, path, cycles, fin, rec, tree, met, node, idx);
    FewerWhite(color, AllNodes(adj), nxt);
  }

  lemma FewerWhite(color: map<Node, Color>, all: set<Node>, nxt: Node)
    requires nxt in all && ColorOf(color, nxt) == White && forall n | n in color :: color[n] != White
    ensures nxt in all - color.Keys && all - color[nxt := Grey].Keys < all - color.Keys
  {
    assert all - color[nxt := Grey].Keys == all - color.Keys - {nxt};
  }

  lemma Finish(adj: Graph<Node>, start: Node, color: map<Node, Color>, stack: Stack, path: seq<Node>,
               cycles: seq<seq<string>>, fin: map<Node, nat>, fin0: map<Node, nat>, rec: map<Edge, seq<Node>>,
               tree: set<Edge>, tree0: set<Edge>, met: map<Node, Meeting>, node: Node)
    requires SearchState(adj, color, stack, path, cycles, fin, rec, tree) && stack != []
    requires StartState(adj, start, path, fin, fin0, tree, tree0, met)
    requires stack[|stack| - 1] == (node, |Neighbors(adj, node)|)
    ensures path != [] && color[node := Black].Keys == color.Keys
    ensures var path' := path[..|path| - 1]; var fin' := fin[node := |fin|];
      && SearchState(adj, color[node := Black], stack[..|stack| - 1], path', cycles, fin', rec, tree)
      && StartState(adj, start, path', fin', fin0, tree, tree0, met)
  {
    hide DfsState, TreeState, FromStart, TreeGrows, MetState, Neighbors;
    TopFacts(adj, color, stack, path, cycles, fin, rec);
    FinishTree(adj, color, stack, path, cycles, fin, rec, tree, node);
    FinishStep(adj, color, stack, path, cycles, fin, rec, node);
    assert node in path;
    assert ColorOf(color, node) == Grey;
    FromStartFinish(adj, start, path, fin, fin0);
    GrowsFinish(adj, start, path, fin, fin0, tree, tree0);
    MetFinish(adj, path, fin, tree, met);
  }

  lemma Top(adj: Graph<Node>, color: map<Node, Color>, stack: Stack, path: seq<Node>, cycles: seq<seq<string>>,
            fin: map<Node, nat>, rec: map<Edge, seq<Node>>, tree: set<Edge>)
    requires SearchState(adj, color, stack, path, cycles, fin, rec, tree) && stack != []
    ensures |path| == |stack| && path[|path| - 1] == stack[|stack| - 1].0
    ensures 0 <= stack[|stack| - 1].1 <= |Neighbors(adj, stack[|stack| - 1].0)|
    ensures forall n :: n in path <==> ColorOf(color, n) == Grey
    ensures forall n :: n in fin <==> ColorOf(color, n) == Black
    ensures forall n | n in color :: color[n] != White
  {
    hide DfsState, TreeState, ColorOf, Neighbors;
    TopFacts(adj, color, stack, path, cycles, fin, rec);
  }

  /** The inner loop: look at the neighbours of the top node until one closes a cycle or is white. */
  method Advance(adj: Graph<Node>, ghost start: Node, color0: map<Node, Color>, stack0: Stack, path0: seq<Node>,
                 cycles0: seq<seq<string>>, ghost fin: map<Node, nat>, ghost fin0: map<Node, nat>,
                 ghost rec0: map<Edge, seq<Node>>, ghost tree0: set<Edge>, ghost tree1: set<Edge>,
                 ghost met0: map<Node, Meeting>)
    returns (advanced: bool, color: map<Node, Color>, stack: Stack, path: seq<Node>, cycles: seq<seq<string>>,
             ghost rec: map<Edge, seq<Node>>, ghost tree: set<Edge>, ghost met: map<Node, Meeting>)
    requires SearchState(adj, color0, stack0, path0, cycles0, fin, rec0, tree0) && stack0 != []
    requires StartState(adj, start, path0, fin, fin0, tree0, tree1, met0) && color0.Keys <= AllNodes(adj)
    ensures SearchState(adj, color, stack, path, cycles, fin, rec, tree) && |path| == |stack| > 0
    ensures StartState(adj, start, path, fin, fin0, tree, tree1, met)
    ensures color0.Keys <= color.Keys <= AllNodes(adj)
    ensures color.Keys == color0.Keys || AllNodes(adj) - color.Keys < AllNodes(adj) - color0.Keys
    ensures advanced && color.Keys == color0.Keys ==>
      && |stack| == |stack0| && stack[|stack| - 1].0 == stack0[|stack0| - 1].0
      && stack0[|stack0| - 1].1 < stack[|stack| - 1].1 <= |Neighbors(adj, stack[|stack| - 1].0)|
    ensures !advanced ==>
      && color.Keys == color0.Keys && |stack| == |stack0|
      && stack[|stack| - 1].1 == |Neighbors(adj, stack[|stack| - 1].0)|
  {
    hide *;
    color, stack, path, cycles, rec, tree, met := color0, stack0, path0, cycles0, rec0, tree0, met0;
    var node, idx := stack[|stack| - 1].0, stack[|stack| - 1].1;
    var neighbors := Neighbors(adj, node);
    advanced := false;
    Top(adj, color, stack, path, cycles, fin, rec, tree);
    while idx < |neighbors|
      invariant SearchState(adj, color, stack, path0, cycles, fin, rec, tree0)
      invariant |stack| == |stack0| == |path0| && stack[|stack| - 1] == (node, idx)
      invariant stack0[|stack0| - 1].1 <= idx <= |neighbors| && !advanced
      invariant color == color0 && path == path0 && cycles == cycles0 && rec == rec0 && tree == tree0 && met == met0
    {
      var nxt := neighbors[idx];
      Top(adj, color, stack, path, cycles, fin, rec, tree);
      if ColorOf(color, nxt) == Grey {
        var s := IndexOf(path, nxt);
        var cyc := path[s..] + [nxt];
        CloseCycle(adj, color, stack, path, cycles, fin, rec, tree, node, idx, s);
        rec := rec[(node, nxt) := cyc];
        cycles := Report(cycles, Names(cyc));
        stack := stack[|stack| - 1 := (node, idx + 1)];
        advanced := true;
        break;
      }
      if ColorOf(color, nxt) == White {
        Descend(adj, start, color, stack, path, cycles, fin, fin0, rec, tree, tree1, met, node, idx);
        stack := stack[|stack| - 1 := (node, idx + 1)];
        color := color[nxt := Grey];
        path := path + [nxt];
        stack := stack + [(nxt, 0)];
        tree := tree + {(node, nxt)};
        met := met[nxt := Meeting(path, fin.Keys)];
        advanced := true;
        break;
      }
      Skip(adj, color, stack, path, cycles, fin, rec, tree, node, idx);
      stack := stack[|stack| - 1 := (node, idx + 1)];
      idx := idx + 1;
    }
  }

  /** The search of everything reachable from one white start node. */
  method Explore(adj: Graph<Node>, start: Node, color0: map<Node, Color>, cycles0: seq<seq<string>>,
                 ghost fin0: map<Node, nat>, ghost rec0: map<Edge, seq<Node>>, ghost tree0: set<Edge>,
                 ghost met0: map<Node, Meeting>)
    returns (color: map<Node, Color>, cycles: seq<seq<string>>,
             ghost fin: map<Node, nat>, ghost rec: map<Edge, seq<Node>>, ghost tree: set<Edge>,
             ghost met: map<Node, Meeting>)
    requires SearchState(adj, color0, [], [], cycles0, fin0, rec0, tree0) && ColorOf(color0, start) == White
    requires color0.Keys <= AllNodes(adj) && start in adj
    requires forall t | t in tree0 :: t.1 in Succ(adj, t.0) && t.0 in fin0
    requires MetState(adj, [], fin0, tree0, met0) && forall t | t in adj && Smaller(t, start) :: t in fin0
    ensures SearchState(adj, color, [], [], cycles, fin, rec, tree)
    ensures StartState(adj, start, [], fin, fin0, tree, tree0, met)
    ensures color0.Keys + {start} <= color.Keys <= AllNodes(adj)
  {
    hide *;
    color, cycles, fin, rec, tree, met := color0, cycles0, fin0, rec0, tree0, met0;
    Begin(adj, start, color, cycles, fin, rec, tree, met);
    var stack: Stack := [(start, 0)];
    StartKnown(adj, start);
    color := color[start := Grey];
    var path := [start];
    met := met[start := Meeting(path, fin.Keys)];
    while stack != []
      invariant SearchState(adj, color, stack, path, cycles, fin, rec, tree) && |path| == |stack|
      invariant StartState(adj, start, path, fin, fin0, tree, tree0, met)
      invariant color0.Keys + {start} <= color.Keys <= AllNodes(adj)
      decreases AllNodes(adj) - color.Keys, |stack|,
                if stack == [] then 0 else |Neighbors(adj, stack[|stack| - 1].0)| - stack[|stack| - 1].1
    {
      var advanced;
      Top(adj, color, stack, path, cycles, fin, rec, tree);
      advanced, color, stack, path, cycles, rec, tree, met :=
        Advance(adj, start, color, stack, path, cycles, fin, fin0, rec, tree, tree0, met);
      if !advanced {
        var node := stack[|stack| - 1].0;
        Finish(adj, start, color, stack, path, cycles, fin, fin0, rec, tree, tree0, met, node);
        color := color[node := Black];
        fin := fin[node := |fin|];
        path := path[..|path| - 1];
        stack := stack[..|stack| - 1];
      }
    }
  }

  // The steps of the tree invariant, from the state of the search.

  lemma BeginTree(adj: Graph<Node>, color: map<Node, Color>, start: Node, cycles: seq<seq<string>>,
                  fin: map<Node, nat>, rec: map<Edge, seq<Node>>, tree: set<Edge>)
    requires DfsState(adj, color, [], [], cycles, fin, rec) && ColorOf(color, start) == White
    requires TreeState(adj, color, [], [], cycles, rec, tree)
    ensures TreeState(adj, color[start := Grey], [(start, 0)], [start], cycles, rec, tree)
    ensures FromStart(adj, start, [start], fin, fin)
  {
    hide TreeState, StackState, BlackEdgesSettled, CyclesJustified, PathIsGrey, FinishedAreBlack;
    TreeBegin(adj, color, start, cycles, rec, tree);
    ReachesRefl(adj, start);
  }

  lemma SkipTree(adj: Graph<Node>, color: map<Node, Color>, stack: Stack, path: seq<Node>, cycles: seq<seq<string>>,
                 fin: map<Node, nat>, rec: map<Edge, seq<Node>>, tree: set<Edge>, node: Node, idx: int)
    requires DfsState(adj, color, stack, path, cycles, fin, rec) && stack != []
    requires TreeState(adj, color, stack, path, cycles, rec, tree)
    requires stack[|stack| - 1] == (node, idx) && 0 <= idx < |Neighbors(adj, node)|
    ensures TreeState(adj, color, stack[|stack| - 1 := (node, idx + 1)], path, cycles, rec, tree)
  {
    hide TreeState, StackMatchesPath, ColorState, BlackEdgesSettled, CyclesJustified, Neighbors, Linked,
      GreyEdgesSettled;
    TreeSkip(adj, color, stack, path, cycles, rec, tree, node, idx);
  }

  lemma BackEdgeTree(adj: Graph<Node>, color: map<Node, Color>, stack: Stack, path: seq<Node>, cycles: seq<seq<string>>,
                     fin: map<Node, nat>, rec: map<Edge, seq<Node>>, tree: set<Edge>, node: Node, idx: int, s: nat)
    requires DfsState(adj, color, stack, path, cycles, fin, rec) && stack != []
    requires TreeState(adj, color, stack, path, cycles, rec, tree)
    requires stack[|stack| - 1] == (node, idx) && 0 <= idx < |Neighbors(adj, node)|
    requires s < |path| && path[s] == Neighbors(adj, node)[idx] && path[|path| - 1] == node
    ensures var nxt := path[s]; var c := path[s..] + [nxt];
            TreeState(adj, color, stack[|stack| - 1 := (node, idx + 1)], path, Report(cycles, Names(c)),
                      rec[(node, nxt) := c], tree)
  {
    hide TreeState, StackMatchesPath, FinishedAreBlack, BlackEdgesSettled, CyclesJustified, Neighbors, Linked,
      GreyEdgesSettled, Names;
    assert node in path && path[s] in path;
    TreeBackEdge(adj, color, stack, path, cycles, rec, tree, node, idx, s);
  }

  lemma PushTree(adj: Graph<Node>, color: map<Node, Color>, stack: Stack, path: seq<Node>, cycles: seq<seq<string>>,
                 fin: map<Node, nat>, rec: map<Edge, seq<Node>>, tree: set<Edge>, node: Node, idx: int)
    requires DfsState(adj, color, stack, path, cycles, fin, rec) && stack != []
    requires TreeState(adj, color, stack, path, cycles, rec, tree)
    requires stack[|stack| - 1] == (node, idx) && 0 <= idx < |Neighbors(adj, node)|
    requires ColorOf(color, Neighbors(adj, node)[idx]) == White
    ensures var nxt := Neighbors(adj, node)[idx];
            TreeState(adj, color[nxt := Grey], stack[|stack| - 1 := (node, idx + 1)] + [(nxt, 0)], path + [nxt],
                      cycles, rec, tree + {(node, nxt)})
    ensures Neighbors(adj, node)[idx] in Succ(adj, node)
  {
    assert Neighbors(adj, node)[idx] in Neighbors(adj, node);
    hide TreeState, StackMatchesPath, FinishedAreBlack, BlackEdgesSettled, CyclesJustified, Neighbors, Linked,
      GreyEdgesSettled;
    forall n | n in path ensures n in color { assert ColorOf(color, n) == Grey; }
    TreePush(adj, color, stack, path, cycles, rec, tree, node, idx);
  }

  lemma FinishTree(adj: Graph<Node>, color: map<Node, Color>, stack: Stack, path: seq<Node>, cycles: seq<seq<string>>,
                   fin: map<Node, nat>, rec: map<Edge, seq<Node>>, tree: set<Edge>, node: Node)
    requires DfsState(adj, color, stack, path, cycles, fin, rec) && stack != []
    requires TreeState(adj, color, stack, path, cycles, rec, tree)
    requires stack[|stack| - 1].0 == node
    ensures TreeState(adj, color[node := Black], stack[..|stack| - 1], path[..|path| - 1], cycles, rec, tree)
    ensures path[|path| - 1] == node && node !in fin
  {
    assert path[|path| - 1] == node;
    assert node in path && ColorOf(color, node) == Grey;
    hide TreeState, BlackEdgesSettled, CyclesJustified, Neighbors, Linked, GreyEdgesSettled;
    TreeFinish(adj, color, stack, path, cycles, rec, tree, node);
  }

  lemma StartKnown(adj: Graph<Node>, start: Node)
    requires start in adj
    ensures start in AllNodes(adj)
  {
  }

  lemma NeighborKnown(adj: Graph<Node>, node: Node, idx: int)
    requires 0 <= idx < |Neighbors(adj, node)|
    ensures Neighbors(adj, node)[idx] in AllNodes(adj)
  {
    assert Neighbors(adj, node)[idx] in Neighbors(adj, node);
  }

  lemma ColorOfAbsent(color: map<Node, Color>, n: Node)
    ensures n !in color ==> ColorOf(color, n) == White
  {
  }

  // ---------- the whole search ----------

  /** No smaller node of the dictionary reaches `s`, so the search enters the component of `s` there. */
  ghost predicate EntersFirst(adj: Graph<Node>, s: Node) {
    s in adj && forall t | t in adj && KeyLess(NodeOrder(t), NodeOrder(s)) :: !Reaches(adj, t, s)
  }

  /** Tree edges are edges of the graph between finished nodes, and every finished node was entered
      by one or is a start, which no smaller node of the dictionary reaches. */
  ghost predicate TreeSpans(adj: Graph<Node>, fin: map<Node, nat>, tree: set<Edge>) {
    && (forall t | t in tree :: t.1 in Succ(adj, t.0) && t.0 in fin)
    && (forall n | n in fin :: EntersFirst(adj, n) || HasParent(tree, n))
  }

  ghost predicate FinishesLast(adj: Graph<Node>, fin: map<Node, nat>, s: Node) {
    s in fin && forall v | StronglyConnected(adj, s, v) :: v in fin && fin[v] <= fin[s]
  }

  ghost predicate AllMeetingsOk(adj: Graph<Node>, fin: map<Node, nat>, tree: set<Edge>, met: map<Node, Meeting>) {
    && (forall n :: n in met <==> n in fin)
    && (forall n | n in met :: MeetingOk(adj, tree, met, n))
  }

  /** What a finished search leaves: finishing numbers `fin`, the cycle of every back edge
      `rec`, and the tree edges, together with the lists it reported. */
  ghost predicate IsSearch(adj: Graph<Node>, cycles: seq<seq<string>>, fin: map<Node, nat>,
                           rec: map<Edge, seq<Node>>, tree: set<Edge>)
  {
    && (forall n | n in adj :: n in fin)
    && BlackEdgesSettled(adj, fin, rec)
    && CyclesJustified(adj, cycles, rec)
    && BackEdges(cycles, rec, tree)
    && TreeSpans(adj, fin, tree)
    && (forall s | EntersFirst(adj, s) :: FinishesLast(adj, fin, s))
    && (exists met :: AllMeetingsOk(adj, fin, tree, met))
  }

  /** What holds between two starts. */
  ghost predicate Between(adj: Graph<Node>, starts: seq<Node>, k: nat, color: map<Node, Color>, fin: map<Node, nat>)
    requires k <= |starts|
  {
    && (forall n | n in fin :: ReachedFrom(adj, Elements(starts[..k]), n))
    && (forall i | 0 <= i < k :: starts[i] in color)
    && (forall i | 0 <= i < k && EntersFirst(adj, starts[i]) :: FinishesLast(adj, fin, starts[i]))
  }

  /** A start that is still white: no smaller node of the dictionary reaches it. */
  lemma WhiteStartIsFirst(adj: Graph<Node>, starts: seq<Node>, k: nat, fin0: map<Node, nat>, rec0: map<Edge, seq<Node>>)
    requires k < |starts| && StrictlySorted(NodeOrder, starts) && forall x :: x in starts <==> x in adj.Keys
    requires BlackEdgesSettled(adj, fin0, rec0) && (forall e | e in rec0 :: e.1 in fin0)
    requires (forall i | 0 <= i < k :: starts[i] in fin0) && starts[k] !in fin0
    ensures EntersFirst(adj, starts[k])
  {
    hide BlackEdgesSettled, IsWalk;
    forall t | t in adj && KeyLess(NodeOrder(t), NodeOrder(starts[k])) ensures !Reaches(adj, t, starts[k]) {
      assert t in starts;
      var i :| 0 <= i < |starts| && starts[i] == t;
      SmallerIsEarlier(starts, i, k);
      if w :| WalkFromTo(adj, t, starts[k], w) { FinishedIsClosed(adj, fin0, rec0, w); }
    }
    assert starts[k] in starts;
  }

  lemma SmallerIsEarlier(starts: seq<Node>, i: nat, k: nat)
    requires i < |starts| && k < |starts| && StrictlySorted(NodeOrder, starts)
    requires KeyLess(NodeOrder(starts[i]), NodeOrder(starts[k]))
    ensures i < k
  {
    var a, b := NodeOrder(starts[i]), NodeOrder(starts[k]);
    KeyIrreflexive(a);
    if k < i { KeyTransitive(a, b, a); }
  }

  lemma SpansAfterExplore(adj: Graph<Node>, start: Node, fin0: map<Node, nat>, fin: map<Node, nat>, tree0: set<Edge>,
                          tree: set<Edge>)
    requires TreeSpans(adj, fin0, tree0) && TreeGrows(adj, start, [], fin, fin0, tree, tree0) && EntersFirst(adj, start)
    ensures TreeSpans(adj, fin, tree)
  {
    hide EntersFirst, Succ;
    forall n | n in fin ensures EntersFirst(adj, n) || HasParent(tree, n) {
      if n in fin0 && HasParent(tree0, n) {
        var p :| (p, n) in tree0;
        assert (p, n) in tree;
      }
    }
  }

  /** Every start is black when the path is empty, and so is everything it reaches. */
  lemma {:induction false} FinishedIsClosed(adj: Graph<Node>, fin: map<Node, nat>, rec: map<Edge, seq<Node>>,
                                            w: seq<Node>)
    requires BlackEdgesSettled(adj, fin, rec) && IsWalk(adj, w) && w[0] in fin
    requires forall e | e in rec :: e.1 in fin
    ensures w[|w| - 1] in fin
  {
    if |w| > 1 {
      SubWalk(adj, w, 0, |w| - 1);
      FinishedIsClosed(adj, fin, rec, w[0..|w| - 1]);
      assert EdgeAt(adj, w, |w| - 2);
      assert SettledBefore(fin, rec, w[|w| - 2], w[|w| - 1]);
    }
  }

  lemma MetIsFinished(adj: Graph<Node>, color: map<Node, Color>, cycles: seq<seq<string>>, fin: map<Node, nat>,
                      rec: map<Edge, seq<Node>>, tree: set<Edge>)
    requires DfsState(adj, color, [], [], cycles, fin, rec) && TreeState(adj, color, [], [], cycles, rec, tree)
    ensures forall n | n in color :: n in fin
    ensures forall e | e in rec :: e.1 in fin
    ensures BlackEdgesSettled(adj, fin, rec) && forall n | n in fin :: fin[n] < |fin|
  {
    hide StackState, BlackEdgesSettled, CyclesJustified, PathInTree, EnteredFromPath, LookedAt, BackEdges;
    forall n | n in color ensures n in fin {
      assert n !in [];
      assert ColorOf(color, n) != Grey;
    }
  }

  /** A start that no earlier start reaches finishes after its whole component. */
  lemma StartFinishesLast(adj: Graph<Node>, starts: seq<Node>, k: nat, fin0: map<Node, nat>, fin: map<Node, nat>,
                          rec: map<Edge, seq<Node>>)
    requires k < |starts| && FromStart(adj, starts[k], [], fin, fin0)
    requires BlackEdgesSettled(adj, fin, rec)
    requires (forall e | e in rec :: e.1 in fin) && forall n | n in fin :: fin[n] < |fin|
    ensures FinishesLast(adj, fin, starts[k])
  {
    hide BlackEdgesSettled, IsWalk;
    var s := starts[k];
    forall v | StronglyConnected(adj, s, v) ensures v in fin && fin[v] <= fin[s] {
      var w :| WalkFromTo(adj, s, v, w);
      FinishedIsClosed(adj, fin, rec, w);
    }
  }

  lemma FinishesLastStays(adj: Graph<Node>, s: Node, fin0: map<Node, nat>, fin: map<Node, nat>)
    requires FinishesLast(adj, fin0, s) && forall n | n in fin0 :: n in fin && fin[n] == fin0[n]
    ensures FinishesLast(adj, fin, s)
  {
    hide StronglyConnected;
  }

  lemma MoreStarts(adj: Graph<Node>, starts: seq<Node>, k: nat, n: Node)
    requires k < |starts|
    ensures ReachedFrom(adj, Elements(starts[..k]), n) ==> ReachedFrom(adj, Elements(starts[..k + 1]), n)
    ensures Reaches(adj, starts[k], n) ==> ReachedFrom(adj, Elements(starts[..k + 1]), n)
  {
    hide Reaches;
    assert starts[..k + 1] == starts[..k] + [starts[k]];
  }

  lemma BetweenAfterExplore(adj: Graph<Node>, starts: seq<Node>, k: nat, color0: map<Node, Color>,
                            color: map<Node, Color>,
                            fin0: map<Node, nat>, fin: map<Node, nat>, rec: map<Edge, seq<Node>>)
    requires k < |starts| && Between(adj, starts, k, color0, fin0) && FromStart(adj, starts[k], [], fin, fin0)
    requires BlackEdgesSettled(adj, fin, rec)
    requires (forall e | e in rec :: e.1 in fin) && forall n | n in fin :: fin[n] < |fin|
    requires color0.Keys + {starts[k]} <= color.Keys
    ensures Between(adj, starts, k + 1, color, fin)
  {
    StartFinishesLast(adj, starts, k, fin0, fin, rec);
    hide BlackEdgesSettled, Reaches, ReachedFrom, EntersFirst, FinishesLast, Elements;
    forall n | n in fin ensures ReachedFrom(adj, Elements(starts[..k + 1]), n) { MoreStarts(adj, starts, k, n); }
    forall i | 0 <= i < k + 1 && EntersFirst(adj, starts[i]) ensures FinishesLast(adj, fin, starts[i]) {
      if i < k { FinishesLastStays(adj, starts[i], fin0, fin); }
    }
  }

  /** A start that is black already was reached from a smaller one. */
  lemma BlackStartIsNotFirst(adj: Graph<Node>, starts: seq<Node>, k: nat)
    requires k < |starts| && ReachedFrom(adj, Elements(starts[..k]), starts[k])
    requires StrictlySorted(NodeOrder, starts) && forall i | 0 <= i < |starts| :: starts[i] in adj
    ensures !EntersFirst(adj, starts[k])
  {
    hide Reaches;
    var r :| r in Elements(starts[..k]) && Reaches(adj, r, starts[k]);
    var i :| 0 <= i < k && starts[i] == r;
    assert KeyLess(NodeOrder(starts[i]), NodeOrder(starts[k]));
  }

  lemma BetweenAfterSkip(adj: Graph<Node>, starts: seq<Node>, k: nat, color: map<Node, Color>, fin: map<Node, nat>)
    requires k < |starts| && Between(adj, starts, k, color, fin) && starts[k] in color && starts[k] in fin
    requires StrictlySorted(NodeOrder, starts) && forall i | 0 <= i < |starts| :: starts[i] in adj
    ensures Between(adj, starts, k + 1, color, fin)
  {
    hide Reaches, ReachedFrom, FinishesLast, EntersFirst, Elements, StrictlySorted;
    BlackStartIsNotFirst(adj, starts, k);
    forall n | n in fin ensures ReachedFrom(adj, Elements(starts[..k + 1]), n) { MoreStarts(adj, starts, k, n); }
  }

  /** One start after the other, in sorted order. */
  method FindCycles(adj: Graph<Node>) returns (cycles: seq<seq<string>>, ghost fin: map<Node, nat>,
                                               ghost rec: map<Edge, seq<Node>>, ghost tree: set<Edge>)
    ensures NoDuplicates(cycles)
    ensures forall c | c in cycles :: NamesSimpleCycle(adj, c)
    ensures forall w | IsClosedWalk(adj, w) :: ReportedNear(adj, cycles, w)
    ensures IsSearch(adj, cycles, fin, rec, tree)
    ensures forall c, i | c in cycles && 0 <= i < |c| - 1 :: NamesEdge(adj, c[i], c[i + 1])
    ensures forall e | e in rec :: IsReport(adj, cycles, e, rec[e])
    ensures forall c | c in cycles :: exists e :: e in rec && Spells(rec[e], c)
  {
    hide *;
    var color: map<Node, Color> := map[];
    cycles := [];
    fin, rec, tree := map[], map[], {};
    ghost var met: map<Node, Meeting> := map[];
    var starts := SortNodes(adj.Keys);
    InitialState(adj);
    InitialTree(adj, starts);
    StartsAscend(adj);
    for k := 0 to |starts|
      invariant DfsState(adj, color, [], [], cycles, fin, rec)
      invariant TreeState(adj, color, [], [], cycles, rec, tree)
      invariant color.Keys <= AllNodes(adj)
      invariant Between(adj, starts, k, color, fin) && TreeSpans(adj, fin, tree)
      invariant MetState(adj, [], fin, tree, met)
    {
      var start := starts[k];
      assert start in adj.Keys;
      ColorOfAbsent(color, start);
      if ColorOf(color, start) == White {
        ghost var color0, fin0, tree0 := color, fin, tree;
        StartIsFirst(adj, starts, k, color, cycles, fin, rec, tree);
        SpanningEdges(adj, fin, tree);
        BothStates(adj, color, cycles, fin, rec, tree);
        color, cycles, fin, rec, tree, met := Explore(adj, start, color, cycles, fin, rec, tree, met);
        SearchParted(adj, start, color, cycles, fin, fin0, rec, tree, tree0, met);
        MetIsFinished(adj, color, cycles, fin, rec, tree);
        BetweenAfterExplore(adj, starts, k, color0, color, fin0, fin, rec);
        SpansAfterExplore(adj, start, fin0, fin, tree0, tree);
      } else {
        MetIsFinished(adj, color, cycles, fin, rec, tree);
        BetweenAfterSkip(adj, starts, k, color, fin);
      }
    }
    SearchIsOver(adj, starts, color, cycles, fin, rec, tree, met);
    SearchIsComplete(adj, cycles, fin, rec, tree);
    ListsAreSpelled(adj, cycles, fin, rec, tree);
  }

  /** Two names are those of the ends of an edge, in its direction. */
  ghost predicate NamesEdge(adj: Graph<Node>, a: string, b: string) {
    exists u, v :: v in Succ(adj, u) && u.name == a && v.name == b
  }

  /** `w` is a simple cycle that takes the edge `e` last, and its names are a list of the report. */
  ghost predicate IsReport(adj: Graph<Node>, cycles: seq<seq<string>>, e: Edge, w: seq<Node>) {
    && IsSimpleCycle(adj, w) && w[|w| - 2] == e.0 && w[|w| - 1] == e.1
    && exists c :: c in cycles && Spells(w, c)
  }

  lemma SpelledEdge(adj: Graph<Node>, c: seq<string>, i: nat)
    requires NamesSimpleCycle(adj, c) && i < |c| - 1
    ensures NamesEdge(adj, c[i], c[i + 1])
  {
    var w :| IsSimpleCycle(adj, w) && Spells(w, c);
    assert EdgeAt(adj, w, i);
  }

  /** What the lists say, name by name. */
  lemma ListsAreSpelled(adj: Graph<Node>, cycles: seq<seq<string>>, fin: map<Node, nat>, rec: map<Edge, seq<Node>>,
                        tree: set<Edge>)
    requires IsSearch(adj, cycles, fin, rec, tree)
    ensures forall c, i | c in cycles && 0 <= i < |c| - 1 :: NamesEdge(adj, c[i], c[i + 1])
    ensures forall e | e in rec :: IsReport(adj, cycles, e, rec[e])
    ensures forall c | c in cycles :: exists e :: e in rec && Spells(rec[e], c)
  {
    hide BlackEdgesSettled, TreeSpans, EntersFirst, FinishesLast, AllMeetingsOk, AlongTree, NoDuplicates;
    forall c, i | c in cycles && 0 <= i < |c| - 1 ensures NamesEdge(adj, c[i], c[i + 1]) {
      assert NamesSimpleCycle(adj, c);
      SpelledEdge(adj, c, i);
    }
    forall e | e in rec ensures IsReport(adj, cycles, e, rec[e]) {
      assert Reported(adj, cycles, e, rec[e]) && Spells(rec[e], Names(rec[e]));
    }
    forall c | c in cycles ensures exists e :: e in rec && Spells(rec[e], c) {
      assert ListedFrom(rec, c);
      var e :| e in rec && Names(rec[e]) == c;
      assert Spells(rec[e], c);
    }
  }

  lemma StartIsFirst(adj: Graph<Node>, starts: seq<Node>, k: nat, color: map<Node, Color>, cycles: seq<seq<string>>,
                     fin: map<Node, nat>, rec: map<Edge, seq<Node>>, tree: set<Edge>)
    requires DfsState(adj, color, [], [], cycles, fin, rec) && TreeState(adj, color, [], [], cycles, rec, tree)
    requires k < |starts| && Between(adj, starts, k, color, fin) && ColorOf(color, starts[k]) == White
    requires StrictlySorted(NodeOrder, starts) && forall x :: x in starts <==> x in adj.Keys
    ensures EntersFirst(adj, starts[k]) && forall t | t in adj && Smaller(t, starts[k]) :: t in fin
  {
    MetIsFinished(adj, color, cycles, fin, rec, tree);
    hide StackState, TreeState, CyclesJustified, BlackEdgesSettled, EntersFirst, FinishesLast, ReachedFrom,
      StrictlySorted;
    WhiteStartIsFirst(adj, starts, k, fin, rec);
    forall t | t in adj && Smaller(t, starts[k]) ensures t in fin {
      assert t in starts;
      var i :| 0 <= i < |starts| && starts[i] == t;
      SmallerIsEarlier(starts, i, k);
    }
  }

  lemma SpanningEdges(adj: Graph<Node>, fin: map<Node, nat>, tree: set<Edge>)
    requires TreeSpans(adj, fin, tree)
    ensures forall t | t in tree :: t.1 in Succ(adj, t.0) && t.0 in fin
  {
    hide EntersFirst, HasParent;
  }

  lemma BothStates(adj: Graph<Node>, color: map<Node, Color>, cycles: seq<seq<string>>, fin: map<Node, nat>,
                   rec: map<Edge, seq<Node>>, tree: set<Edge>)
    requires DfsState(adj, color, [], [], cycles, fin, rec) && TreeState(adj, color, [], [], cycles, rec, tree)
    ensures SearchState(adj, color, [], [], cycles, fin, rec, tree)
  {
    hide DfsState, TreeState;
  }

  lemma SearchParted(adj: Graph<Node>, start: Node, color: map<Node, Color>, cycles: seq<seq<string>>,
                     fin: map<Node, nat>, fin0: map<Node, nat>, rec: map<Edge, seq<Node>>, tree: set<Edge>,
                     tree0: set<Edge>, met: map<Node, Meeting>)
    requires SearchState(adj, color, [], [], cycles, fin, rec, tree)
    requires StartState(adj, start, [], fin, fin0, tree, tree0, met)
    ensures DfsState(adj, color, [], [], cycles, fin, rec) && TreeState(adj, color, [], [], cycles, rec, tree)
    ensures FromStart(adj, start, [], fin, fin0) && TreeGrows(adj, start, [], fin, fin0, tree, tree0)
    ensures MetState(adj, [], fin, tree, met)
  {
    hide DfsState, TreeState, FromStart, TreeGrows, MetState;
  }

  lemma InitialTree(adj: Graph<Node>, starts: seq<Node>)
    ensures TreeState(adj, map[], [], [], [], map[], {}) && Between(adj, starts, 0, map[], map[])
    ensures TreeSpans(adj, map[], {}) && MetState(adj, [], map[], {}, map[])
  {
  }

  lemma StartsAscend(adj: Graph<Node>)
    ensures StrictlySorted(NodeOrder, SortNodes(adj.Keys))
  {
    NodeOrderInjective(adj.Keys);
    assert StrictlySorted(NodeOrder, Sorted(NodeOrder, adj.Keys));
  }

  lemma SearchIsOver(adj: Graph<Node>, starts: seq<Node>, color: map<Node, Color>, cycles: seq<seq<string>>,
                     fin: map<Node, nat>, rec: map<Edge, seq<Node>>, tree: set<Edge>, met: map<Node, Meeting>)
    requires DfsState(adj, color, [], [], cycles, fin, rec) && TreeState(adj, color, [], [], cycles, rec, tree)
    requires Between(adj, starts, |starts|, color, fin) && forall x :: x in starts <==> x in adj.Keys
    requires TreeSpans(adj, fin, tree) && MetState(adj, [], fin, tree, met)
    ensures IsSearch(adj, cycles, fin, rec, tree)
  {
    hide *;
    MetIsFinished(adj, color, cycles, fin, rec, tree);
    JustifiedReports(adj, color, cycles, fin, rec, tree);
    EveryStart(adj, starts, color, fin);
    MeetingsAre(adj, fin, tree, met);
    SearchOf(adj, cycles, fin, rec, tree, met);
  }

  lemma EveryStart(adj: Graph<Node>, starts: seq<Node>, color: map<Node, Color>, fin: map<Node, nat>)
    requires Between(adj, starts, |starts|, color, fin) && forall x :: x in starts <==> x in adj.Keys
    requires forall n | n in color :: n in fin
    ensures forall n | n in adj :: n in fin
    ensures forall s | EntersFirst(adj, s) :: FinishesLast(adj, fin, s)
  {
    hide EntersFirst, FinishesLast, ReachedFrom;
    forall s | EntersFirst(adj, s) ensures FinishesLast(adj, fin, s) {
      FirstIsKey(adj, s);
      var i :| 0 <= i < |starts| && starts[i] == s;
    }
    forall n | n in adj ensures n in fin {
      var i :| 0 <= i < |starts| && starts[i] == n;
    }
  }

  lemma MeetingsAre(adj: Graph<Node>, fin: map<Node, nat>, tree: set<Edge>, met: map<Node, Meeting>)
    requires MetState(adj, [], fin, tree, met)
    ensures AllMeetingsOk(adj, fin, tree, met)
  {
    hide MeetingOk;
  }

  lemma SearchOf(adj: Graph<Node>, cycles: seq<seq<string>>, fin: map<Node, nat>, rec: map<Edge, seq<Node>>,
                 tree: set<Edge>, met: map<Node, Meeting>)
    requires BlackEdgesSettled(adj, fin, rec) && CyclesJustified(adj, cycles, rec)
    requires BackEdges(cycles, rec, tree) && TreeSpans(adj, fin, tree) && forall n | n in adj :: n in fin
    requires forall s | EntersFirst(adj, s) :: FinishesLast(adj, fin, s)
    requires AllMeetingsOk(adj, fin, tree, met)
    ensures IsSearch(adj, cycles, fin, rec, tree)
  {
    hide BlackEdgesSettled, CyclesJustified, BackEdges, TreeSpans, EntersFirst, FinishesLast, AllMeetingsOk;
  }

  lemma JustifiedReports(adj: Graph<Node>, color: map<Node, Color>, cycles: seq<seq<string>>, fin: map<Node, nat>,
                         rec: map<Edge, seq<Node>>, tree: set<Edge>)
    requires DfsState(adj, color, [], [], cycles, fin, rec) && TreeState(adj, color, [], [], cycles, rec, tree)
    ensures CyclesJustified(adj, cycles, rec) && BackEdges(cycles, rec, tree)
  {
    hide StackState, ColorState, BlackEdgesSettled, CyclesJustified, BackEdges, PathInTree, EnteredFromPath, LookedAt,
      AllMet;
  }

  lemma FirstIsKey(adj: Graph<Node>, s: Node)
    requires EntersFirst(adj, s)
    ensures s in adj
  {
    hide Reaches;
  }

  lemma {:induction false} FinishingOrderFalls(fin: map<Node, nat>, w: seq<Node>)
    requires w != [] && (forall i | 0 <= i < |w| :: w[i] in fin)
    requires forall i | 0 <= i < |w| - 1 :: fin[w[i + 1]] < fin[w[i]]
    ensures fin[w[|w| - 1]] <= fin[w[0]] - (|w| - 1)
  {
    if |w| > 1 {
      var p := w[..|w| - 1];
      forall i | 0 <= i < |p| - 1 ensures fin[p[i + 1]] < fin[p[i]] {
        assert p[i] == w[i] && p[i + 1] == w[i + 1];
      }
      FinishingOrderFalls(fin, p);
      assert w[|w| - 2 + 1] == w[|w| - 1];
      assert p[|p| - 1] == w[|w| - 2];
    }
  }

  /** Some edge of every closed walk closed a reported cycle: finishing numbers
      cannot fall all the way round. */
  lemma ClosedWalkHasBackEdge(adj: Graph<Node>, fin: map<Node, nat>, rec: map<Edge, seq<Node>>, w: seq<Node>)
    returns (i: nat)
    requires BlackEdgesSettled(adj, fin, rec) && IsClosedWalk(adj, w)
    requires forall n | n in adj :: n in fin
    ensures i < |w| - 1 && (w[i], w[i + 1]) in rec
  {
    if k :| 0 <= k < |w| - 1 && (w[k], w[k + 1]) in rec {
      i := k;
    } else {
      forall k | 0 <= k < |w| ensures w[k] in fin {
        if k < |w| - 1 { assert EdgeAt(adj, w, k); } else { assert EdgeAt(adj, w, 0); }
      }
      forall k | 0 <= k < |w| - 1 ensures fin[w[k + 1]] < fin[w[k]] {
        assert EdgeAt(adj, w, k);
        assert SettledBefore(fin, rec, w[k], w[k + 1]);
      }
      FinishingOrderFalls(fin, w);
      assert false;
    }
  }

  lemma ReportedIsNear(adj: Graph<Node>, cycles: seq<seq<string>>, w: seq<Node>, c: seq<Node>, i: nat)
    requires IsClosedWalk(adj, w) && i < |w| - 1 && Reported(adj, cycles, (w[i], w[i + 1]), c)
    ensures ReportedNear(adj, cycles, w)
  {
    assert Spells(c, Names(c));
    forall x, y | x in c && y in w ensures StronglyConnected(adj, x, y) {
      var j :| 0 <= j < |c| && c[j] == x;
      var k :| 0 <= k < |w| && w[k] == y;
      ClosedWalkConnected(adj, c, j, |c| - 2);
      ClosedWalkConnected(adj, w, i, k);
      ReachesTransitive(adj, x, w[i], y);
      ReachesTransitive(adj, y, w[i], x);
    }
  }

  /** A finished search is complete: every closed walk has a reported cycle in its component. */
  lemma SearchIsComplete(adj: Graph<Node>, cycles: seq<seq<string>>, fin: map<Node, nat>, rec: map<Edge, seq<Node>>,
                         tree: set<Edge>)
    requires IsSearch(adj, cycles, fin, rec, tree)
    ensures NoDuplicates(cycles)
    ensures forall c | c in cycles :: NamesSimpleCycle(adj, c)
    ensures forall w | IsClosedWalk(adj, w) :: ReportedNear(adj, cycles, w)
  {
    hide IsClosedWalk, ReportedNear, BackEdges, EntersFirst, FinishesLast;
    forall w | IsClosedWalk(adj, w) ensures ReportedNear(adj, cycles, w) {
      var i := ClosedWalkHasBackEdge(adj, fin, rec, w);
      ReportedIsNear(adj, cycles, w, rec[(w[i], w[i + 1])], i);
    }
  }

  /** No report means no cycle, and only then. */
  lemma EmptyReportMeansAcyclic(adj: Graph<Node>, cycles: seq<seq<string>>)
    requires forall c | c in cycles :: NamesSimpleCycle(adj, c)
    requires forall w | IsClosedWalk(adj, w) :: ReportedNear(adj, cycles, w)
    ensures cycles == [] <==> Acyclic(adj)
  {
    if cycles == [] {
      forall w: seq<Node> ensures !IsClosedWalk(adj, w) {
        assert IsClosedWalk(adj, w) ==> ReportedNear(adj, cycles, w);
      }
    } else {
      assert NamesSimpleCycle(adj, cycles[0]);
    }
  }
}
