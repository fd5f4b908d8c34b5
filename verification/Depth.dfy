/** The bounded longest-path measure of the dependency graph. */
module Depth {
  import opened Digraphs
  import opened Models
  import opened Orders

  /** A walk that starts at a root; its length is the number of its edges. */
  ghost predicate RootWalk(adj: Graph<Node>, roots: set<Node>, w: seq<Node>) {
    IsWalk(adj, w) && w[0] in roots
  }

  ghost predicate WalkTo(adj: Graph<Node>, roots: set<Node>, v: Node, d: int, w: seq<Node>) {
    RootWalk(adj, roots, w) && w[|w| - 1] == v && |w| == d + 1
  }

  /** `v` ends a walk of `d` edges from a root. */
  ghost predicate HasWalk(adj: Graph<Node>, roots: set<Node>, v: Node, d: int) {
    exists w :: WalkTo(adj, roots, v, d, w)
  }

  /** Every recorded distance is the length of some walk from a root. */
  ghost predicate Sound(adj: Graph<Node>, roots: set<Node>, dist: map<Node, int>) {
    forall v | v in dist :: HasWalk(adj, roots, v, dist[v])
  }

  /** `v` is at least `d` away, as far as the cap lets distances count. */
  ghost predicate AtLeast(dist: map<Node, int>, v: Node, d: int, cap: nat) {
    v in dist && dist[v] >= Min(d, cap)
  }

  /** Every edge out of `u` has been relaxed against `u`'s current distance. */
  ghost predicate Relaxed(adj: Graph<Node>, dist: map<Node, int>, u: Node, cap: nat)
    requires u in dist
  {
    forall v | v in Succ(adj, u) :: AtLeast(dist, v, dist[u] + 1, cap)
  }

  /** Walks of at most `k` edges are accounted for. */
  ghost predicate Covered(adj: Graph<Node>, roots: set<Node>, dist: map<Node, int>, k: int, cap: nat) {
    forall w | RootWalk(adj, roots, w) && |w| - 1 <= k :: AtLeast(dist, w[|w| - 1], |w| - 1, cap)
  }

  ghost predicate Grown(old_: map<Node, int>, new_: map<Node, int>) {
    forall v | v in old_ :: v in new_ && new_[v] >= old_[v]
  }

  /** `depth` is the greatest recorded distance (0 when there is none). */
  ghost predicate IsMaximum(dist: map<Node, int>, depth: int) {
    && (forall v | v in dist :: dist[v] <= depth)
    && (dist == map[] ==> depth == 0)
    && (dist != map[] ==> exists v :: v in dist && dist[v] == depth)
  }

  lemma WalkExtends(adj: Graph<Node>, roots: set<Node>, u: Node, v: Node, d: int)
    requires HasWalk(adj, roots, u, d) && v in Succ(adj, u)
    ensures HasWalk(adj, roots, v, d + 1)
  {
    var w :| WalkTo(adj, roots, u, d, w);
    WalkSnoc(adj, w, v);
    assert WalkTo(adj, roots, v, d + 1, w + [v]);
  }

  lemma SoundUpdate(adj: Graph<Node>, roots: set<Node>, dist: map<Node, int>, u: Node, v: Node, nd: int)
    requires Sound(adj, roots, dist) && HasWalk(adj, roots, u, nd - 1) && v in Succ(adj, u)
    ensures Sound(adj, roots, dist[v := nd])
  {
    WalkExtends(adj, roots, u, v, nd - 1);
  }

  lemma PrefixWalk(adj: Graph<Node>, roots: set<Node>, w: seq<Node>, n: nat)
    requires RootWalk(adj, roots, w) && 0 < n <= |w|
    ensures RootWalk(adj, roots, w[..n])
  {
    SubWalk(adj, w, 0, n);
    assert w[0..n] == w[..n];
  }

  /** Only nodes of `nxt` changed their distance. */
  ghost predicate OnlyQueuedChanged(before: map<Node, int>, after: map<Node, int>, nxt: set<Node>) {
    forall v | v in after && (v !in before || after[v] != before[v]) :: v in nxt
  }

  /** Part way through a round: `done` is the part of the frontier already processed. */
  ghost predicate MidRound(adj: Graph<Node>, roots: set<Node>, cap: nat, frontier: set<Node>, done: set<Node>,
                           before: map<Node, int>, dist: map<Node, int>, nxt: set<Node>)
  {
    && frontier <= before.Keys && done <= frontier && nxt <= dist.Keys
    && Grown(before, dist) && OnlyQueuedChanged(before, dist, nxt) && Sound(adj, roots, dist)
    && (forall u | u in dist && u !in nxt && u !in frontier - done :: Relaxed(adj, dist, u, cap))
    && (forall u, v | u in done && v in Succ(adj, u) :: AtLeast(dist, v, before[u] + 1, cap))
  }

  lemma MidRoundStep(adj: Graph<Node>, roots: set<Node>, cap: nat, frontier: set<Node>, done: set<Node>,
                     before: map<Node, int>, dist: map<Node, int>, nxt: set<Node>, node: Node,
                     dist': map<Node, int>, nxt': set<Node>)
    requires MidRound(adj, roots, cap, frontier, done, before, dist, nxt) && node in frontier && node in dist
    requires Sound(adj, roots, dist') && nxt <= nxt' <= dist'.Keys
    requires Grown(dist, dist') && OnlyQueuedChanged(dist, dist', nxt')
    requires forall v | v in Succ(adj, node) :: AtLeast(dist', v, dist[node] + 1, cap)
    ensures MidRound(adj, roots, cap, frontier, done + {node}, before, dist', nxt')
  {
    hide Sound;
  }

  /** An offer is taken unless the neighbour has as much already, and spoils nothing. */
  lemma Offered(dist: map<Node, int>, neighbor: Node, nd: int, cap: nat)
    ensures neighbor !in dist || (nd > dist[neighbor] && dist[neighbor] < cap) ==>
              AtLeast(dist[neighbor := nd], neighbor, nd, cap) && Grown(dist, dist[neighbor := nd])
              && forall v | AtLeast(dist, v, nd, cap) :: AtLeast(dist[neighbor := nd], v, nd, cap)
    ensures neighbor in dist && !(nd > dist[neighbor] && dist[neighbor] < cap) ==> AtLeast(dist, neighbor, nd, cap)
  {
  }

  /** Offers `dist[node] + 1` to every neighbour of one frontier node, in sorted order. */
  method RelaxNode(adj: Graph<Node>, ghost roots: set<Node>, cap: nat, ghost frontier: set<Node>, ghost done: set<Node>,
                   ghost before: map<Node, int>, node: Node, dist: map<Node, int>, nxt: set<Node>)
    returns (dist': map<Node, int>, nxt': set<Node>)
    requires MidRound(adj, roots, cap, frontier, done, before, dist, nxt) && node in frontier
    ensures MidRound(adj, roots, cap, frontier, done + {node}, before, dist', nxt') && nxt' <= dist'.Keys
  {
    var nd := dist[node] + 1;
    dist', nxt' := dist, nxt;
    var neighbors := SortNodes(Succ(adj, node));
    for j := 0 to |neighbors|
      invariant Sound(adj, roots, dist') && nxt <= nxt' <= dist'.Keys
      invariant Grown(dist, dist') && OnlyQueuedChanged(dist, dist', nxt')
      invariant forall k | 0 <= k < j :: AtLeast(dist', neighbors[k], nd, cap)
    {
      hide Sound, HasWalk, MidRound, AtLeast;
      var neighbor := neighbors[j];
      Offered(dist', neighbor, nd, cap);
      if neighbor !in dist' || (nd > dist'[neighbor] && dist'[neighbor] < cap) {
        SoundUpdate(adj, roots, dist', node, neighbor, nd);
        dist' := dist'[neighbor := nd];
        nxt' := nxt' + {neighbor};
      }
    }
    MidRoundStep(adj, roots, cap, frontier, done, before, dist, nxt, node, dist', nxt');
  }

  /** One pass over the frontier: every neighbour that a frontier node pushes
      further out is updated at once and queued for the next round. */
  method RelaxRound(adj: Graph<Node>, ghost roots: set<Node>, cap: nat, frontier: set<Node>, before: map<Node, int>)
    returns (dist: map<Node, int>, nxt: set<Node>)
    requires MidRound(adj, roots, cap, frontier, {}, before, before, {})
    ensures MidRound(adj, roots, cap, frontier, frontier, before, dist, nxt) && nxt <= dist.Keys
  {
    hide *;
    dist := before;
    nxt := {};
    var order := SortNodes(frontier);
    ghost var done: set<Node> := {};
    for i := 0 to |order|
      invariant forall k | 0 <= k < |order| :: order[k] in frontier
      invariant forall x | x in frontier :: x in order[..i] <==> x in done
      invariant done <= frontier && nxt <= dist.Keys && MidRound(adj, roots, cap, frontier, done, before, dist, nxt)
    {
      var node := order[i];
      var dist', nxt' := RelaxNode(adj, roots, cap, frontier, done, before, node, dist, nxt);
      done := done + {node};
      dist, nxt := dist', nxt';
      assert order[..i + 1] == order[..i] + [node];
    }
    assert order[..|order|] == order;
    assert done == frontier;
  }

  lemma RoundCovers(adj: Graph<Node>, roots: set<Node>, cap: nat, frontier: set<Node>,
                    before: map<Node, int>, after: map<Node, int>, nxt: set<Node>, k: nat)
    requires Covered(adj, roots, before, k, cap)
    requires forall u | u in before && u !in frontier :: Relaxed(adj, before, u, cap)
    requires MidRound(adj, roots, cap, frontier, frontier, before, after, nxt)
    ensures Covered(adj, roots, after, k + 1, cap)
  {
    forall w | RootWalk(adj, roots, w) && |w| - 1 <= k + 1
      ensures AtLeast(after, w[|w| - 1], |w| - 1, cap)
    {
      if |w| - 1 <= k {
        assert AtLeast(before, w[|w| - 1], |w| - 1, cap);
      } else {
        var p := w[..|w| - 1];
        PrefixWalk(adj, roots, w, |w| - 1);
        var u, v := p[|p| - 1], w[|w| - 1];
        assert AtLeast(before, u, |p| - 1, cap);
        assert EdgeAt(adj, w, |w| - 2);
        if u !in frontier { assert AtLeast(before, v, before[u] + 1, cap); }
      }
    }
  }

  lemma {:induction false} AllRelaxedCovers(adj: Graph<Node>, roots: set<Node>, cap: nat, dist: map<Node, int>,
                                            w: seq<Node>)
    requires roots <= dist.Keys && Sound(adj, roots, dist)
    requires forall u | u in dist :: Relaxed(adj, dist, u, cap)
    requires RootWalk(adj, roots, w)
    ensures AtLeast(dist, w[|w| - 1], |w| - 1, cap)
  {
    if |w| > 1 {
      var p := w[..|w| - 1];
      PrefixWalk(adj, roots, w, |w| - 1);
      AllRelaxedCovers(adj, roots, cap, dist, p);
      assert EdgeAt(adj, w, |w| - 2);
    }
  }

  /** `max([depth] + [dist[n] for n in nxt])` */
  method DeepestOf(depth: int, dist: map<Node, int>, nxt: set<Node>) returns (deeper: int)
    requires nxt <= dist.Keys
    ensures deeper >= depth && forall n | n in nxt :: dist[n] <= deeper
    ensures deeper == depth || exists n :: n in nxt && dist[n] == deeper
  {
    deeper := depth;
    var rest := nxt;
    while rest != {}
      invariant rest <= nxt && deeper >= depth
      invariant forall n | n in nxt - rest :: dist[n] <= deeper
      invariant deeper == depth || exists n :: n in nxt && dist[n] == deeper
      decreases rest
    {
      var n :| n in rest;
      if dist[n] > deeper { deeper := dist[n]; }
      rest := rest - {n};
    }
  }

  /** `d` is the length of the longest walk from a root, cut off at `cap`. */
  ghost predicate CappedLongest(adj: Graph<Node>, roots: set<Node>, cap: nat, d: int) {
    && d <= cap
    && (forall w | RootWalk(adj, roots, w) :: Min(|w| - 1, cap) <= d)
    && (if roots == {} then d == 0 else exists w :: RootWalk(adj, roots, w) && |w| == d + 1)
  }

  /** What holds at the head of the main loop after `guard` rounds. */
  ghost predicate LoopState(adj: Graph<Node>, roots: set<Node>, cap: nat, frontier: set<Node>,
                            dist: map<Node, int>, guard: int, depth: int)
  {
    && roots <= dist.Keys && (roots == {} ==> dist == map[])
    && frontier <= dist.Keys
    && Sound(adj, roots, dist) && IsMaximum(dist, depth)
    && (forall u | u in dist && u !in frontier :: Relaxed(adj, dist, u, cap))
    && Covered(adj, roots, dist, guard, cap)
  }

  lemma LoopStart(adj: Graph<Node>, roots: set<Node>, cap: nat)
    ensures LoopState(adj, roots, cap, roots, map n | n in roots :: 0, 0, 0)
  {
    var dist := map n | n in roots :: 0;
    forall v | v in dist ensures HasWalk(adj, roots, v, dist[v]) {
      assert WalkTo(adj, roots, v, 0, [v]);
    }
    if roots != {} { var r :| r in roots; assert r in dist && dist[r] == 0; }
  }

  lemma RoundStart(adj: Graph<Node>, roots: set<Node>, cap: nat, frontier: set<Node>,
                   dist: map<Node, int>, guard: int, depth: int)
    requires LoopState(adj, roots, cap, frontier, dist, guard, depth)
    ensures MidRound(adj, roots, cap, frontier, {}, dist, dist, {})
  {
  }

  lemma LoopStep(adj: Graph<Node>, roots: set<Node>, cap: nat, frontier: set<Node>, before: map<Node, int>, guard: nat,
                 depth: int, after: map<Node, int>, nxt: set<Node>, deeper: int)
    requires LoopState(adj, roots, cap, frontier, before, guard, depth) && frontier != {}
    requires MidRound(adj, roots, cap, frontier, frontier, before, after, nxt)
    requires deeper >= depth && forall n | n in nxt :: after[n] <= deeper
    requires deeper == depth || exists n :: n in nxt && after[n] == deeper
    ensures LoopState(adj, roots, cap, nxt, after, guard + 1, deeper)
  {
    hide Sound, Relaxed, Covered, AtLeast;
    var u :| u in frontier;
    assert u in before;
    RoundCovers(adj, roots, cap, frontier, before, after, nxt, guard);
  }

  method MaxDepth(roots: set<Node>, adj: Graph<Node>, nodes: set<Node>) returns (d: int)
    ensures CappedLongest(adj, roots, |nodes|, d)
  {
    hide *;
    var frontier := roots;
    var dist := map n | n in roots :: 0;
    var depth := 0;
    var cap := |nodes|;
    var guard := 0;
    LoopStart(adj, roots, cap);
    while frontier != {} && guard <= cap + 1
      invariant 0 <= guard <= cap + 2
      invariant LoopState(adj, roots, cap, frontier, dist, guard, depth)
      decreases cap + 2 - guard
    {
      RoundStart(adj, roots, cap, frontier, dist, guard, depth);
      var after, nxt := RelaxRound(adj, roots, cap, frontier, dist);
      var deeper := DeepestOf(depth, after, nxt);
      LoopStep(adj, roots, cap, frontier, dist, guard, depth, after, nxt, deeper);
      dist, depth, frontier, guard := after, deeper, nxt, guard + 1;
    }
    d := if depth < cap then depth else cap;
    LoopExit(adj, roots, cap, frontier, dist, guard, depth, d);
  }

  /** Both ways out of the loop, no more work and the guard, leave the answer exact. */
  lemma LoopExit(adj: Graph<Node>, roots: set<Node>, cap: nat, frontier: set<Node>, dist: map<Node, int>,
                 guard: int, depth: int, d: int)
    requires LoopState(adj, roots, cap, frontier, dist, guard, depth)
    requires frontier == {} || guard == cap + 2
    requires d == if depth < cap then depth else cap
    ensures CappedLongest(adj, roots, cap, d)
  {
    hide Sound, Relaxed, EdgeAt;
    forall w | RootWalk(adj, roots, w) ensures Min(|w| - 1, cap) <= d {
      if frontier == {} {
        AllRelaxedCovers(adj, roots, cap, dist, w);
      } else {
        var n := Min(|w| - 1, cap);
        PrefixWalk(adj, roots, w, n + 1);
        assert AtLeast(dist, w[..n + 1][n], n, cap);
      }
    }
    if roots != {} {
      DepthAttained(adj, roots, cap, dist, depth, d);
    } else {
      assert depth == 0;
    }
  }

  lemma DepthAttained(adj: Graph<Node>, roots: set<Node>, cap: nat, dist: map<Node, int>, depth: int, d: int)
    requires dist != map[] && Sound(adj, roots, dist) && IsMaximum(dist, depth) && d == Min(depth, cap)
    ensures exists w :: RootWalk(adj, roots, w) && |w| == d + 1
  {
    var v :| v in dist && dist[v] == depth;
    assert HasWalk(adj, roots, v, depth);
    var w :| WalkTo(adj, roots, v, depth, w);
    PrefixWalk(adj, roots, w, d + 1);
  }

  /** A cycle that some root reaches. */
  ghost predicate RootReachesCycle(adj: Graph<Node>, roots: set<Node>) {
    exists c :: IsClosedWalk(adj, c) && ReachedFrom(adj, roots, c[0])
  }

  lemma CycleGivesLongWalk(adj: Graph<Node>, roots: set<Node>, n: nat) returns (w: seq<Node>)
    requires RootReachesCycle(adj, roots)
    ensures RootWalk(adj, roots, w) && |w| > n
  {
    var c :| IsClosedWalk(adj, c) && ReachedFrom(adj, roots, c[0]);
    var r :| r in roots && Reaches(adj, r, c[0]);
    var p :| WalkFromTo(adj, r, c[0], p);
    var q := ClosedWalkUnrolls(adj, c, n);
    WalkConcat(adj, r, c[0], q[|q| - 1], p, q);
    w := p + q[1..];
  }

  lemma LongWalkGivesCycle(adj: Graph<Node>, roots: set<Node>, nodes: set<Node>, w: seq<Node>)
    requires roots <= nodes && Within(adj, nodes)
    requires RootWalk(adj, roots, w) && |w| > |nodes|
    ensures RootReachesCycle(adj, roots)
  {
    WalkStaysWithin(adj, nodes, w);
    var i, j := LongWalkClosesCycle(adj, nodes, w);
    WalkReaches(adj, w, 0, i);
    assert IsClosedWalk(adj, w[i..j + 1]) && ReachedFrom(adj, roots, w[i..j + 1][0]);
  }

  /** The documented claim: exact longest path below the cap when the roots see
      no cycle, and exactly the cap when they do. */
  lemma DepthIsExact(adj: Graph<Node>, roots: set<Node>, nodes: set<Node>, d: int)
    requires roots <= nodes && Within(adj, nodes)
    requires CappedLongest(adj, roots, |nodes|, d)
    ensures RootReachesCycle(adj, roots) <==> d == |nodes| && nodes != {}
    ensures !RootReachesCycle(adj, roots) ==> forall w | RootWalk(adj, roots, w) :: |w| - 1 <= d
    ensures roots != {} ==> exists w :: RootWalk(adj, roots, w) && |w| - 1 == d
  {
    var cap := |nodes|;
    if RootReachesCycle(adj, roots) {
      var w := CycleGivesLongWalk(adj, roots, cap);
      assert Min(|w| - 1, cap) <= d;
      assert w[0] in nodes;
    } else {
      forall w | RootWalk(adj, roots, w) ensures |w| - 1 < cap && |w| - 1 <= d {
        if |w| > cap { LongWalkGivesCycle(adj, roots, nodes, w); }
        assert Min(|w| - 1, cap) <= d;
      }
      if roots != {} {
        var w :| RootWalk(adj, roots, w) && |w| == d + 1;
      } else if nodes != {} {
        assert cap > 0;
      }
    }
  }
}
