/** Finite directed graphs as adjacency maps, with walks, cycles and the
    pigeonhole argument that a long walk closes a cycle. */
module Digraphs {

  /** Python's dictionary of neighbour sets; an absent key has no neighbours. */
  type Graph<!T> = map<T, set<T>>

  function Succ<T>(g: Graph<T>, u: T): set<T> {
    if u in g then g[u] else {}
  }

  /** The step of `w` from position `i` follows an edge. */
  ghost predicate EdgeAt<T>(g: Graph<T>, w: seq<T>, i: int) {
    0 <= i < |w| - 1 && w[i + 1] in Succ(g, w[i])
  }

  ghost predicate IsWalk<T>(g: Graph<T>, w: seq<T>) {
    |w| > 0 && forall i | 0 <= i < |w| - 1 :: EdgeAt(g, w, i)
  }

  ghost predicate WalkFromTo<T>(g: Graph<T>, u: T, v: T, w: seq<T>) {
    IsWalk(g, w) && w[0] == u && w[|w| - 1] == v
  }

  ghost predicate Reaches<T(!new)>(g: Graph<T>, u: T, v: T) {
    exists w :: WalkFromTo(g, u, v, w)
  }

  ghost predicate ReachedFrom<T(!new)>(g: Graph<T>, roots: set<T>, v: T) {
    exists r :: r in roots && Reaches(g, r, v)
  }

  /** A walk with at least one edge that returns to its first node. */
  ghost predicate IsClosedWalk<T>(g: Graph<T>, c: seq<T>) {
    IsWalk(g, c) && |c| >= 2 && c[0] == c[|c| - 1]
  }

  ghost predicate NoDuplicates<T>(q: seq<T>) {
    forall i, j | 0 <= i < j < |q| :: q[i] != q[j]
  }

  /** A closed walk that repeats no node but its first. */
  ghost predicate IsSimpleCycle<T>(g: Graph<T>, c: seq<T>) {
    IsClosedWalk(g, c) && NoDuplicates(c[..|c| - 1])
  }

  ghost predicate Acyclic<T(!new)>(g: Graph<T>) {
    forall c: seq<T> :: !IsClosedWalk(g, c)
  }

  /** Two nodes of one strongly connected component. */
  ghost predicate StronglyConnected<T(!new)>(g: Graph<T>, u: T, v: T) {
    Reaches(g, u, v) && Reaches(g, v, u)
  }

  /** Every edge of `g` ends in `nodes`, and so does every edge's start. */
  ghost predicate Within<T>(g: Graph<T>, nodes: set<T>) {
    forall u | u in g && g[u] != {} :: u in nodes && g[u] <= nodes
  }

  lemma ReachesRefl<T(!new)>(g: Graph<T>, u: T)
    ensures Reaches(g, u, u)
  {
    assert WalkFromTo(g, u, u, [u]);
  }

  lemma WalkConcat<T(!new)>(g: Graph<T>, u: T, v: T, x: T, p: seq<T>, q: seq<T>)
    requires WalkFromTo(g, u, v, p) && WalkFromTo(g, v, x, q)
    ensures WalkFromTo(g, u, x, p + q[1..])
  {
    var w := p + q[1..];
    forall i | 0 <= i < |w| - 1 ensures EdgeAt(g, w, i) {
      if i < |p| - 1 {
        assert EdgeAt(g, p, i);
      } else {
        assert EdgeAt(g, q, i - (|p| - 1));
      }
    }
  }

  lemma ReachesTransitive<T(!new)>(g: Graph<T>, u: T, v: T, x: T)
    requires Reaches(g, u, v) && Reaches(g, v, x)
    ensures Reaches(g, u, x)
  {
    var p :| WalkFromTo(g, u, v, p);
    var q :| WalkFromTo(g, v, x, q);
    WalkConcat(g, u, v, x, p, q);
  }

  lemma ReachesStep<T(!new)>(g: Graph<T>, u: T, v: T)
    requires v in Succ(g, u)
    ensures Reaches(g, u, v)
  {
    assert EdgeAt(g, [u, v], 0);
    assert WalkFromTo(g, u, v, [u, v]);
  }

  lemma SubWalk<T>(g: Graph<T>, w: seq<T>, i: nat, j: nat)
    requires IsWalk(g, w) && i < j <= |w|
    ensures IsWalk(g, w[i..j])
  {
    var p := w[i..j];
    forall k | 0 <= k < |p| - 1 ensures EdgeAt(g, p, k) {
      assert EdgeAt(g, w, i + k);
    }
  }

  lemma WalkSnoc<T>(g: Graph<T>, w: seq<T>, v: T)
    requires IsWalk(g, w) && v in Succ(g, w[|w| - 1])
    ensures IsWalk(g, w + [v])
  {
    forall k | 0 <= k < |w| ensures EdgeAt(g, w + [v], k) {
      if k < |w| - 1 { assert EdgeAt(g, w, k); }
    }
  }

  /** Positions of a walk reach later positions. */
  lemma WalkReaches<T(!new)>(g: Graph<T>, w: seq<T>, i: nat, j: nat)
    requires IsWalk(g, w) && i <= j < |w|
    ensures Reaches(g, w[i], w[j])
  {
    var p := w[i..j + 1];
    SubWalk(g, w, i, j + 1);
    assert WalkFromTo(g, w[i], w[j], p);
  }

  /** All nodes of a closed walk lie in one strongly connected component. */
  lemma ClosedWalkConnected<T(!new)>(g: Graph<T>, c: seq<T>, i: nat, j: nat)
    requires IsClosedWalk(g, c) && i < |c| && j < |c|
    ensures StronglyConnected(g, c[i], c[j])
  {
    WalkReaches(g, c, 0, i); WalkReaches(g, c, i, |c| - 1);
    WalkReaches(g, c, 0, j); WalkReaches(g, c, j, |c| - 1);
    ReachesTransitive(g, c[i], c[0], c[j]);
    ReachesTransitive(g, c[j], c[0], c[i]);
  }

  lemma {:induction false} NoDuplicatesBound<T(!new)>(q: seq<T>, s: set<T>)
    requires NoDuplicates(q) && forall x | x in q :: x in s
    ensures |q| <= |s|
  {
    if q != [] {
      var x := q[0];
      forall y | y in q[1..] ensures y in s - {x} {
        var i :| 0 <= i < |q[1..]| && q[1..][i] == y;
        assert q[i + 1] == y;
      }
      NoDuplicatesBound(q[1..], s - {x});
    }
  }

  /** Pigeonhole: a walk over `nodes` with more entries than `nodes` has elements
      repeats an entry, and the stretch in between is a closed walk. */
  lemma LongWalkClosesCycle<T(!new)>(g: Graph<T>, nodes: set<T>, w: seq<T>) returns (i: nat, j: nat)
    requires IsWalk(g, w) && |w| > |nodes|
    requires forall x | x in w :: x in nodes
    ensures i < j < |w| && w[i] == w[j] && IsClosedWalk(g, w[i..j + 1])
  {
    if NoDuplicates(w) {
      NoDuplicatesBound(w, nodes);
      assert false;
    }
    i, j :| 0 <= i < j < |w| && w[i] == w[j];
    SubWalk(g, w, i, j + 1);
  }

  lemma {:induction false} WalkStaysWithin<T(!new)>(g: Graph<T>, nodes: set<T>, w: seq<T>)
    requires Within(g, nodes) && IsWalk(g, w) && w[0] in nodes
    ensures forall x | x in w :: x in nodes
  {
    forall i | 0 <= i < |w| ensures w[i] in nodes {
      if i > 0 { assert EdgeAt(g, w, i - 1); }
    }
  }

  /** A node on a closed walk starts walks of every length. */
  lemma {:induction false} ClosedWalkUnrolls<T(!new)>(g: Graph<T>, c: seq<T>, n: nat) returns (w: seq<T>)
    requires IsClosedWalk(g, c)
    ensures IsWalk(g, w) && w[0] == c[0] && |w| == n + 1
  {
    if n < |c| {
      w := c[..n + 1];
      SubWalk(g, c, 0, n + 1);
      assert c[0..n + 1] == w;
    } else {
      var rest := ClosedWalkUnrolls(g, c, n - (|c| - 1));
      WalkConcat(g, c[0], c[0], rest[|rest| - 1], c, rest);
      w := c + rest[1..];
    }
  }
}
