/** Inventories of packages: merging, deduplication, and the nested npm v1/v2 lock tree. */
module Inventories {
  import opened Models
  import opened Orders
  import opened Patterns
  import opened Resolve
  import CycloneDx

  function KeyOf(p: Package): Key { p.MergeKey() }

  ghost predicate HasKey(pkgs: seq<Package>, k: Key) {
    exists p :: p in pkgs && KeyOf(p) == k
  }

  /** The packages of `pkgs` with key `k`, in order. */
  function WithKey(pkgs: seq<Package>, k: Key): seq<Package> {
    if pkgs == [] then [] else
      var p := pkgs[|pkgs| - 1];
      WithKey(pkgs[..|pkgs| - 1], k) + (if KeyOf(p) == k then [p] else [])
  }

  lemma {:induction false} WithKeyMeaning(pkgs: seq<Package>, k: Key)
    ensures forall p :: p in WithKey(pkgs, k) <==> p in pkgs && KeyOf(p) == k
    ensures WithKey(pkgs, k) != [] <==> HasKey(pkgs, k)
  {
    hide Package.MergeKey;
    if pkgs != [] {
      assert pkgs == pkgs[..|pkgs| - 1] + [pkgs[|pkgs| - 1]];
      WithKeyMeaning(pkgs[..|pkgs| - 1], k);
    }
    var w := WithKey(pkgs, k);
    if w != [] { assert w[0] in w; }
  }

  // ---------- merging ----------

  /** What has been merged from `pkgs`: for every key its last package. */
  ghost predicate IsLastPerKey(merged: map<Key, Package>, pkgs: seq<Package>) {
    && (forall k :: k in merged <==> WithKey(pkgs, k) != [])
    && (forall k | k in merged :: merged[k] == WithKey(pkgs, k)[|WithKey(pkgs, k)| - 1])
  }

  lemma LastPerKeyStep(merged: map<Key, Package>, pkgs: seq<Package>, p: Package)
    requires IsLastPerKey(merged, pkgs)
    ensures IsLastPerKey(merged[KeyOf(p) := p], pkgs + [p])
  {
    hide Package.MergeKey;
    assert (pkgs + [p])[..|pkgs|] == pkgs;
    var merged' := merged[KeyOf(p) := p];
    forall k ensures k in merged' <==> WithKey(pkgs + [p], k) != [] {
      assert WithKey(pkgs + [p], k) == WithKey(pkgs, k) + (if KeyOf(p) == k then [p] else []);
    }
  }

  /** What a parser hands over. */
  datatype Parsed = Parsed(packages: seq<Package>, warnings: seq<Warning>)

  /** The packages of all inventories, one inventory after the other. */
  function AllPackages(inventories: seq<Parsed>): seq<Package> {
    if inventories == [] then [] else
      AllPackages(inventories[..|inventories| - 1]) + inventories[|inventories| - 1].packages
  }

  function AllWarnings(inventories: seq<Parsed>): seq<Warning> {
    if inventories == [] then [] else
      AllWarnings(inventories[..|inventories| - 1]) + inventories[|inventories| - 1].warnings
  }

  /** `merged` lists, in strictly increasing key order, the last package of every key. */
  ghost predicate IsMerge(merged: seq<Package>, pkgs: seq<Package>) {
    && StrictlySorted(KeyOf, merged)
    && (forall k :: HasKey(merged, k) <==> HasKey(pkgs, k))
    && (forall p | p in merged :: var same := WithKey(pkgs, KeyOf(p)); same != [] && p == same[|same| - 1])
  }

  /** `merge_inventories` */
  method MergeInventories(inventories: seq<Parsed>) returns (packages: seq<Package>, warnings: seq<Warning>)
    ensures IsMerge(packages, AllPackages(inventories))
    ensures warnings == AllWarnings(inventories)
  {
    hide KeyOf, WithKey, IsLastPerKey, Sorted;
    var merged: map<Key, Package> := map[];
    warnings := [];
    LastPerKeyStart();
    for i := 0 to |inventories|
      invariant IsLastPerKey(merged, AllPackages(inventories[..i]))
      invariant warnings == AllWarnings(inventories[..i])
    {
      assert inventories[..i + 1][..i] == inventories[..i];
      var pkgs := inventories[i].packages;
      ghost var before := AllPackages(inventories[..i]);
      assert before + pkgs[..0] == before;
      for j := 0 to |pkgs|
        invariant IsLastPerKey(merged, before + pkgs[..j])
      {
        LastPerKeyStep(merged, before + pkgs[..j], pkgs[j]);
        assert before + pkgs[..j + 1] == before + pkgs[..j] + [pkgs[j]];
        merged := merged[KeyOf(pkgs[j]) := pkgs[j]];
      }
      assert pkgs[..|pkgs|] == pkgs;
      warnings := warnings + inventories[i].warnings;
    }
    assert inventories[..|inventories|] == inventories;
    MergedValuesAreKeyed(merged, AllPackages(inventories));
    packages := Sorted(KeyOf, merged.Values);
    SortedValuesAreMerge(merged, AllPackages(inventories), packages);
  }

  lemma LastPerKeyStart()
    ensures IsLastPerKey(map[], [])
  {
  }

  lemma MergedValuesAreKeyed(merged: map<Key, Package>, pkgs: seq<Package>)
    requires IsLastPerKey(merged, pkgs)
    ensures forall k | k in merged :: KeyOf(merged[k]) == k && merged[k] in pkgs
    ensures InjectiveOn(KeyOf, merged.Values)
  {
    hide KeyOf;
    forall k | k in merged ensures KeyOf(merged[k]) == k && merged[k] in pkgs {
      WithKeyMeaning(pkgs, k);
      assert merged[k] in WithKey(pkgs, k);
    }
  }

  lemma SortedValuesAreMerge(merged: map<Key, Package>, pkgs: seq<Package>, packages: seq<Package>)
    requires IsLastPerKey(merged, pkgs)
    requires StrictlySorted(KeyOf, packages) && forall p :: p in packages <==> p in merged.Values
    ensures IsMerge(packages, pkgs)
  {
    hide KeyOf, WithKey;
    MergedValuesAreKeyed(merged, pkgs);
    forall k ensures HasKey(packages, k) <==> HasKey(pkgs, k) {
      WithKeyMeaning(pkgs, k);
      if HasKey(pkgs, k) { assert merged[k] in packages; }
    }
    forall p | p in packages ensures var same := WithKey(pkgs, KeyOf(p)); same != [] && p == same[|same| - 1] {
      var k :| k in merged && merged[k] == p;
    }
  }

  /** The merge is a function of the packages: no other list is one. */
  lemma {:induction false} MergeIsUnique(a: seq<Package>, b: seq<Package>, pkgs: seq<Package>)
    requires IsMerge(a, pkgs) && IsMerge(b, pkgs)
    ensures a == b
  {
    hide KeyOf, WithKey;
    forall p ensures p in a <==> p in b {
      if p in a { SameMember(a, b, pkgs, p); }
      if p in b { SameMember(b, a, pkgs, p); }
    }
    SortedListsAgree(a, b);
  }

  lemma SameMember(a: seq<Package>, b: seq<Package>, pkgs: seq<Package>, p: Package)
    requires IsMerge(a, pkgs) && IsMerge(b, pkgs) && p in a
    ensures p in b
  {
    hide KeyOf, WithKey;
    assert HasKey(a, KeyOf(p));
    assert HasKey(b, KeyOf(p));
    var q :| q in b && KeyOf(q) == KeyOf(p);
  }

  lemma TailMembers(a: seq<Package>, p: Package)
    requires a != [] && StrictlySorted(KeyOf, a)
    ensures p in a[1..] <==> p in a && p != a[0]
  {
    hide KeyOf;
    assert a == [a[0]] + a[1..];
    if p in a[1..] {
      var i :| 0 <= i < |a| - 1 && a[1..][i] == p;
      assert KeyLess(KeyOf(a[0]), KeyOf(a[i + 1]));
      KeyIrreflexive(KeyOf(p));
    }
  }

  lemma {:induction false} SortedListsAgree(a: seq<Package>, b: seq<Package>)
    requires StrictlySorted(KeyOf, a) && StrictlySorted(KeyOf, b)
    requires forall p :: p in a <==> p in b
    ensures a == b
  {
    hide KeyOf;
    assert b == [] || b[0] in b;
    if a != [] {
      assert a[0] in b;
      var j :| 0 <= j < |b| && b[j] == a[0];
      assert b[0] in a;
      var i :| 0 <= i < |a| && a[i] == b[0];
      KeyTotal(KeyOf(a[0]), KeyOf(b[0]));
      assert a[0] == b[0];
      forall p ensures p in a[1..] <==> p in b[1..] {
        TailMembers(a, p);
        TailMembers(b, p);
      }
      SortedListsAgree(a[1..], b[1..]);
      assert a == [a[0]] + a[1..] && b == [b[0]] + b[1..];
    }
  }

  /** Equal in everything that packages are merged by. */
  predicate SameEntry(p: Package, q: Package) {
    p.ecosystem == q.ecosystem && p.name == q.name && p.version == q.version && p.source == q.source
  }

  /** By ecosystem, then name, then version, then source. */
  predicate Precedes(p: Package, q: Package) {
    || StringLess(p.ecosystem, q.ecosystem)
    || (p.ecosystem == q.ecosystem
        && (|| StringLess(p.name, q.name)
            || (p.name == q.name
                && (|| StringLess(p.version, q.version)
                    || (p.version == q.version && StringLess(p.source, q.source))))))
  }

  lemma KeyOfMeaning(p: Package, q: Package)
    ensures KeyOf(p) == KeyOf(q) <==> SameEntry(p, q)
    ensures KeyLess(KeyOf(p), KeyOf(q)) <==> Precedes(p, q)
  {
    hide StringLess, KeyLess;
    MergeKeyOrder(p, q);
    var a, b := p.MergeKey(), q.MergeKey();
    assert a[0] == p.ecosystem && a[1] == p.name && a[2] == p.version && a[3] == p.source;
    assert b[0] == q.ecosystem && b[1] == q.name && b[2] == q.version && b[3] == q.source;
  }

  /** `pkgs[i]` is the last, or the first, of its entries. */
  ghost predicate LastEntry(pkgs: seq<Package>, i: int) {
    0 <= i < |pkgs| && forall j | i < j < |pkgs| :: !SameEntry(pkgs[i], pkgs[j])
  }

  ghost predicate FirstEntry(pkgs: seq<Package>, i: int) {
    0 <= i < |pkgs| && forall j | 0 <= j < i :: !SameEntry(pkgs[i], pkgs[j])
  }

  lemma {:induction false} LastWithKey(pkgs: seq<Package>, i: nat)
    requires LastEntry(pkgs, i)
    ensures var same := WithKey(pkgs, KeyOf(pkgs[i])); same != [] && same[|same| - 1] == pkgs[i]
  {
    hide KeyOf, SameEntry;
    var n := |pkgs| - 1;
    if i < n {
      KeyOfMeaning(pkgs[i], pkgs[n]);
      assert LastEntry(pkgs[..n], i);
      LastWithKey(pkgs[..n], i);
    }
  }

  lemma {:induction false} FirstWithKey(pkgs: seq<Package>, i: nat)
    requires FirstEntry(pkgs, i)
    ensures var same := WithKey(pkgs, KeyOf(pkgs[i])); same != [] && same[0] == pkgs[i]
  {
    hide KeyOf, SameEntry;
    var n := |pkgs| - 1;
    if i < n {
      assert FirstEntry(pkgs[..n], i);
      FirstWithKey(pkgs[..n], i);
    } else {
      WithKeyMeaning(pkgs[..n], KeyOf(pkgs[n]));
      if HasKey(pkgs[..n], KeyOf(pkgs[n])) {
        var q :| q in pkgs[..n] && KeyOf(q) == KeyOf(pkgs[n]);
        var j :| 0 <= j < n && pkgs[j] == q;
        KeyOfMeaning(pkgs[n], pkgs[j]);
      }
    }
  }

  /** The last, and the first, entry like `pkgs[i]`. */
  lemma EntryBounds(pkgs: seq<Package>, i: nat) returns (first: nat, last: nat)
    requires i < |pkgs|
    ensures FirstEntry(pkgs, first) && SameEntry(pkgs[i], pkgs[first])
    ensures LastEntry(pkgs, last) && SameEntry(pkgs[i], pkgs[last])
  {
    first, last := i, i;
    while !FirstEntry(pkgs, first)
      invariant first < |pkgs| && SameEntry(pkgs[i], pkgs[first])
      decreases first
    {
      var j :| 0 <= j < first && SameEntry(pkgs[first], pkgs[j]);
      first := j;
    }
    while !LastEntry(pkgs, last)
      invariant last < |pkgs| && SameEntry(pkgs[i], pkgs[last])
      decreases |pkgs| - last
    {
      var j :| last < j < |pkgs| && SameEntry(pkgs[last], pkgs[j]);
      last := j;
    }
  }

  lemma MergedIsLast(merged: seq<Package>, pkgs: seq<Package>, p: Package) returns (last: nat)
    requires IsMerge(merged, pkgs) && p in merged
    ensures LastEntry(pkgs, last) && pkgs[last] == p
  {
    hide KeyOf, WithKey, SameEntry, StrictlySorted, Precedes;
    assert HasKey(merged, KeyOf(p));
    var q :| q in pkgs && KeyOf(q) == KeyOf(p);
    var i :| 0 <= i < |pkgs| && pkgs[i] == q;
    var _, j := EntryBounds(pkgs, i);
    last := j;
    KeyOfMeaning(q, pkgs[last]);
    LastWithKey(pkgs, last);
  }

  lemma LastIsMerged(merged: seq<Package>, pkgs: seq<Package>, i: nat)
    requires IsMerge(merged, pkgs) && LastEntry(pkgs, i)
    ensures pkgs[i] in merged
  {
    hide KeyOf, WithKey, StrictlySorted;
    LastWithKey(pkgs, i);
    hide LastEntry;
    assert HasKey(pkgs, KeyOf(pkgs[i]));
    var q :| q in merged && KeyOf(q) == KeyOf(pkgs[i]);
  }

  /** A merged list is in order and holds, of equal entries, exactly the last one. */
  lemma MergeMeaning(merged: seq<Package>, pkgs: seq<Package>)
    requires IsMerge(merged, pkgs)
    ensures forall i, j | 0 <= i < j < |merged| :: Precedes(merged[i], merged[j])
    ensures forall p :: p in merged <==> exists i :: LastEntry(pkgs, i) && pkgs[i] == p
  {
    hide KeyOf, WithKey, Precedes, SameEntry;
    forall i, j | 0 <= i < j < |merged| ensures Precedes(merged[i], merged[j]) { KeyOfMeaning(merged[i], merged[j]); }
    hide IsMerge, LastEntry;
    forall p | p in merged ensures exists i :: LastEntry(pkgs, i) && pkgs[i] == p {
      var last := MergedIsLast(merged, pkgs, p);
    }
    forall i | LastEntry(pkgs, i) ensures 0 <= i < |pkgs| && pkgs[i] in merged {
      EntryInside(pkgs, i);
      LastIsMerged(merged, pkgs, i);
    }
  }

  lemma EntryInside(pkgs: seq<Package>, i: int)
    requires LastEntry(pkgs, i)
    ensures 0 <= i < |pkgs|
  {
  }

  lemma OneMore(a: seq<Parsed>, x: Parsed)
    ensures AllPackages(a + [x]) == AllPackages(a) + x.packages && AllWarnings(a + [x]) == AllWarnings(a) + x.warnings
    ensures AllPackages([]) == [] && AllWarnings([]) == []
  {
    assert (a + [x])[..|a|] == a;
  }

  /** Inventories count one after the other, in the order they are given. */
  lemma {:induction false} InTurn(a: seq<Parsed>, b: seq<Parsed>)
    ensures AllPackages(a + b) == AllPackages(a) + AllPackages(b)
    ensures AllWarnings(a + b) == AllWarnings(a) + AllWarnings(b)
    ensures |b| == 1 ==> AllPackages(b) == b[0].packages && AllWarnings(b) == b[0].warnings
  {
    hide AllPackages, AllWarnings;
    if b == [] {
      OneMore([], Parsed([], []));
      assert a + b == a;
    } else {
      var n := |b| - 1;
      InTurn(a, b[..n]);
      OneMore(b[..n], b[n]);
      OneMore(a + b[..n], b[n]);
      OneMore([], b[n]);
      assert b == b[..n] + [b[n]] && a + b == a + b[..n] + [b[n]];
      assert n == 0 ==> b[..n] == [];
    }
  }

  // ---------- deduplication ----------

  /** The first package of every key. */
  function FirstPerKey(pkgs: seq<Package>): (r: seq<Package>)
    ensures forall p | p in r :: p in pkgs
  {
    if pkgs == [] then [] else
      var before := FirstPerKey(pkgs[..|pkgs| - 1]);
      var p := pkgs[|pkgs| - 1];
      if exists q :: q in before && KeyOf(q) == KeyOf(p) then before else before + [p]
  }

  lemma FirstPerKeyStep(pkgs: seq<Package>)
    requires pkgs != []
    ensures var n := |pkgs| - 1; var before := FirstPerKey(pkgs[..n]);
            FirstPerKey(pkgs) == if HasKey(before, KeyOf(pkgs[n])) then before else before + [pkgs[n]]
  {
    hide KeyOf;
  }

  lemma {:induction false} FirstPerKeyCovers(pkgs: seq<Package>, k: Key)
    ensures HasKey(FirstPerKey(pkgs), k) <==> HasKey(pkgs, k)
  {
    hide KeyOf, FirstPerKey;
    if pkgs == [] {
      assert FirstPerKey([]) == [] by { FirstPerKeyOfNone(); }
    } else {
      var n := |pkgs| - 1;
      var before := FirstPerKey(pkgs[..n]);
      FirstPerKeyStep(pkgs);
      FirstPerKeyCovers(pkgs[..n], k);
      assert pkgs == pkgs[..n] + [pkgs[n]];
      assert HasKey(pkgs, k) <==> HasKey(pkgs[..n], k) || k == KeyOf(pkgs[n]);
      assert HasKey(before + [pkgs[n]], k) <==> HasKey(before, k) || k == KeyOf(pkgs[n]);
    }
  }

  lemma FirstPerKeyOfNone()
    ensures FirstPerKey([]) == []
  {
  }

  lemma {:induction false} FirstPerKeyIsFirst(pkgs: seq<Package>, p: Package)
    requires p in FirstPerKey(pkgs)
    ensures WithKey(pkgs, KeyOf(p)) != [] && p == WithKey(pkgs, KeyOf(p))[0]
  {
    hide KeyOf, FirstPerKey, HasKey, WithKey;
    if pkgs == [] {
      FirstPerKeyOfNone();
    } else {
      var n := |pkgs| - 1;
      FirstPerKeyStep(pkgs);
      WithKeyStep(pkgs[..n], pkgs[n], KeyOf(p));
      assert pkgs == pkgs[..n] + [pkgs[n]];
      if p in FirstPerKey(pkgs[..n]) {
        FirstPerKeyIsFirst(pkgs[..n], p);
      } else {
        FirstPerKeyCovers(pkgs[..n], KeyOf(p));
        WithKeyMeaning(pkgs[..n], KeyOf(p));
      }
    }
  }

  lemma {:induction false} FirstPerKeySorted(pkgs: seq<Package>)
    requires Ascending(KeyOf, pkgs)
    ensures StrictlySorted(KeyOf, FirstPerKey(pkgs))
  {
    hide KeyOf, FirstPerKey;
    if pkgs == [] {
      FirstPerKeyOfNone();
    } else {
      var n := |pkgs| - 1;
      var before := FirstPerKey(pkgs[..n]);
      FirstPerKeyStep(pkgs);
      FirstPerKeySorted(pkgs[..n]);
      if !HasKey(before, KeyOf(pkgs[n])) {
        forall i | 0 <= i < |before| ensures KeyLess(KeyOf(before[i]), KeyOf(pkgs[n])) {
          assert before[i] in before;
          var j :| 0 <= j < n && pkgs[..n][j] == before[i];
          assert KeyLeq(KeyOf(pkgs[j]), KeyOf(pkgs[n]));
        }
      }
    }
  }

  lemma {:induction false} InsertKeepsOthers(q: seq<Package>, x: Package, k: Key)
    requires Ascending(KeyOf, q)
    ensures WithKey(Insert(KeyOf, q, x), k) == WithKey(q, k) + (if KeyOf(x) == k then [x] else [])
  {
    hide KeyOf, Insert, WithKey;
    if q == [] || KeyLeq(KeyOf(q[|q| - 1]), KeyOf(x)) {
      InsertAtEnd(q, x);
      WithKeyStep(q, x, k);
    } else {
      var n := |q| - 1;
      InsertBelow(q, x);
      assert Ascending(KeyOf, q[..n]) && q == q[..n] + [q[n]];
      hide *;
      InsertKeepsOthers(q[..n], x, k);
      WithKeyStep(Insert(KeyOf, q[..n], x), q[n], k);
      WithKeyStep(q[..n], q[n], k);
    }
  }

  lemma WithKeyStep(q: seq<Package>, p: Package, k: Key)
    ensures WithKey(q + [p], k) == WithKey(q, k) + (if KeyOf(p) == k then [p] else [])
  {
    hide KeyOf;
    assert (q + [p])[..|q|] == q;
  }

  lemma InsertAtEnd(q: seq<Package>, x: Package)
    requires Ascending(KeyOf, q) && (q == [] || KeyLeq(KeyOf(q[|q| - 1]), KeyOf(x)))
    ensures Insert(KeyOf, q, x) == q + [x]
  {
    hide KeyOf, Ascending;
  }

  lemma InsertBelow(q: seq<Package>, x: Package)
    requires Ascending(KeyOf, q) && q != [] && !KeyLeq(KeyOf(q[|q| - 1]), KeyOf(x))
    ensures Ascending(KeyOf, q[..|q| - 1])
    ensures Insert(KeyOf, q, x) == Insert(KeyOf, q[..|q| - 1], x) + [q[|q| - 1]]
  {
    hide KeyOf;
  }

  /** Sorting is stable: it keeps the order of packages with one key. */
  lemma {:induction false} SortIsStable(q: seq<Package>, k: Key)
    ensures WithKey(SortList(KeyOf, q), k) == WithKey(q, k)
  {
    hide KeyOf, Insert;
    if q != [] {
      var n := |q| - 1;
      SortIsStable(q[..n], k);
      InsertKeepsOthers(SortList(KeyOf, q[..n]), q[n], k);
    }
  }

  /** What `dedupe` leaves. */
  function Deduped(pkgs: seq<Package>): seq<Package> { FirstPerKey(SortList(KeyOf, pkgs)) }

  /** `dedupe` keeps, in strictly increasing key order, the first package of every key. */
  lemma DedupedMeaning(pkgs: seq<Package>)
    ensures StrictlySorted(KeyOf, Deduped(pkgs))
    ensures forall k :: HasKey(Deduped(pkgs), k) <==> HasKey(pkgs, k)
    ensures forall p | p in Deduped(pkgs) :: WithKey(pkgs, KeyOf(p)) != [] && p == WithKey(pkgs, KeyOf(p))[0]
  {
    hide KeyOf, SortList, FirstPerKey, WithKey;
    var sorted := SortList(KeyOf, pkgs);
    FirstPerKeySorted(sorted);
    forall k ensures HasKey(Deduped(pkgs), k) <==> HasKey(pkgs, k) {
      FirstPerKeyCovers(sorted, k);
      WithKeyMeaning(sorted, k);
      WithKeyMeaning(pkgs, k);
      SortIsStable(pkgs, k);
    }
    forall p | p in Deduped(pkgs) ensures WithKey(pkgs, KeyOf(p)) != [] && p == WithKey(pkgs, KeyOf(p))[0] {
      FirstPerKeyIsFirst(sorted, p);
      SortIsStable(pkgs, KeyOf(p));
    }
  }

  /** A deduplicated list is in order and holds, of equal entries, exactly the first one. */
  lemma DedupedKeepsFirst(pkgs: seq<Package>)
    ensures forall i, j | 0 <= i < j < |Deduped(pkgs)| :: Precedes(Deduped(pkgs)[i], Deduped(pkgs)[j])
    ensures forall p :: p in Deduped(pkgs) <==> exists i :: FirstEntry(pkgs, i) && pkgs[i] == p
  {
    hide KeyOf, WithKey, Precedes, SameEntry, Deduped;
    var out := Deduped(pkgs);
    DedupedMeaning(pkgs);
    forall i, j | 0 <= i < j < |out| ensures Precedes(out[i], out[j]) { KeyOfMeaning(out[i], out[j]); }
    forall p ensures p in out <==> exists i :: FirstEntry(pkgs, i) && pkgs[i] == p {
      if p in out {
        assert HasKey(out, KeyOf(p));
        var q :| q in pkgs && KeyOf(q) == KeyOf(p);
        var i :| 0 <= i < |pkgs| && pkgs[i] == q;
        var first, _ := EntryBounds(pkgs, i);
        KeyOfMeaning(q, pkgs[first]);
        FirstWithKey(pkgs, first);
      }
      if i :| FirstEntry(pkgs, i) && pkgs[i] == p {
        FirstWithKey(pkgs, i);
        assert HasKey(pkgs, KeyOf(p));
        var q :| q in out && KeyOf(q) == KeyOf(p);
      }
    }
  }

  lemma SortListStep(q: seq<Package>)
    requires q != []
    ensures SortList(KeyOf, q) == Insert(KeyOf, SortList(KeyOf, q[..|q| - 1]), q[|q| - 1])
  {
    hide KeyOf, Ascending, Insert;
  }

  lemma {:induction false} SortingSorted(pkgs: seq<Package>)
    requires Ascending(KeyOf, pkgs)
    ensures SortList(KeyOf, pkgs) == pkgs
  {
    hide KeyOf, SortList, Insert;
    if pkgs != [] {
      var n := |pkgs| - 1;
      SortingSorted(pkgs[..n]);
      SortListStep(pkgs);
      InsertAtEnd(pkgs[..n], pkgs[n]);
      assert pkgs == pkgs[..n] + [pkgs[n]];
    }
  }

  lemma {:induction false} NothingToDrop(pkgs: seq<Package>)
    requires StrictlySorted(KeyOf, pkgs)
    ensures FirstPerKey(pkgs) == pkgs
  {
    hide KeyOf, FirstPerKey;
    if pkgs == [] {
      FirstPerKeyOfNone();
    } else {
      var n := |pkgs| - 1;
      NothingToDrop(pkgs[..n]);
      FirstPerKeyStep(pkgs);
      assert pkgs == pkgs[..n] + [pkgs[n]];
      forall i | 0 <= i < n ensures KeyOf(pkgs[i]) != KeyOf(pkgs[n]) { KeyIrreflexive(KeyOf(pkgs[i])); }
      assert !HasKey(pkgs[..n], KeyOf(pkgs[n]));
    }
  }

  lemma SortedStays(pkgs: seq<Package>)
    requires StrictlySorted(KeyOf, pkgs)
    ensures Deduped(pkgs) == pkgs
  {
    hide KeyOf, FirstPerKey, SortList;
    assert Ascending(KeyOf, pkgs);
    SortingSorted(pkgs);
    NothingToDrop(pkgs);
  }

  /** `dedupe` changes nothing on a merged list, and nothing the second time. */
  lemma DedupeIsIdempotent(pkgs: seq<Package>, merged: seq<Package>, source: seq<Package>)
    requires IsMerge(merged, source)
    ensures Deduped(merged) == merged
    ensures Deduped(Deduped(pkgs)) == Deduped(pkgs)
  {
    hide KeyOf, SortList, FirstPerKey;
    SortedStays(merged);
    DedupedMeaning(pkgs);
    SortedStays(Deduped(pkgs));
  }

  /** On a merged list of colon-free packages identities and bom-ref texts are distinct. */
  lemma MergedIsIdentified(merged: seq<Package>, source: seq<Package>)
    requires IsMerge(merged, source) && forall p | p in merged :: CycloneDx.ColonFree(p)
    ensures DistinctIdentities(merged) && CycloneDx.DistinctTexts(merged)
  {
    hide CycloneDx.ColonFree, Package.Identity, CycloneDx.RefText, WithKey;
    forall i, j | 0 <= i < j < |merged|
      ensures merged[i].Identity() != merged[j].Identity()
        && CycloneDx.RefText(merged[i]) != CycloneDx.RefText(merged[j])
    {
      KeyIrreflexive(KeyOf(merged[i]));
      CycloneDx.ColonFreeIdentity(merged[i], merged[j]);
    }
  }

  // ---------- npm purls ----------

  function HexChar(d: nat): (c: char)
    requires d < 16
    ensures IsHexDigit(c)
  {
    if d < 10 then DigitChar(d) else (55 + d) as char
  }

  /** `%02X` */
  function HexUpper(n: nat): (s: string)
    ensures |s| >= 2 && forall i | 0 <= i < |s| :: IsHexDigit(s[i])
  {
    if n < 256 then [HexChar(n / 16), HexChar(n % 16)] else HexUpper(n / 16) + [HexChar(n % 16)]
  }

  predicate IsPurlChar(c: char) { IsIdChar(c) || c == '_' }

  /** `_purl_quote` */
  function PurlQuote(s: string): (r: string)
    ensures forall i | 0 <= i < |r| :: IsPurlChar(r[i]) || r[i] == '%'
    ensures r == "" <==> s == ""
  {
    if s == "" then "" else
      (if IsPurlChar(s[0]) then [s[0]] else ['%'] + HexUpper(s[0] as int)) + PurlQuote(s[1..])
  }

  /** The position of the first slash, or the length. */
  function SlashAt(s: string): (i: nat)
    ensures i <= |s| && (i < |s| ==> s[i] == '/') && '/' !in s[..i]
  {
    if s == "" || s[0] == '/' then 0 else 1 + SlashAt(s[1..])
  }

  /** The value of a hexadecimal digit. */
  function HexValue(c: char): int {
    if '0' <= c <= '9' then c as int - 48 else if 'A' <= c <= 'F' then c as int - 55 else if 'a' <= c <= 'f'
    then c as int - 87 else 0
  }

  /** Percent-decoding, as section 2.1 of RFC 3986 reads it, a byte for each triplet. */
  function Unquote(s: string): string {
    if s == "" then "" else if s[0] == '%' && |s| >= 3 then
      [(16 * HexValue(s[1]) + HexValue(s[2])) as char] + Unquote(s[3..])
    else [s[0]] + Unquote(s[1..])
  }

  /** Texts of characters below 256 are read back from their quoted form. */
  lemma {:induction false} QuoteReadsBack(s: string)
    requires forall i | 0 <= i < |s| :: s[i] as int < 256
    ensures Unquote(PurlQuote(s)) == s
  {
    if s != "" {
      QuoteReadsBack(s[1..]);
      var rest, n := PurlQuote(s[1..]), s[0] as int;
      if IsPurlChar(s[0]) {
        assert ([s[0]] + rest)[1..] == rest;
      } else {
        var q := ['%'] + HexUpper(n) + rest;
        assert q[1] == HexChar(n / 16) && q[2] == HexChar(n % 16) && q[3..] == rest;
        HexReadsBack(n / 16);
        HexReadsBack(n % 16);
        assert 16 * (n / 16) + n % 16 == n;
      }
      assert s == [s[0]] + s[1..];
    }
  }

  lemma HexReadsBack(d: nat)
    requires d < 16
    ensures HexValue(HexChar(d)) == d
  {
  }

  /** Above that the code writes more than two digits, and two names get one quoted form. */
  lemma QuoteIsAmbiguous()
    ensures var a, b := [256 as char], [16 as char] + "0"; a != b && PurlQuote(a) == PurlQuote(b)
  {
    var a, b := [256 as char], [16 as char] + "0";
    assert a[1..] == "" && b[1..] == "0" && "0"[1..] == "";
    assert HexUpper(16) == "10" && HexUpper(256) == HexUpper(16) + "0";
    assert PurlQuote("0") == "0";
    assert PurlQuote(a) == "%100" && PurlQuote(b) == "%10" + "0";
  }

  lemma {:induction false} SlashAtIs(a: string, b: string)
    requires '/' !in a
    ensures SlashAt(a + "/" + b) == |a|
  {
    if a != "" {
      SlashAtIs(a[1..], b);
      assert (a + "/" + b)[1..] == a[1..] + "/" + b;
    }
  }

  lemma AtIsQuoted(a: string)
    ensures PurlQuote("@" + a) == "%40" + PurlQuote(a)
  {
    assert ("@" + a)[1..] == a;
    assert HexUpper(64) == "40";
  }

  /** A scoped name is quoted part by part around its first slash, a name without scope as a whole. */
  lemma ScopedName(a: string, b: string)
    requires '/' !in a
    ensures EncodedName("@" + a + "/" + b) == "%40" + PurlQuote(a) + "/" + PurlQuote(b)
    ensures !("@" <= b) ==> EncodedName(b) == PurlQuote(b)
  {
    hide PurlQuote, SlashAt;
    var scope := "@" + a;
    var name := scope + "/" + b;
    SlashAtIs(scope, b);
    AtIsQuoted(a);
    assert name[..|scope|] == scope && name[|scope| + 1..] == b;
  }

  /** A scoped name is quoted around its first slash, or before one if it has none. */
  function EncodedName(name: string): string {
    if name != "" && name[0] == '@' then
      var i := SlashAt(name);
      PurlQuote(name[..i]) + "/" + (if i < |name| then PurlQuote(name[i + 1..]) else "")
    else PurlQuote(name)
  }

  /** `_npm_purl` */
  function NpmPurl(name: string, version: string): string {
    "pkg:npm/" + EncodedName(name) + (if version != "" then "@" + version else "")
  }

  /** An npm purl is well formed exactly when the version holds no white space and name and
      version are not both empty. */
  lemma NpmPurlIsWellFormed(name: string, version: string)
    ensures IsPurl(NpmPurl(name, version)) <==> NoSpaces(version) && !(name == "" && version == "")
  {
    var purl, enc := NpmPurl(name, version), EncodedName(name);
    var rest := enc + (if version != "" then "@" + version else "");
    assert purl == "pkg:npm/" + rest;
    OnlyNpmPrefix(rest);
    EncodedNameHasNoSpaces(name);
    if NoSpaces(rest) {
      forall i | 0 <= i < |version| ensures !IsSpace(version[i]) {
        assert rest[|enc| + 1 + i] == version[i];
      }
    }
  }

  lemma EncodedNameHasNoSpaces(name: string)
    ensures NoSpaces(EncodedName(name))
    ensures EncodedName(name) == "" <==> name == ""
  {
  }

  lemma OnlyNpmPrefix(rest: string)
    ensures IsPurl("pkg:npm/" + rest) <==> rest != "" && NoSpaces(rest)
  {
    var s := "pkg:npm/" + rest;
    assert s[8..] == rest;
    assert "pkg:" + "npm" + "/" == "pkg:npm/";
    forall t | t in PURL_TYPES && t != "npm" ensures !IsPurlOf(t, s) {
      assert s[4] == 'n' && s[5] == 'p';
      var prefix := "pkg:" + t + "/";
      assert prefix[4] == t[0] && prefix[5] == t[1];
    }
  }

  // ---------- the npm v1/v2 tree ----------

  /** One entry of a `dependencies` object; its value may be something else than an object. */
  datatype Child = Child(name: string, meta: Meta)

  datatype Meta =
    | Malformed
    | Meta(version: Option<string>, license: Option<string>, resolved: Option<string>, checksums: seq<(string, string)>,
           children: Children)

  /** The nested `dependencies`, if that is an object. */
  datatype Children = NoChildren | Children(entries: seq<Child>)

  const MAX_DEPTH := 50

  /** The package that a tree node becomes. */
  function PackageOf(lock: string, c: Child, direct: bool): Package
    requires c.meta.Meta?
  {
    var m := c.meta;
    var version := if m.version.Some? then m.version.value else "";
    Package(c.name, version, NPM, lock,
            if Truthy(m.license) then m.license else None,
            Some(NpmPurl(c.name, version)), m.resolved, m.checksums,
            if m.children.Children? then Edges(m.children.entries) else [],
            direct,
            Some(if m.resolved.Some? then "registry" else "unknown"))
  }

  function Edges(children: seq<Child>): (deps: seq<Dependency>)
    ensures |deps| == |children| && forall i | 0 <= i < |deps| :: deps[i] == Dependency(children[i].name, "")
  {
    seq(|children|, i requires 0 <= i < |children| => Dependency(children[i].name, ""))
  }

  /** The nodes of a forest, each before its descendants, with whether it is top-level. */
  function PreOrder(deps: seq<Child>, top: bool): seq<(Child, bool)> {
    if deps == [] then [] else
      var n := |deps| - 1;
      PreOrder(deps[..n], top) + NodePreOrder(deps[n], top)
  }

  function NodePreOrder(c: Child, top: bool): seq<(Child, bool)> {
    [(c, top)] + if c.meta.Meta? && c.meta.children.Children? then PreOrder(c.meta.children.entries, false) else []
  }

  /** Every node is an object and the levels from `depth` on stay within the guard. */
  predicate FitsFrom(deps: seq<Child>, depth: nat)
    decreases MAX_DEPTH + 1 - depth, 1
  {
    depth <= MAX_DEPTH && forall i | 0 <= i < |deps| :: NodeFits(deps[i], depth)
  }

  predicate NodeFits(c: Child, depth: nat)
    requires depth <= MAX_DEPTH
    decreases MAX_DEPTH + 1 - depth, 0
  {
    c.meta.Meta? && (c.meta.children.Children? ==> FitsFrom(c.meta.children.entries, depth + 1))
  }

  /** What the parser appends for a forest whose first level is `depth`. */
  function Flattened(lock: string, deps: seq<Child>, direct: bool, depth: nat): seq<Package>
    decreases MAX_DEPTH + 1 - depth, |deps|
  {
    if depth > MAX_DEPTH || deps == [] then [] else
      var n := |deps| - 1;
      Flattened(lock, deps[..n], direct, depth) + FlattenedNode(lock, deps[n], direct, depth)
  }

  function FlattenedNode(lock: string, c: Child, direct: bool, depth: nat): seq<Package>
    requires depth <= MAX_DEPTH
    decreases MAX_DEPTH + 1 - depth, 0
  {
    if c.meta.Malformed? then [] else
      [PackageOf(lock, c, direct)]
      + (if c.meta.children.Children? then Flattened(lock, c.meta.children.entries, false, depth + 1) else [])
  }

  datatype Warning = TooDeep | MalformedDependency(name: string) | OfOtherParser(text: string)

  function Warnings(deps: seq<Child>, depth: nat): seq<Warning>
    decreases MAX_DEPTH + 1 - depth, |deps|
  {
    if depth > MAX_DEPTH then [TooDeep] else if deps == [] then [] else
      var n := |deps| - 1;
      Warnings(deps[..n], depth) + NodeWarnings(deps[n], depth)
  }

  function NodeWarnings(c: Child, depth: nat): seq<Warning>
    requires depth <= MAX_DEPTH
    decreases MAX_DEPTH + 1 - depth, 0
  {
    if c.meta.Malformed? then [MalformedDependency(c.name)]
    else if c.meta.children.Children? then Warnings(c.meta.children.entries, depth + 1) else []
  }

  /** An inventory being filled by a parser. */
  class Inventory {
    var packages: seq<Package>
    var warnings: seq<Warning>

    constructor ()
      ensures packages == [] && warnings == []
    {
      packages, warnings := [], [];
    }

    /** `dedupe` */
    method Dedupe()
      modifies this
      ensures packages == Deduped(old(packages)) && warnings == old(warnings)
    {
      hide KeyOf;
      var sorted := SortList(KeyOf, packages);
      var seen: set<Key> := {};
      var unique: seq<Package> := [];
      for i := 0 to |sorted|
        invariant packages == old(packages) && warnings == old(warnings)
        invariant unique == FirstPerKey(sorted[..i])
        invariant forall k :: k in seen <==> exists q :: q in unique && KeyOf(q) == k
      {
        assert sorted[..i + 1][..i] == sorted[..i];
        var k := KeyOf(sorted[i]);
        if k in seen { continue; }
        seen := seen + {k};
        unique := unique + [sorted[i]];
      }
      assert sorted[..|sorted|] == sorted;
      packages := unique;
    }

    /** `_parse_v2`; the depth guard bounds the recursion. */
    method ParseV2(lock: string, deps: seq<Child>, direct: bool, depth: nat)
      modifies this
      ensures packages == old(packages) + Flattened(lock, deps, direct, depth)
      ensures warnings == old(warnings) + Warnings(deps, depth)
      decreases MAX_DEPTH + 1 - depth, 1
    {
      hide Flattened, Warnings, FlattenedNode, NodeWarnings, PackageOf;
      if depth > MAX_DEPTH {
        NothingBelow(lock, deps, direct, depth);
        warnings := warnings + [TooDeep];
        return;
      }
      NothingParsed(lock, direct, depth);
      for i := 0 to |deps|
        invariant packages == old(packages) + Flattened(lock, deps[..i], direct, depth)
        invariant warnings == old(warnings) + Warnings(deps[..i], depth)
      {
        ParsedStep(lock, deps, direct, depth, i);
        ParseNode(lock, deps[i], direct, depth);
      }
      assert deps[..|deps|] == deps;
    }

    /** One round of the loop. */
    method ParseNode(lock: string, c: Child, direct: bool, depth: nat)
      requires depth <= MAX_DEPTH
      modifies this
      ensures packages == old(packages) + FlattenedNode(lock, c, direct, depth)
      ensures warnings == old(warnings) + NodeWarnings(c, depth)
      decreases MAX_DEPTH + 1 - depth, 0
    {
      hide PackageOf, Flattened, Warnings;
      if c.meta.Malformed? {
        warnings := warnings + [MalformedDependency(c.name)];
        return;
      }
      packages := packages + [PackageOf(lock, c, direct)];
      if c.meta.children.Children? {
        ParseV2(lock, c.meta.children.entries, false, depth + 1);
      }
    }
  }

  lemma NothingBelow(lock: string, deps: seq<Child>, direct: bool, depth: nat)
    requires depth > MAX_DEPTH
    ensures Flattened(lock, deps, direct, depth) == [] && Warnings(deps, depth) == [TooDeep]
  {
  }

  lemma NothingParsed(lock: string, direct: bool, depth: nat)
    requires depth <= MAX_DEPTH
    ensures Flattened(lock, [], direct, depth) == [] && Warnings([], depth) == []
  {
  }

  lemma ParsedStep(lock: string, deps: seq<Child>, direct: bool, depth: nat, i: nat)
    requires depth <= MAX_DEPTH && i < |deps|
    ensures Flattened(lock, deps[..i + 1], direct, depth)
            == Flattened(lock, deps[..i], direct, depth) + FlattenedNode(lock, deps[i], direct, depth)
    ensures Warnings(deps[..i + 1], depth) == Warnings(deps[..i], depth) + NodeWarnings(deps[i], depth)
  {
    hide FlattenedNode, NodeWarnings;
    assert deps[..i + 1][..i] == deps[..i];
  }

  /** No warning is given exactly when the forest is well formed and within the guard. */
  lemma {:induction false} QuietIffFits(deps: seq<Child>, depth: nat)
    ensures Warnings(deps, depth) == [] <==> FitsFrom(deps, depth)
    decreases MAX_DEPTH + 1 - depth, |deps|
  {
    hide NodeFits, NodeWarnings;
    if depth <= MAX_DEPTH && deps != [] {
      hide Warnings, FitsFrom;
      var n := |deps| - 1;
      QuietIffFits(deps[..n], depth);
      NodeQuietIffFits(deps[n], depth);
      QuietStep(deps, depth);
      FitsStep(deps, depth);
    }
  }

  lemma QuietStep(deps: seq<Child>, depth: nat)
    requires depth <= MAX_DEPTH && deps != []
    ensures var n := |deps| - 1;
      Warnings(deps, depth) == [] <==> Warnings(deps[..n], depth) == [] && NodeWarnings(deps[n], depth) == []
  {
    hide NodeWarnings;
  }

  lemma FitsStep(deps: seq<Child>, depth: nat)
    requires depth <= MAX_DEPTH && deps != []
    ensures var n := |deps| - 1; FitsFrom(deps, depth) <==> FitsFrom(deps[..n], depth) && NodeFits(deps[n], depth)
  {
    hide NodeFits;
    var front := deps[..|deps| - 1];
    assert deps == front + [deps[|deps| - 1]];
    assert forall i | 0 <= i < |front| :: front[i] == deps[i];
  }

  lemma {:induction false} NodeQuietIffFits(c: Child, depth: nat)
    requires depth <= MAX_DEPTH
    ensures NodeWarnings(c, depth) == [] <==> NodeFits(c, depth)
    decreases MAX_DEPTH + 1 - depth, 0
  {
    hide Warnings, FitsFrom;
    if c.meta.Meta? && c.meta.children.Children? { QuietIffFits(c.meta.children.entries, depth + 1); }
  }

  /** A forest that fits becomes one package per node, in pre-order, direct exactly at the top. */
  lemma {:induction false} OnePackagePerNode(lock: string, deps: seq<Child>, direct: bool, depth: nat)
    requires FitsFrom(deps, depth)
    ensures IsListed(lock, PreOrder(deps, direct), Flattened(lock, deps, direct, depth))
    decreases MAX_DEPTH + 1 - depth, |deps|
  {
    hide PackageOf, IsListed, NodeFits;
    if deps == [] {
      NothingIsListed(lock);
    } else {
      var n := |deps| - 1;
      var c := deps[n];
      assert NodeFits(c, depth);
      assert FitsFrom(deps[..n], depth);
      OnePackagePerNode(lock, deps[..n], direct, depth);
      NodeIsListed(lock, c, direct, depth);
      ListedConcat(lock, PreOrder(deps[..n], direct), Flattened(lock, deps[..n], direct, depth),
                   NodePreOrder(c, direct), FlattenedNode(lock, c, direct, depth));
    }
  }

  lemma {:induction false} NodeIsListed(lock: string, c: Child, direct: bool, depth: nat)
    requires depth <= MAX_DEPTH && NodeFits(c, depth)
    ensures IsListed(lock, NodePreOrder(c, direct), FlattenedNode(lock, c, direct, depth))
    decreases MAX_DEPTH + 1 - depth, 0
  {
    hide PackageOf, Records, Flattened, FitsFrom, PreOrder;
    PackageRecords(lock, c, direct);
    if c.meta.children.Children? {
      OnePackagePerNode(lock, c.meta.children.entries, false, depth + 1);
      ListedConcat(lock, [(c, direct)], [PackageOf(lock, c, direct)],
                   PreOrder(c.meta.children.entries, false),
                   Flattened(lock, c.meta.children.entries, false, depth + 1));
    }
  }

  /** `p` says of a node what the lock file says of it, and whether it is top-level. */
  ghost predicate Records(lock: string, c: Child, top: bool, p: Package) {
    && c.meta.Meta?
    && p.name == c.name && p.ecosystem == "npm" && p.source == lock && p.isDirect == top
    && (c.meta.version == Some(p.version) || (c.meta.version == None && p.version == ""))
    && (p.licenseExpression == c.meta.license || (c.meta.license == Some("") && p.licenseExpression == None))
    && p.licenseExpression != Some("")
    && p.downloadUrl == c.meta.resolved && p.checksums == c.meta.checksums
    && p.purl == Some("pkg:npm/" + EncodedName(c.name) + (if p.version != "" then "@" + p.version else ""))
    && p.origin == Some(if c.meta.resolved == None then "unknown" else "registry")
    && match c.meta.children
       case NoChildren => p.dependencies == []
       case Children(entries) =>
         && |p.dependencies| == |entries|
         && forall i | 0 <= i < |entries| ::
              p.dependencies[i].name == entries[i].name && p.dependencies[i].specifier == ""
  }

  /** `pkgs` holds one package for each of the nodes, in their order, direct where they are
      top-level. */
  ghost predicate IsListed(lock: string, nodes: seq<(Child, bool)>, pkgs: seq<Package>) {
    && |pkgs| == |nodes|
    && forall k | 0 <= k < |nodes| :: Records(lock, nodes[k].0, nodes[k].1, pkgs[k])
  }

  lemma PackageRecords(lock: string, c: Child, top: bool)
    requires c.meta.Meta?
    ensures Records(lock, c, top, PackageOf(lock, c, top))
  {
    hide EncodedName;
  }

  /** The parser comes to `c` as a node with this directness: the forest begins at most 50 levels
      below the top, and `c` is one of its trees or below one. */
  ghost predicate Met(deps: seq<Child>, depth: nat, direct: bool, c: Child, d: bool)
    decreases 51 - depth, 1
  {
    depth <= 50 && exists i :: 0 <= i < |deps| && MetAt(deps[i], depth, direct, c, d)
  }

  ghost predicate MetAt(root: Child, depth: nat, direct: bool, c: Child, d: bool)
    requires depth <= 50
    decreases 51 - depth, 0
  {
    || (c == root && d == direct)
    || (depth < 50 && root.meta.Meta? && root.meta.children.Children?
        && Met(root.meta.children.entries, depth + 1, false, c, d))
  }

  /** Whatever is malformed or too deep elsewhere: a package is appended for every object the parser
      comes to, and for nothing else. */
  lemma {:induction false} EveryObjectIsListed(lock: string, deps: seq<Child>, direct: bool, depth: nat, p: Package)
    ensures p in Flattened(lock, deps, direct, depth) <==>
            exists c, d :: Met(deps, depth, direct, c, d) && c.meta.Meta? && p == PackageOf(lock, c, d)
    decreases MAX_DEPTH + 1 - depth, |deps|
  {
    hide PackageOf, FlattenedNode, MetAt;
    if depth <= MAX_DEPTH && deps != [] {
      var n := |deps| - 1;
      EveryObjectIsListed(lock, deps[..n], direct, depth, p);
      EveryObjectOfNode(lock, deps[n], direct, depth, p);
      forall c, d ensures Met(deps, depth, direct, c, d) <==>
                          Met(deps[..n], depth, direct, c, d) || MetAt(deps[n], depth, direct, c, d) {
        MetSnoc(deps, depth, direct, c, d);
      }
      hide Met;
    }
  }

  lemma MetSnoc(deps: seq<Child>, depth: nat, direct: bool, c: Child, d: bool)
    requires deps != [] && depth <= 50
    ensures var n := |deps| - 1;
      Met(deps, depth, direct, c, d) <==> Met(deps[..n], depth, direct, c, d) || MetAt(deps[n], depth, direct, c, d)
  {
    hide MetAt;
    var n := |deps| - 1;
    if i :| 0 <= i < n && MetAt(deps[..n][i], depth, direct, c, d) { assert MetAt(deps[i], depth, direct, c, d); }
    if i :| 0 <= i < n && MetAt(deps[i], depth, direct, c, d) { assert MetAt(deps[..n][i], depth, direct, c, d); }
  }

  lemma {:induction false} EveryObjectOfNode(lock: string, root: Child, direct: bool, depth: nat, p: Package)
    requires depth <= MAX_DEPTH
    ensures p in FlattenedNode(lock, root, direct, depth) <==>
            exists c, d :: MetAt(root, depth, direct, c, d) && c.meta.Meta? && p == PackageOf(lock, c, d)
    decreases MAX_DEPTH + 1 - depth, 0
  {
    hide PackageOf, Met;
    if root.meta.Meta? {
      assert MetAt(root, depth, direct, root, direct);
      if root.meta.children.Children? {
        var entries := root.meta.children.entries;
        EveryObjectIsListed(lock, entries, false, depth + 1, p);
        NothingDeeper(entries, depth + 1);
        forall c, d | Met(entries, depth + 1, false, c, d) ensures MetAt(root, depth, direct, c, d) { }
      }
    }
  }

  lemma NothingDeeper(deps: seq<Child>, depth: nat)
    ensures forall c, d, direct :: Met(deps, depth, direct, c, d) ==> depth <= 50
  {
  }

  /** Some node that the parser comes to has this name and is no object. */
  ghost predicate MalformedMet(deps: seq<Child>, depth: nat, direct: bool, name: string) {
    exists c, d :: Met(deps, depth, direct, c, d) && c.meta.Malformed? && c.name == name
  }

  ghost predicate MalformedMetAt(root: Child, depth: nat, direct: bool, name: string)
    requires depth <= 50
  {
    exists c, d :: MetAt(root, depth, direct, c, d) && c.meta.Malformed? && c.name == name
  }

  lemma MalformedSnoc(deps: seq<Child>, depth: nat, direct: bool, name: string)
    requires deps != [] && depth <= 50
    ensures var n := |deps| - 1;
      MalformedMet(deps, depth, direct, name) <==>
        MalformedMet(deps[..n], depth, direct, name) || MalformedMetAt(deps[n], depth, direct, name)
  {
    hide Met, MetAt;
    var n := |deps| - 1;
    var front, last := deps[..n], deps[n];
    if c, d :| Met(deps, depth, direct, c, d) && c.meta.Malformed? && c.name == name {
      MetSnoc(deps, depth, direct, c, d);
    }
    if c, d :| Met(front, depth, direct, c, d) && c.meta.Malformed? && c.name == name {
      MetSnoc(deps, depth, direct, c, d);
    }
    if c, d :| MetAt(last, depth, direct, c, d) && c.meta.Malformed? && c.name == name {
      MetSnoc(deps, depth, direct, c, d);
    }
  }

  lemma MalformedHere(root: Child, depth: nat, direct: bool, name: string)
    requires depth <= 50
    ensures root.meta.Malformed? ==> (MalformedMetAt(root, depth, direct, name) <==> root.name == name)
    ensures root.meta.Meta? && root.meta.children.NoChildren? ==> !MalformedMetAt(root, depth, direct, name)
    ensures root.meta.Meta? && root.meta.children.Children? ==>
      (MalformedMetAt(root, depth, direct, name) <==>
        depth < 50 && MalformedMet(root.meta.children.entries, depth + 1, false, name))
  {
    hide Met;
    if root.meta.Malformed? {
      assert MetAt(root, depth, direct, root, direct);
    } else if depth < 50 && root.meta.children.Children? {
      var entries, next := root.meta.children.entries, depth + 1;
      if c, d :| Met(entries, next, false, c, d) && c.meta.Malformed? && c.name == name {
        assert MetAt(root, depth, direct, c, d);
      }
      if c, d :| MetAt(root, depth, direct, c, d) && c.meta.Malformed? && c.name == name {
        assert Met(entries, next, false, c, d);
      }
    }
  }

  /** The warnings name exactly the nodes met that are no objects. */
  lemma {:induction false} MalformedAreNamed(deps: seq<Child>, direct: bool, depth: nat, name: string)
    ensures MalformedDependency(name) in Warnings(deps, depth) <==> MalformedMet(deps, depth, direct, name)
    decreases MAX_DEPTH + 1 - depth, |deps|
  {
    if depth > MAX_DEPTH || deps == [] {
      NothingMalformed(deps, depth, direct, name);
    } else {
      hide NodeWarnings, MalformedMet, MalformedMetAt;
      var n := |deps| - 1;
      MalformedAreNamed(deps[..n], direct, depth, name);
      MalformedOfNode(deps[n], direct, depth, name);
      MalformedSnoc(deps, depth, direct, name);
    }
  }

  lemma NothingMalformed(deps: seq<Child>, depth: nat, direct: bool, name: string)
    requires depth > 50 || deps == []
    ensures !MalformedMet(deps, depth, direct, name)
  {
  }

  lemma {:induction false} MalformedOfNode(root: Child, direct: bool, depth: nat, name: string)
    requires depth <= MAX_DEPTH
    ensures MalformedDependency(name) in NodeWarnings(root, depth) <==> MalformedMetAt(root, depth, direct, name)
    decreases MAX_DEPTH + 1 - depth, 0
  {
    hide Warnings, MalformedMet, MalformedMetAt;
    MalformedHere(root, depth, direct, name);
    if root.meta.Meta? && root.meta.children.Children? {
      MalformedAreNamed(root.meta.children.entries, false, depth + 1, name);
      if depth == 50 { NothingMalformed(root.meta.children.entries, 51, false, name); }
    }
  }

  lemma NothingIsListed(lock: string)
    ensures IsListed(lock, [], [])
  {
  }

  lemma ListedConcat(lock: string, nodes: seq<(Child, bool)>, pkgs: seq<Package>, nodes': seq<(Child, bool)>,
                     pkgs': seq<Package>)
    requires IsListed(lock, nodes, pkgs) && IsListed(lock, nodes', pkgs')
    ensures IsListed(lock, nodes + nodes', pkgs + pkgs')
  {
    hide Records;
  }

  // ---------- no dangling edges ----------

  /** Every dependency names a package of the list. */
  ghost predicate Closed(pkgs: seq<Package>) {
    forall p, dep | p in pkgs && dep in p.dependencies :: Provides(pkgs, p, dep)
  }

  ghost predicate Provides(pkgs: seq<Package>, p: Package, dep: Dependency) {
    exists q :: q in pkgs && AsksFor(p, dep, q)
  }

  /** Resolution leaves nothing dangling exactly on a closed list. */
  lemma NothingDanglesIffClosed(pkgs: seq<Package>, graph: ResolvedGraph)
    requires IsResolution(graph, pkgs)
    ensures graph.dangling == [] <==> Closed(pkgs)
  {
    hide IndexOfPackages, EdgesOfPackages, AllUnresolved, AllOverresolved, AsksFor;
    var dangling := AllUnresolved(pkgs, pkgs);
    if dangling != [] {
      var (p, name) := dangling[0];
      assert (p, name) in dangling;
      DanglingMeaning(pkgs, pkgs, p, name);
      var dep :| dep in p.dependencies && dep.name == name && forall q | q in pkgs :: !AsksFor(p, dep, q);
      assert !Provides(pkgs, p, dep);
    }
    if !Closed(pkgs) {
      var p, dep :| p in pkgs && dep in p.dependencies && !Provides(pkgs, p, dep);
      DanglingMeaning(pkgs, pkgs, p, dep.name);
      assert (p, dep.name) in dangling;
    }
  }

  /** Merging a closed list leaves it closed: the winner of a key has the same node. */
  lemma MergeStaysClosed(merged: seq<Package>, pkgs: seq<Package>)
    requires IsMerge(merged, pkgs) && Closed(pkgs)
    ensures Closed(merged)
  {
    hide WithKey, AsksFor;
    forall p, dep | p in merged && dep in p.dependencies ensures Provides(merged, p, dep) {
      WithKeyMeaning(pkgs, KeyOf(p));
      assert p in WithKey(pkgs, KeyOf(p));
      var q :| q in pkgs && AsksFor(p, dep, q);
      assert HasKey(pkgs, KeyOf(q));
      var r :| r in merged && KeyOf(r) == KeyOf(q);
      SameKeySameName(q, r);
    }
  }

  lemma SameKeySameName(q: Package, r: Package)
    requires KeyOf(q) == KeyOf(r)
    ensures q.ecosystem == r.ecosystem && q.name == r.name
    ensures forall p, dep :: AsksFor(p, dep, q) <==> AsksFor(p, dep, r)
  {
    assert KeyOf(q)[0] == q.ecosystem && KeyOf(q)[1] == q.name;
    assert KeyOf(r)[0] == r.ecosystem && KeyOf(r)[1] == r.name;
  }

  /** Inventories that are each closed are closed together. */
  lemma {:induction false} ClosedTogether(inventories: seq<Parsed>)
    requires forall i | 0 <= i < |inventories| :: Closed(inventories[i].packages)
    ensures Closed(AllPackages(inventories))
  {
    hide Closed;
    if inventories != [] {
      var n := |inventories| - 1;
      ClosedTogether(inventories[..n]);
      ClosedConcat(AllPackages(inventories[..n]), inventories[n].packages);
    } else {
      NothingIsClosed();
    }
  }

  lemma NothingIsClosed()
    ensures Closed([])
  {
  }

  /** A child of a parsed forest is a package of its name. */
  lemma {:induction false} ChildIsParsed(lock: string, deps: seq<Child>, direct: bool, depth: nat, i: nat)
    requires FitsFrom(deps, depth) && i < |deps|
    ensures deps[i].meta.Meta? && PackageOf(lock, deps[i], direct) in Flattened(lock, deps, direct, depth)
    decreases |deps|
  {
    hide PackageOf, NodeFits;
    var n := |deps| - 1;
    assert NodeFits(deps[n], depth) && NodeFits(deps[i], depth);
    assert FitsFrom(deps[..n], depth);
    NodeIsParsed(lock, deps[n], direct, depth);
    if i < n { ChildIsParsed(lock, deps[..n], direct, depth, i); }
  }

  lemma NodeIsParsed(lock: string, c: Child, direct: bool, depth: nat)
    requires depth <= MAX_DEPTH && NodeFits(c, depth)
    ensures PackageOf(lock, c, direct) in FlattenedNode(lock, c, direct, depth)
  {
    hide PackageOf, Flattened;
  }

  /** Within one node's packages every edge finds its target. */
  lemma {:induction false} NodeIsClosed(lock: string, c: Child, direct: bool, depth: nat)
    requires depth <= MAX_DEPTH && NodeFits(c, depth)
    ensures Closed(FlattenedNode(lock, c, direct, depth))
    decreases MAX_DEPTH + 1 - depth, 0
  {
    hide PackageOf, Flattened, FitsFrom, AsksFor;
    var own := PackageOf(lock, c, direct);
    var all := FlattenedNode(lock, c, direct, depth);
    if c.meta.children.NoChildren? {
      LeafHasNoEdges(lock, c, direct);
    } else {
      var entries := c.meta.children.entries;
      var below := Flattened(lock, entries, false, depth + 1);
      ForestIsClosed(lock, entries, false, depth + 1);
      forall p, dep | p in all && dep in p.dependencies ensures Provides(all, p, dep) {
        if p in below {
          var q :| q in below && AsksFor(p, dep, q);
          assert q in all;
        } else {
          assert p == own;
          var i := EdgeNamesChild(lock, c, direct, depth, dep);
          ChildIsParsed(lock, entries, false, depth + 1, i);
          assert PackageOf(lock, entries[i], false) in all;
        }
      }
    }
  }

  lemma LeafHasNoEdges(lock: string, c: Child, direct: bool)
    requires c.meta.Meta? && c.meta.children.NoChildren?
    ensures PackageOf(lock, c, direct).dependencies == []
  {
    hide NpmPurl;
  }

  lemma EdgeNamesChild(lock: string, c: Child, direct: bool, depth: nat, dep: Dependency) returns (i: nat)
    requires depth <= MAX_DEPTH && NodeFits(c, depth) && c.meta.children.Children?
    requires dep in PackageOf(lock, c, direct).dependencies
    ensures i < |c.meta.children.entries| && c.meta.children.entries[i].meta.Meta?
    ensures AsksFor(PackageOf(lock, c, direct), dep, PackageOf(lock, c.meta.children.entries[i], false))
  {
    hide NpmPurl, SameProject;
    var entries := c.meta.children.entries;
    assert FitsFrom(entries, depth + 1);
    i :| 0 <= i < |entries| && Edges(entries)[i] == dep;
    assert NodeFits(entries[i], depth + 1);
  }

  /** A forest that fits leaves no dangling edge. */
  lemma {:induction false} ForestIsClosed(lock: string, deps: seq<Child>, direct: bool, depth: nat)
    requires FitsFrom(deps, depth)
    ensures Closed(Flattened(lock, deps, direct, depth))
    decreases MAX_DEPTH + 1 - depth, |deps|
  {
    hide PackageOf, FlattenedNode, NodeFits, AsksFor;
    if deps != [] {
      var n := |deps| - 1;
      assert NodeFits(deps[n], depth);
      assert FitsFrom(deps[..n], depth);
      ForestIsClosed(lock, deps[..n], direct, depth);
      NodeIsClosed(lock, deps[n], direct, depth);
      ClosedConcat(Flattened(lock, deps[..n], direct, depth), FlattenedNode(lock, deps[n], direct, depth));
    }
  }

  lemma ClosedConcat(a: seq<Package>, b: seq<Package>)
    requires Closed(a) && Closed(b)
    ensures Closed(a + b)
  {
    hide AsksFor;
    forall p, dep | p in a + b && dep in p.dependencies ensures Provides(a + b, p, dep) {
      if p in a {
        var q :| q in a && AsksFor(p, dep, q);
        assert q in a + b;
      } else {
        var q :| q in b && AsksFor(p, dep, q);
        assert q in a + b;
      }
    }
  }

  /** A lock file that parses without a warning resolves without a dangling edge, before and
      after merging it with other closed inventories, wherever it stands among them. */
  lemma QuietLockLeavesNothingDangling(lock: string, deps: seq<Child>, inventories: seq<Parsed>, k: nat,
                                       merged: seq<Package>, before: ResolvedGraph, after: ResolvedGraph)
    requires Warnings(deps, 0) == []
    requires k < |inventories| && inventories[k].packages == Flattened(lock, deps, true, 0)
    requires forall i | 0 <= i < |inventories| && i != k :: Closed(inventories[i].packages)
    requires IsMerge(merged, AllPackages(inventories))
    requires IsResolution(before, Flattened(lock, deps, true, 0)) && IsResolution(after, merged)
    ensures before.dangling == [] && after.dangling == []
  {
    hide *;
    QuietIffFits(deps, 0);
    ForestIsClosed(lock, deps, true, 0);
    NothingDanglesIffClosed(Flattened(lock, deps, true, 0), before);
    ClosedTogether(inventories);
    MergeStaysClosed(merged, AllPackages(inventories));
    NothingDanglesIffClosed(merged, after);
  }
}
