/** The total orders behind Python's `sorted`: strings by code point, key tuples
    lexicographically, and the sorting of sets and lists by such a key. */
module Orders {

  function Min(a: int, b: int): int { if a <= b then a else b }
  function Max(a: int, b: int): int { if a >= b then a else b }

  /** Python's `<` on strings. */
  predicate StringLess(a: string, b: string) {
    && b != []
    && (a == [] || a[0] < b[0] || (a[0] == b[0] && StringLess(a[1..], b[1..])))
  }

  lemma {:induction false} StringTotal(a: string, b: string)
    ensures StringLess(a, b) || a == b || StringLess(b, a)
    ensures !(StringLess(a, b) && StringLess(b, a))
    ensures !StringLess(a, a)
    decreases |a| + |b|
  {
    if a != [] {
      if |a| > 0 { StringIrreflexive(a); }
      if b != [] {
        StringTotal(a[1..], b[1..]);
        assert a == [a[0]] + a[1..] && b == [b[0]] + b[1..];
      }
    }
  }

  lemma {:induction false} StringIrreflexive(a: string)
    ensures !StringLess(a, a)
  {
    if a != [] { StringIrreflexive(a[1..]); }
  }

  lemma {:induction false} StringTransitive(a: string, b: string, c: string)
    requires StringLess(a, b) && StringLess(b, c)
    ensures StringLess(a, c)
  {
    if a != [] && a[0] == b[0] && b[0] == c[0] {
      StringTransitive(a[1..], b[1..], c[1..]);
    }
  }

  /** The first difference decides; a proper prefix comes first. */
  lemma {:induction false} StringLessMeaning(a: string, b: string)
    ensures StringLess(a, b) <==>
            exists k :: 0 <= k <= |a| && k < |b| && a[..k] == b[..k] && (k == |a| || a[k] < b[k])
  {
    if a != [] && b != [] {
      StringLessMeaning(a[1..], b[1..]);
      if a[0] == b[0] && StringLess(a[1..], b[1..]) {
        var k :| 0 <= k <= |a| - 1 && k < |b| - 1 && a[1..][..k] == b[1..][..k]
                 && (k == |a| - 1 || a[1..][k] < b[1..][k]);
        assert a[..k + 1] == [a[0]] + a[1..][..k] && b[..k + 1] == [b[0]] + b[1..][..k];
      }
      if k :| 0 < k <= |a| && k < |b| && a[..k] == b[..k] && (k == |a| || a[k] < b[k]) {
        assert a[0] == a[..k][0] && b[0] == b[..k][0];
        assert a[1..][..k - 1] == a[..k][1..] && b[1..][..k - 1] == b[..k][1..];
      }
      assert a[..0] == b[..0] == [];
    } else {
      assert a[..0] == b[..0] == [];
    }
  }

  /** A sort key: a tuple of strings. */
  type Key = seq<string>

  /** Python's `<` on tuples of strings. */
  predicate KeyLess(a: Key, b: Key) {
    && b != []
    && (a == [] || StringLess(a[0], b[0]) || (a[0] == b[0] && KeyLess(a[1..], b[1..])))
  }

  /** Tuples of the same kind compare by their first components, and after equal ones by the rest. */
  lemma PairLess(x: string, y: string, x': string, y': string)
    ensures KeyLess([x, y], [x', y']) <==> StringLess(x, x') || (x == x' && StringLess(y, y'))
  {
    assert [x, y][1..] == [y] && [x', y'][1..] == [y'];
    assert [y][1..] == [] && [y'][1..] == [];
    assert KeyLess([y], [y']) <==> StringLess(y, y');
  }

  lemma ComesFirst(x: string, rest: Key, x': string, rest': Key)
    ensures KeyLess([x] + rest, [x'] + rest') <==> StringLess(x, x') || (x == x' && KeyLess(rest, rest'))
  {
    assert ([x] + rest)[1..] == rest && ([x'] + rest')[1..] == rest';
  }

  predicate KeyLeq(a: Key, b: Key) { a == b || KeyLess(a, b) }

  lemma {:induction false} KeyTotal(a: Key, b: Key)
    ensures KeyLess(a, b) || a == b || KeyLess(b, a)
    ensures !(KeyLess(a, b) && KeyLess(b, a))
    ensures !KeyLess(a, a)
    decreases |a| + |b|
  {
    KeyIrreflexive(a);
    if a != [] && b != [] {
      StringTotal(a[0], b[0]);
      StringIrreflexive(a[0]);
      KeyTotal(a[1..], b[1..]);
      assert a == [a[0]] + a[1..] && b == [b[0]] + b[1..];
    }
  }

  lemma {:induction false} KeyIrreflexive(a: Key)
    ensures !KeyLess(a, a)
  {
    if a != [] { StringIrreflexive(a[0]); KeyIrreflexive(a[1..]); }
  }

  lemma {:induction false} KeyTransitive(a: Key, b: Key, c: Key)
    requires KeyLess(a, b) && KeyLess(b, c)
    ensures KeyLess(a, c)
  {
    if a != [] {
      StringIrreflexive(a[0]);
      if StringLess(a[0], b[0]) && StringLess(b[0], c[0]) { StringTransitive(a[0], b[0], c[0]); }
      if a[0] == b[0] && b[0] == c[0] { KeyTransitive(a[1..], b[1..], c[1..]); }
    }
  }

  /** `key` tells the elements of `s` apart. */
  ghost predicate InjectiveOn<T(!new)>(key: T -> Key, s: set<T>) {
    forall x, y | x in s && y in s && key(x) == key(y) :: x == y
  }

  ghost predicate StrictlySorted<T>(key: T -> Key, q: seq<T>) {
    forall i, j | 0 <= i < j < |q| :: KeyLess(key(q[i]), key(q[j]))
  }

  predicate IsLeast<T(!new,==)>(key: T -> Key, s: set<T>, m: T) {
    m in s && forall y | y in s :: KeyLeq(key(m), key(y))
  }

  lemma {:induction false} LeastExists<T(!new)>(key: T -> Key, s: set<T>)
    requires s != {} && InjectiveOn(key, s)
    ensures exists m :: IsLeast(key, s, m)
    decreases |s|
  {
    var x :| x in s;
    if s == {x} {
      assert IsLeast(key, s, x);
    } else {
      LeastExists(key, s - {x});
      var m :| IsLeast(key, s - {x}, m);
      LeastOfBoth(key, s, x, m);
    }
  }

  lemma LeastOfBoth<T(!new)>(key: T -> Key, s: set<T>, x: T, m: T)
    requires x in s && IsLeast(key, s - {x}, m)
    ensures exists least :: IsLeast(key, s, least)
  {
    hide KeyLess;
    KeyTotal(key(x), key(m));
    var least := if KeyLess(key(x), key(m)) then x else m;
    forall y | y in s ensures KeyLeq(key(least), key(y)) {
      if least == x && y != x && key(m) != key(y) { KeyTransitive(key(x), key(m), key(y)); }
    }
    assert IsLeast(key, s, least);
  }

  lemma LeastUnique<T(!new)>(key: T -> Key, s: set<T>, m: T, n: T)
    requires InjectiveOn(key, s) && IsLeast(key, s, m) && IsLeast(key, s, n)
    ensures m == n
  {
    KeyTotal(key(m), key(n));
  }

  /** The element of `s` with the least key. */
  function Least<T(!new,==)>(key: T -> Key, s: set<T>): (m: T)
    requires s != {} && InjectiveOn(key, s)
    ensures IsLeast(key, s, m)
  {
    LeastExists(key, s);
    assert forall m, n | IsLeast(key, s, m) && IsLeast(key, s, n) :: m == n by {
      forall m, n | IsLeast(key, s, m) && IsLeast(key, s, n) ensures m == n { LeastUnique(key, s, m, n); }
    }
    var m :| m in s && IsLeast(key, s, m);
    m
  }

  /** `sorted(s, key=key)` of a set whose elements have distinct keys. */
  function Sorted<T(!new,==)>(key: T -> Key, s: set<T>): (q: seq<T>)
    requires InjectiveOn(key, s)
    ensures forall x :: x in q <==> x in s
    ensures |q| == |s|
    ensures StrictlySorted(key, q)
    decreases |s|
  {
    if s == {} then [] else
      var m := Least(key, s);
      var rest := Sorted(key, s - {m});
      assert StrictlySorted(key, [m] + rest) by {
        forall j | 0 <= j < |rest| ensures KeyLess(key(m), key(rest[j])) {
          assert rest[j] in s - {m};
        }
      }
      [m] + rest
  }

  ghost predicate Ascending<T>(key: T -> Key, q: seq<T>) {
    forall i, j | 0 <= i < j < |q| :: KeyLeq(key(q[i]), key(q[j]))
  }

  /** Places `x` after every element whose key is not greater. */
  function Insert<T>(key: T -> Key, q: seq<T>, x: T): (r: seq<T>)
    requires Ascending(key, q)
    ensures Ascending(key, r)
    ensures multiset(r) == multiset(q) + multiset{x}
  {
    if q == [] || KeyLeq(key(q[|q| - 1]), key(x)) then
      assert Ascending(key, q + [x]) by {
        forall i | 0 <= i < |q| ensures KeyLeq(key(q[i]), key(x)) {
          if i < |q| - 1 { LeqTransitive(key(q[i]), key(q[|q| - 1]), key(x)); }
        }
      }
      q + [x]
    else
      var z := q[|q| - 1];
      assert q == q[..|q| - 1] + [z];
      var r := Insert(key, q[..|q| - 1], x);
      assert Ascending(key, r + [z]) by {
        KeyTotal(key(z), key(x));
        forall i | 0 <= i < |r| ensures KeyLeq(key(r[i]), key(z)) {
          assert r[i] in multiset(q[..|q| - 1]) + multiset{x};
          assert r[i] == x || r[i] in q[..|q| - 1];
        }
      }
      r + [z]
  }

  lemma LeqTransitive(a: Key, b: Key, c: Key)
    requires KeyLeq(a, b) && KeyLeq(b, c)
    ensures KeyLeq(a, c)
  {
    if a != b && b != c { KeyTransitive(a, b, c); }
  }

  /** `sorted(q, key=key)` of a list: stable, so equal keys keep their order. */
  function SortList<T>(key: T -> Key, q: seq<T>): (r: seq<T>)
    ensures Ascending(key, r)
    ensures multiset(r) == multiset(q)
  {
    if q == [] then [] else
      assert q == q[..|q| - 1] + [q[|q| - 1]];
      Insert(key, SortList(key, q[..|q| - 1]), q[|q| - 1])
  }

  ghost function Elements<T>(q: seq<T>): set<T> { set x | x in q }

  lemma SameElements<T>(q: seq<T>, r: seq<T>)
    requires multiset(q) == multiset(r)
    ensures |q| == |r| && forall x :: x in q <==> x in r
  {
    assert |q| == |multiset(q)| && |r| == |multiset(r)|;
    forall x ensures x in q <==> x in r {
      assert x in q <==> x in multiset(q);
      assert x in r <==> x in multiset(r);
    }
  }

  ghost function ImageOf<T, U>(f: T -> U, xs: set<T>): set<U> { set x | x in xs :: f(x) }

  /** An image is as large as the set exactly when the function is injective on it. */
  lemma {:induction false} ImageSize<T(!new), U>(f: T -> U, xs: set<T>)
    ensures |ImageOf(f, xs)| <= |xs|
    ensures |ImageOf(f, xs)| == |xs| <==> forall x, y | x in xs && y in xs && f(x) == f(y) :: x == y
    decreases |xs|
  {
    if xs != {} {
      var x :| x in xs;
      var rest := xs - {x};
      ImageSize(f, rest);
      if f(x) in ImageOf(f, rest) {
        assert ImageOf(f, xs) == ImageOf(f, rest);
        assert !forall y, z | y in xs && z in xs && f(y) == f(z) :: y == z;
      } else {
        assert ImageOf(f, xs) == ImageOf(f, rest) + {f(x)};
      }
    }
  }
}
