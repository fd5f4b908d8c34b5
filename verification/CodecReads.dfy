/** What the argument codec reads from any buffer, well formed or not, said by the images of the
    values rather than by the getters. */
module CodecReads {
  import opened Codec
  import opened Utf8

  // ----- Setters after getters

  lemma {:induction false} LowFirstOfRead(b: seq<byte>)
    ensures 0 <= FromLowFirst(b) < Pow256(|b|) && LowFirst(FromLowFirst(b), |b|) == b
  {
    if b != [] {
      var rest := FromLowFirst(b[1..]);
      LowFirstOfRead(b[1..]);
      assert b == [b[0]] + b[1..];
      assert (b[0] as int + 256 * rest) % 256 == b[0] as int && (b[0] as int + 256 * rest) / 256 == rest;
    }
  }

  /** A setter writes back the bytes that a getter read. */
  lemma ImageOfRead(b: seq<byte>, le: bool)
    ensures 0 <= Unsigned(b, le) < Pow256(|b|) && Image(Unsigned(b, le), |b|, le) == b
  {
    if le {
      LowFirstOfRead(b);
    } else {
      LowFirstOfRead(Reverse(b));
      ReverseTwice(b);
    }
  }

  /** An unsigned getter reads the one number in range whose image the bytes are. */
  lemma UnsignedIff(b: seq<byte>, le: bool, n: int)
    ensures Unsigned(b, le) == n <==> 0 <= n < Pow256(|b|) && Image(n, |b|, le) == b
  {
    hide Pow256, Image, Unsigned;
    ImageOfRead(b, le);
    ImageRoundTrip(n, |b|, le);
    if 0 <= n < Pow256(|b|) { Remainder(n, Pow256(|b|), 0, n); }
  }

  /** A signed getter reads the one number in range whose image the bytes are. */
  lemma SignedIff(b: seq<byte>, le: bool, n: int)
    requires Pow256(|b|) % 2 == 0
    ensures Signed(Unsigned(b, le), |b|) == n <==>
            -(Pow256(|b|) / 2) <= n < Pow256(|b|) / 2 && Image(n, |b|, le) == b
  {
    hide Pow256, Image, Unsigned;
    var p, u := Pow256(|b|), Unsigned(b, le);
    ImageOfRead(b, le);
    ImageRoundTrip(n, |b|, le);
    if -(p / 2) <= n < p / 2 {
      var m := if n < 0 then n + p else n;
      assert n % p == m by { Remainder(n, p, if n < 0 then -1 else 0, m); }
      ImageOfRead(Image(n, |b|, le), le);
    }
  }

  // ----- One field

  /** The bytes that a text of length `n` takes from `from` on: no further than the buffer goes; a
      negative length takes none, unless it leads to before the buffer, where positions count from
      the end. */
  predicate IsTextAt(b: seq<byte>, from: nat, n: int, bytes: seq<byte>)
    requires from <= |b|
  {
    && (0 <= n <= |b| - from ==> bytes == b[from..from + n])
    && (n > |b| - from ==> bytes == b[from..])
    && (n < 0 && (from + n >= 0 || |b| + from + n <= from) ==> bytes == [])
    && (from + n < 0 && |b| + from + n > from ==> bytes == b[from..|b| + from + n])
  }

  ghost predicate TextReads(b: seq<byte>, at: nat, le: bool, v: Value, next: int)
    requires at + 4 <= |b|
  {
    exists n, bytes ::
      && -0x8000_0000 <= n < 0x8000_0000 && b[at..at + 4] == Image(n, 4, le) && next == at + 4 + n
      && IsTextAt(b, at + 4, n, bytes) && v == OText(Decode(bytes))
  }

  /** The field of type `id` at `at` holds `v`, and the next one starts at `next`. */
  ghost predicate Reads(b: seq<byte>, id: int, at: int, le: bool, v: Value, next: int) {
    && at >= 0
    && (id == 1 ==> at + 8 <= |b| && next == at + 8 && v.ONumber? && 0 <= v.bits < 0x1_0000_0000_0000_0000
                    && b[at..next] == Image(v.bits, 8, le))
    && (id == 2 ==> at + 8 <= |b| && next == at + 8 && v.OBigInt?
                    && -0x8000_0000_0000_0000 <= v.n < 0x8000_0000_0000_0000 && b[at..next] == Image(v.n, 8, le))
    && (id == 3 ==> at + 4 <= |b| && next == at + 4 && v.OInt? && -0x8000_0000 <= v.n < 0x8000_0000
                    && b[at..next] == Image(v.n, 4, le))
    && (id == 4 ==> at + 4 <= |b| && TextReads(b, at, le, v, next))
  }

  lemma TextReadsIff(b: seq<byte>, at: nat, le: bool, v: Value, next: int)
    requires at + 4 <= |b|
    ensures ReadField(b, 4, at, le) == In(v, next) <==> TextReads(b, at, le, v, next)
  {
    hide Pow256, Image, Unsigned, Decode;
    WidthsOfFields();
    var n := Signed(Unsigned(b[at..at + 4], le), 4);
    SignedIff(b[at..at + 4], le, n);
    var bytes := Slice(b, at + 4, at + 4 + n);
    assert IsTextAt(b, at + 4, n, bytes);
    if m, other :| -0x8000_0000 <= m < 0x8000_0000 && b[at..at + 4] == Image(m, 4, le) && next == at + 4 + m
                   && IsTextAt(b, at + 4, m, other) && v == OText(Decode(other)) {
      SignedIff(b[at..at + 4], le, m);
      assert other == bytes;
    }
  }

  /** A field is read if and only if it holds a value, and then that one. */
  lemma ReadFieldIff(b: seq<byte>, id: int, at: int, le: bool, v: Value, next: int)
    requires 1 <= id <= 4
    ensures ReadField(b, id, at, le) == In(v, next) <==> Reads(b, id, at, le, v, next)
  {
    hide Pow256, Image, Unsigned, TextReads, Slice;
    WidthsOfFields();
    var size := if id < 3 then 8 else 4;
    if at >= 0 && at + size <= |b| {
      var field := b[at..at + size];
      if id == 1 && v.ONumber? { UnsignedIff(field, le, v.bits); }
      if id == 2 && v.OBigInt? { SignedIff(field, le, v.n); }
      if id == 3 && v.OInt? { SignedIff(field, le, v.n); }
      if id == 4 { TextReadsIff(b, at, le, v, next); }
    }
  }

  // ----- The whole buffer

  /** Each value stands in its field, and each field starts where the one before it ends. */
  ghost predicate FieldsRead(b: seq<byte>, ids: seq<int>, le: bool, vs: seq<Value>, at: seq<int>) {
    && |at| == |vs| + 1 && |vs| <= |ids|
    && forall k | 0 <= k < |vs| :: Reads(b, ids[k], at[k], le, vs[k], at[k + 1])
  }

  lemma {:induction false} FieldsAreRead(b: seq<byte>, ids: seq<int>, offset: int, le: bool, n: nat)
    returns (at: seq<int>)
    requires n <= |ids| && forall k | 0 <= k < |ids| :: 1 <= ids[k] <= 4
    requires ReadFields(b, ids, offset, le, n).In?
    ensures var r := ReadFields(b, ids, offset, le, n);
      |r.value| == n && FieldsRead(b, ids, le, r.value, at) && at[0] == offset && at[n] == r.next
  {
    hide ReadField, Reads;
    at := [offset];
    if n > 0 {
      var before, r := ReadFields(b, ids, offset, le, n - 1), ReadFields(b, ids, offset, le, n);
      at := FieldsAreRead(b, ids, offset, le, n - 1);
      var v := r.value[n - 1];
      ReadFieldIff(b, ids[n - 1], before.next, le, v, r.next);
      at := at + [r.next];
    }
  }

  lemma {:induction false} ReadFieldsAre(b: seq<byte>, ids: seq<int>, le: bool, vs: seq<Value>, at: seq<int>, n: nat)
    requires FieldsRead(b, ids, le, vs, at) && n <= |vs| && forall k | 0 <= k < |ids| :: 1 <= ids[k] <= 4
    ensures ReadFields(b, ids, at[0], le, n) == In(vs[..n], at[n])
  {
    hide ReadField, Reads;
    if n > 0 {
      ReadFieldsAre(b, ids, le, vs, at, n - 1);
      ReadFieldIff(b, ids[n - 1], at[n - 1], le, vs[n - 1], at[n]);
      assert vs[..n] == vs[..n - 1] + [vs[n - 1]];
    }
  }

  ghost predicate HoldsValues(b: seq<byte>, le: bool, vs: seq<Value>) {
    && vs != [] && |vs| < |b| && b[0] as int == |vs|
    && (forall i | 1 <= i <= |vs| :: b[i] in {1, 2, 3, 4})
    && exists at: seq<int> ::
      && |at| == |vs| + 1 && at[0] == 1 + |vs|
      && forall k | 0 <= k < |vs| :: Reads(b, b[1 + k] as int, at[k], le, vs[k], at[k + 1])
  }

  /** Whatever the bytes are: `deserialize` finds nothing exactly where the count is zero, answers
      with the values that the buffer holds, and throws where it holds none. */
  lemma DeserializedIff(b: seq<byte>, le: bool, vs: seq<Value>)
    ensures Deserialized(b, le) == Empty <==> b == [] || b[0] == 0
    ensures Deserialized(b, le) == Values(vs) <==> HoldsValues(b, le, vs)
  {
    hide ReadFields, Reads;
    if Deserialized(b, le) == Values(vs) {
      var argc := b[0] as int;
      var at := FieldsAreRead(b, IdsAt(b, argc), 1 + argc, le, argc);
    }
    if HoldsValues(b, le, vs) {
      var at: seq<int> :| |at| == |vs| + 1 && at[0] == 1 + |vs|
        && forall k | 0 <= k < |vs| :: Reads(b, b[1 + k] as int, at[k], le, vs[k], at[k + 1]);
      assert IdsPresent(b, |vs|);
      assert FieldsRead(b, IdsAt(b, |vs|), le, vs, at);
      ReadFieldsAre(b, IdsAt(b, |vs|), le, vs, at, |vs|);
      assert vs[..|vs|] == vs;
    }
  }
}
