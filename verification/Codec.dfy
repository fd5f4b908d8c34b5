/** The argument codec of the OPFS proxy: a tagged byte format in a shared buffer. */
module Codec {
  import opened Orders
  import opened Utf8

  const MAX_INT32 := 0x8000_0000

  /** An argument.  A number is its 64-bit float image; `Unsupported` is any other type. */
  datatype Arg = Number(bits: int) | BigInt(n: int) | Boolean(b: bool) | Text(s: string) | Unsupported

  /** A value read back.  Booleans come back as the integers 0 and 1. */
  datatype Value = ONumber(bits: int) | OBigInt(n: int) | OInt(n: int) | OText(s: string)

  datatype Decoded = Empty | Values(values: seq<Value>) | Threw

  // ----- Fixed-size fields

  function Pow256(k: nat): (p: int)
    ensures p > 0
  {
    if k == 0 then 1 else 256 * Pow256(k - 1)
  }

  /** The `k` low-order bytes of `n`, lowest first. */
  function LowFirst(n: int, k: nat): (r: seq<byte>)
    ensures |r| == k
    decreases k
  {
    if k == 0 then [] else [(n % 256) as byte] + LowFirst(n / 256, k - 1)
  }

  function FromLowFirst(b: seq<byte>): int {
    if b == [] then 0 else b[0] as int + 256 * FromLowFirst(b[1..])
  }

  function Reverse(b: seq<byte>): (r: seq<byte>)
    ensures |r| == |b|
  {
    if b == [] then [] else Reverse(b[1..]) + [b[0]]
  }

  /** The bytes that a DataView setter writes. */
  function Image(n: int, k: nat, littleEndian: bool): (r: seq<byte>)
    ensures |r| == k
  {
    if littleEndian then LowFirst(n, k) else Reverse(LowFirst(n, k))
  }

  /** The unsigned number that a DataView getter reads. */
  function Unsigned(b: seq<byte>, littleEndian: bool): int {
    if littleEndian then FromLowFirst(b) else FromLowFirst(Reverse(b))
  }

  /** Two's complement. */
  function Signed(u: int, k: nat): int {
    if 2 * u >= Pow256(k) then u - Pow256(k) else u
  }

  lemma {:induction false} ReverseSnoc(b: seq<byte>, x: byte)
    ensures Reverse(b + [x]) == [x] + Reverse(b)
  {
    if b != [] {
      assert (b + [x])[1..] == b[1..] + [x];
      ReverseSnoc(b[1..], x);
    }
  }

  lemma {:induction false} ReverseTwice(b: seq<byte>)
    ensures Reverse(Reverse(b)) == b
  {
    if b != [] {
      ReverseTwice(b[1..]);
      ReverseSnoc(Reverse(b[1..]), b[0]);
    }
  }

  lemma {:induction false} LowFirstRoundTrip(n: int, k: nat)
    ensures FromLowFirst(LowFirst(n, k)) == n % Pow256(k)
    decreases k
  {
    if k > 0 {
      LowFirstRoundTrip(n / 256, k - 1);
      assert LowFirst(n, k)[1..] == LowFirst(n / 256, k - 1);
      DivMod(n, Pow256(k - 1));
    }
  }

  lemma DivMod(n: int, p: int)
    requires p > 0
    ensures n % (256 * p) == n % 256 + 256 * (n / 256 % p)
  {
    var q, r := n / 256, n % 256;
    var a, b := q / p, q % p;
    assert n == 256 * (p * a + b) + r;
    assert n == (256 * p) * a + (256 * b + r);
    assert 0 <= 256 * b + r < 256 * p;
    Remainder(n, 256 * p, a, 256 * b + r);
  }

  lemma Remainder(n: int, d: int, q: int, r: int)
    requires d > 0 && n == d * q + r && 0 <= r < d
    ensures n % d == r
  {
    var q', r' := n / d, n % d;
    var k := q' - q;
    assert d * k == r - r' by { assert n == d * q' + r'; }
    assert k == 0;
  }

  /** A getter reads back what the setter of the same byte order wrote, modulo the width. */
  lemma ImageRoundTrip(n: int, k: nat, littleEndian: bool)
    ensures Unsigned(Image(n, k, littleEndian), littleEndian) == n % Pow256(k)
  {
    LowFirstRoundTrip(n, k);
    ReverseTwice(LowFirst(n, k));
  }

  lemma {:induction false} LowFirstAt(n: int, k: nat, i: nat)
    requires i < k
    ensures LowFirst(n, k)[i] as int == n / Pow256(i) % 256
    decreases k
  {
    if i > 0 {
      LowFirstAt(n / 256, k - 1, i - 1);
      NestedQuotient(n, Pow256(i - 1));
    }
  }

  lemma NestedQuotient(n: int, p: int)
    requires p > 0
    ensures n / (256 * p) == n / 256 / p
  {
    var q := n / 256;
    assert n == 256 * q + n % 256 && q == p * (q / p) + q % p;
    assert n == (256 * p) * (q / p) + (256 * (q % p) + n % 256);
    Quotient(n, 256 * p, q / p, 256 * (q % p) + n % 256);
  }

  lemma Quotient(n: int, d: int, q: int, r: int)
    requires d > 0 && n == d * q + r && 0 <= r < d
    ensures n / d == q
  {
    Remainder(n, d, q, r);
    assert d * (n / d) == d * q by { assert n == d * (n / d) + n % d; }
    assert d * (n / d - q) == 0;
  }

  lemma {:induction false} ReverseAt(b: seq<byte>, i: nat)
    requires i < |b|
    ensures Reverse(b)[|b| - 1 - i] == b[i]
  {
    if i > 0 { ReverseAt(b[1..], i - 1); }
  }

  /** A setter writes the digits of the number to base 256, the lowest first in little-endian order
      and last otherwise. */
  lemma ImageBytes(n: int, k: nat, littleEndian: bool, i: nat)
    requires i < k
    ensures Image(n, k, littleEndian)[if littleEndian then i else k - 1 - i] as int == n / Pow256(i) % 256
  {
    hide LowFirst, Reverse;
    LowFirstAt(n, k, i);
    if !littleEndian { ReverseAt(LowFirst(n, k), i); }
  }

  lemma WidthsOfFields()
    ensures Pow256(4) == 0x1_0000_0000 && Pow256(8) == 0x1_0000_0000_0000_0000
  {
    assert Pow256(1) == 256 && Pow256(2) == 65536 && Pow256(3) == 0x100_0000;
    assert Pow256(5) == 0x100_0000_0000 && Pow256(6) == 0x1_0000_0000_0000 && Pow256(7) == 0x100_0000_0000_0000;
  }

  // ----- The format

  function TypeId(a: Arg): int
    requires !a.Unsupported?
  {
    match a case Number(_) => 1 case BigInt(_) => 2 case Boolean(_) => 3 case Text(_) => 4
  }

  /** The raw bytes of one argument. */
  function Field(a: Arg, le: bool): seq<byte>
    requires !a.Unsupported?
  {
    match a
    case Number(bits) => Image(bits, 8, le)
    case BigInt(n) => Image(n, 8, le)
    case Boolean(b) => Image(if b then 1 else 0, 4, le)
    case Text(s) => Image(|Encode(s)|, 4, le) + Encode(s)
  }

  predicate Supported(args: seq<Arg>) { forall i | 0 <= i < |args| :: !args[i].Unsupported? }

  function Ids(args: seq<Arg>): (r: seq<byte>)
    requires Supported(args)
    ensures |r| == |args| && forall i | 0 <= i < |args| :: r[i] as int == TypeId(args[i])
  {
    seq(|args|, i requires 0 <= i < |args| => TypeId(args[i]) as byte)
  }

  function Data(args: seq<Arg>, le: bool): seq<byte>
    requires Supported(args)
  {
    if args == [] then [] else Data(args[..|args| - 1], le) + Field(args[|args| - 1], le)
  }

  /** The whole data set: count, type ids, fields. */
  function Serialized(args: seq<Arg>, le: bool): seq<byte>
    requires Supported(args)
  {
    [(|args| % 256) as byte] + Ids(args) + Data(args, le)
  }

  lemma Middle(pre: seq<byte>, f: seq<byte>, rest: seq<byte>)
    ensures (pre + f + rest)[|pre|..|pre| + |f|] == f
  {
  }

  /** Where the field of an argument stands: behind the fields before it. */
  lemma FieldStands(args: seq<Arg>, le: bool, k: nat)
    requires Supported(args) && k < |args|
    ensures Supported(args[..k])
    ensures var b, f, at := Serialized(args, le), Field(args[k], le), 1 + |args| + |Data(args[..k], le)|;
      at + |f| <= |b| && b[at..at + |f|] == f
  {
    hide Field;
    DataPrefix(args, k, le);
    DataPrefix(args, k + 1, le);
    assert args[..k + 1][..k] == args[..k];
    var head, f := [(|args| % 256) as byte] + Ids(args), Field(args[k], le);
    var before, upto, all := Data(args[..k], le), Data(args[..k + 1], le), Data(args, le);
    assert upto == before + f;
    hide Data, Ids;
    var rest := all[|upto|..];
    assert all == before + f + rest;
    assert Serialized(args, le) == (head + before) + f + rest;
    Middle(head + before, f, rest);
  }

  /** The fixed parts of the format: the count of the arguments in one byte, then a type id for each. */
  lemma HeadOfFormat(args: seq<Arg>, le: bool, k: nat)
    requires Supported(args) && k < |args|
    ensures var b, a := Serialized(args, le), args[k];
      && 1 + k < |b| && b[0] as int == |args| % 256
      && b[1 + k] as int == (if a.Number? then 1 else if a.BigInt? then 2 else if a.Boolean? then 3 else 4)
  {
    hide Data;
    assert Serialized(args, le)[1 + k] == Ids(args)[k];
  }

  /** What a field holds: a number or a big integer in eight bytes, a boolean in four, a text behind
      its length in bytes. */
  lemma FieldHolds(a: Arg, le: bool)
    requires !a.Unsupported?
    ensures var f := Field(a, le);
      && (a.Number? ==> f == Image(a.bits, 8, le)) && (a.BigInt? ==> f == Image(a.n, 8, le))
      && (a.Boolean? ==> f == Image(if a.b then 1 else 0, 4, le))
      && (a.Text? ==> |f| == 4 + |Encode(a.s)| && f[..4] == Image(|Encode(a.s)|, 4, le) && f[4..] == Encode(a.s))
  {
    hide Image, Encode;
  }

  // ----- Reading

  /** `viewU8.slice(from, to)` of a view of these bytes: ends are clamped, and a
      negative end counts from the back. */
  function Slice(b: seq<byte>, from: int, to: int): seq<byte>
    requires from >= 0
  {
    var lo := Min(from, |b|);
    var hi := if to < 0 then Max(|b| + to, 0) else Min(to, |b|);
    if lo <= hi then b[lo..hi] else []
  }

  /** A fixed-size read; `None` is the RangeError of a DataView. */
  datatype Read<+T> = Out | In(value: T, next: int)

  function ReadField(b: seq<byte>, id: int, offset: int, le: bool): Read<Value> {
    if id == 4 then
      if offset < 0 || offset + 4 > |b| then Out else
        var n := Signed(Unsigned(b[offset..offset + 4], le), 4);
        In(OText(Decode(Slice(b, offset + 4, offset + 4 + n))), offset + 4 + n)
    else
      var size := if id == 3 then 4 else 8;
      if offset < 0 || offset + size > |b| then Out else
        var u := Unsigned(b[offset..offset + size], le);
        In(if id == 1 then ONumber(u) else if id == 2 then OBigInt(Signed(u, 8)) else OInt(Signed(u, 4)), offset + size)
  }

  /** Position and values after reading the first `n` fields. */
  function ReadFields(b: seq<byte>, ids: seq<int>, offset: int, le: bool, n: nat): Read<seq<Value>>
    requires n <= |ids|
  {
    if n == 0 then In([], offset) else
      match ReadFields(b, ids, offset, le, n - 1)
      case Out => Out
      case In(vs, at) =>
        match ReadField(b, ids[n - 1], at, le)
        case Out => Out
        case In(v, next) => In(vs + [v], next)
  }

  predicate IdsPresent(b: seq<byte>, argc: nat) {
    argc < |b| && forall i | 1 <= i <= argc :: 1 <= b[i] <= 4
  }

  function IdsAt(b: seq<byte>, argc: nat): (r: seq<int>)
    requires IdsPresent(b, argc)
    ensures |r| == argc && forall i | 0 <= i < argc :: r[i] == b[1 + i] as int
  {
    seq(argc, i requires 0 <= i < argc => b[1 + i] as int)
  }

  /** What `deserialize` makes of a buffer. */
  function Deserialized(b: seq<byte>, le: bool): Decoded {
    if b == [] || b[0] == 0 then Empty else
      var argc := b[0] as int;
      if !IdsPresent(b, argc) then Threw else
        match ReadFields(b, IdsAt(b, argc), 1 + argc, le, argc)
        case Out => Threw
        case In(vs, _) => Values(vs)
  }

  lemma {:induction false} ReadFieldsCount(b: seq<byte>, ids: seq<int>, offset: int, le: bool, n: nat)
    requires n <= |ids|
    ensures match ReadFields(b, ids, offset, le, n) case Out => true case In(vs, _) => |vs| == n
  {
    if n > 0 { ReadFieldsCount(b, ids, offset, le, n - 1); }
  }

  // ----- The round trip

  /** What comes back for an argument. */
  function Returned(a: Arg): Value
    requires !a.Unsupported?
  {
    match a
    case Number(bits) => ONumber(bits % Pow256(8))
    case BigInt(n) => OBigInt(Signed(n % Pow256(8), 8))
    case Boolean(b) => OInt(if b then 1 else 0)
    case Text(s) => OText(StripBom(s))
  }

  function AllReturned(args: seq<Arg>): (r: seq<Value>)
    requires Supported(args)
    ensures |r| == |args| && forall i | 0 <= i < |args| :: r[i] == Returned(args[i])
  {
    seq(|args|, i requires 0 <= i < |args| => Returned(args[i]))
  }

  lemma FixedFieldRoundTrip(pre: seq<byte>, a: Arg, rest: seq<byte>, le: bool)
    requires !a.Unsupported? && !a.Text?
    ensures ReadField(pre + Field(a, le) + rest, TypeId(a), |pre|, le) == In(Returned(a), |pre| + |Field(a, le)|)
  {
    hide Image, Unsigned;
    WidthsOfFields();
    hide Pow256;
    match a
    case Number(bits) => ImageRoundTrip(bits, 8, le);
    case BigInt(n) => ImageRoundTrip(n, 8, le);
    case Boolean(v) => ImageRoundTrip(if v then 1 else 0, 4, le);
  }

  lemma TextFieldRoundTrip(pre: seq<byte>, s: string, rest: seq<byte>, le: bool)
    requires |Encode(s)| < MAX_INT32
    ensures ReadField(pre + Field(Text(s), le) + rest, 4, |pre|, le)
      == In(OText(StripBom(s)), |pre| + |Field(Text(s), le)|)
  {
    hide Image, Unsigned, Decode, Encode;
    WidthsOfFields();
    hide Pow256;
    var n, size, bytes := |Encode(s)|, Image(|Encode(s)|, 4, le), Encode(s);
    var b := pre + Field(Text(s), le) + rest;
    assert b == pre + size + (bytes + rest);
    assert b == (pre + size) + bytes + rest;
    ImageRoundTrip(n, 4, le);
    TextRoundTrip(s);
  }

  /** One argument, wherever its field stands. */
  lemma FieldRoundTrip(pre: seq<byte>, a: Arg, rest: seq<byte>, le: bool)
    requires !a.Unsupported? && (a.Text? ==> |Encode(a.s)| < MAX_INT32)
    ensures ReadField(pre + Field(a, le) + rest, TypeId(a), |pre|, le) == In(Returned(a), |pre| + |Field(a, le)|)
  {
    hide ReadField, Field;
    match a
    case Text(s) => TextFieldRoundTrip(pre, s, rest, le);
    case _ => FixedFieldRoundTrip(pre, a, rest, le);
  }

  lemma DataPrefix(args: seq<Arg>, n: nat, le: bool)
    requires Supported(args) && n <= |args|
    ensures Supported(args[..n]) && Data(args[..n], le) <= Data(args, le)
    decreases |args|
  {
    if n < |args| {
      DataPrefix(args[..|args| - 1], n, le);
      assert args[..|args| - 1][..n] == args[..n];
    } else {
      assert args[..n] == args;
    }
  }

  ghost predicate ShortTexts(args: seq<Arg>) {
    forall i | 0 <= i < |args| && args[i].Text? :: |Encode(args[i].s)| < MAX_INT32
  }

  lemma Regroup(head: seq<byte>, before: seq<byte>, field: seq<byte>, all: seq<byte>, rest: seq<byte>)
    requires before + field <= all
    ensures head + all + rest == (head + before) + field + (all[|before + field|..] + rest)
  {
    assert all == (before + field) + all[|before + field|..];
  }

  lemma {:induction false} DataRoundTrip(head: seq<byte>, args: seq<Arg>, rest: seq<byte>, ids: seq<int>, le: bool,
                                         n: nat)
    requires Supported(args) && ShortTexts(args) && n <= |args| == |ids|
    requires forall i | 0 <= i < |args| :: ids[i] == TypeId(args[i])
    ensures Supported(args[..n])
    ensures ReadFields(head + Data(args, le) + rest, ids, |head|, le, n)
            == In(AllReturned(args[..n]), |head| + |Data(args[..n], le)|)
  {
    hide Returned, ReadField, Field, Encode, TypeId;
    if n == 0 {
      assert args[..0] == [];
    } else {
      DataRoundTrip(head, args, rest, ids, le, n - 1);
      DataPrefix(args, n - 1, le);
      DataPrefix(args, n, le);
      var before, upto := Data(args[..n - 1], le), Data(args[..n], le);
      assert args[..n][..n - 1] == args[..n - 1];
      assert upto == before + Field(args[n - 1], le);
      var all := Data(args, le);
      var tail := all[|upto|..] + rest;
      Regroup(head, before, Field(args[n - 1], le), all, rest);
      FieldRoundTrip(head + before, args[n - 1], tail, le);
      hide Data;
      assert AllReturned(args[..n]) == AllReturned(args[..n - 1]) + [Returned(args[n - 1])];
    }
  }

  /** `deserialize` after `serialize`: for 1 to 255 arguments every value comes back,
      in order, whatever the buffer holds behind the data. */
  lemma RoundTrip(args: seq<Arg>, rest: seq<byte>, le: bool)
    requires Supported(args) && ShortTexts(args) && 1 <= |args| <= 255
    ensures Deserialized(Serialized(args, le) + rest, le) == Values(AllReturned(args))
  {
    hide Data, ReadFields, Returned;
    var b := Serialized(args, le) + rest;
    var n := |args|;
    var head := [(n % 256) as byte] + Ids(args);
    assert b == head + Data(args, le) + rest;
    forall i | 0 <= i < n ensures b[1 + i] as int == TypeId(args[i]) { assert b[1 + i] == Ids(args)[i]; }
    assert b[0] as int == n && IdsPresent(b, n);
    DataRoundTrip(head, args, rest, IdsAt(b, n), le, n);
    assert args[..n] == args;
  }

  /** With more arguments than the count byte can hold, what comes back is never
      the argument list: the count is off by a multiple of 256. */
  lemma TooManyArgumentsGetLost(args: seq<Arg>, rest: seq<byte>, le: bool)
    requires Supported(args) && |args| > 255
    ensures match Deserialized(Serialized(args, le) + rest, le)
            case Values(vs) => |vs| == |args| % 256 != |args|
            case _ => true
  {
    hide Data, ReadFields;
    var b := Serialized(args, le) + rest;
    assert b[0] as int == |args| % 256;
    if b[0] != 0 && IdsPresent(b, b[0] as int) {
      ReadFieldsCount(b, IdsAt(b, b[0] as int), 1 + b[0] as int, le, b[0] as int);
    }
  }

  /** The read value is the argument itself. */
  predicate Unchanged(a: Arg, v: Value) {
    match (a, v)
    case (Number(x), ONumber(y)) => x == y
    case (BigInt(x), OBigInt(y)) => x == y
    case (Text(x), OText(y)) => x == y
    case _ => false
  }

  /** 64-bit number images, 64-bit integers, and texts without a leading byte order mark. */
  predicate Representable(a: Arg) {
    match a
    case Number(bits) => 0 <= bits < 0x1_0000_0000_0000_0000
    case BigInt(n) => -0x8000_0000_0000_0000 <= n < 0x8000_0000_0000_0000
    case Text(s) => s == [] || s[0] != BOM
    case _ => false
  }

  /** Exactly the representable arguments come back unchanged; booleans never do. */
  lemma UnchangedIff(a: Arg)
    requires !a.Unsupported?
    ensures Unchanged(a, Returned(a)) <==> Representable(a)
  {
    WidthsOfFields();
    hide Pow256;
    match a
    case BigInt(n) =>
      var u := n % Pow256(8);
      if -0x8000_0000_0000_0000 <= n < 0 { Remainder(n, Pow256(8), -1, n + Pow256(8)); }
    case _ =>
  }

  /** What was read is the argument list itself. */
  predicate ReadsBack(args: seq<Arg>, r: Decoded) {
    r.Values? && |r.values| == |args| && forall i | 0 <= i < |args| :: Unchanged(args[i], r.values[i])
  }

  /** `deserialize` undoes `serialize` exactly for 1 to 255 representable arguments. */
  lemma ReadsBackIff(args: seq<Arg>, rest: seq<byte>, le: bool)
    requires Supported(args) && ShortTexts(args)
    ensures ReadsBack(args, Deserialized(Serialized(args, le) + rest, le)) <==>
            1 <= |args| <= 255 && forall i | 0 <= i < |args| :: Representable(args[i])
  {
    hide Unchanged, Returned, Representable, Deserialized, Serialized;
    if args == [] {
      NothingReadsEmpty(rest, le);
    } else if |args| > 255 {
      TooManyArgumentsGetLost(args, rest, le);
    } else {
      RoundTrip(args, rest, le);
      forall i | 0 <= i < |args|
        ensures Unchanged(args[i], AllReturned(args)[i]) <==> Representable(args[i])
      {
        UnchangedIff(args[i]);
      }
    }
  }

  lemma NothingReadsEmpty(rest: seq<byte>, le: bool)
    ensures Deserialized(Serialized([], le) + rest, le) == Empty
  {
    hide ReadFields;
    assert Serialized([], le)[0] == 0;
  }

  // ----- The shared buffer

  /** `b` with `bytes` written over it at `offset`. */
  function Splice(b: seq<byte>, offset: nat, bytes: seq<byte>): (r: seq<byte>)
    requires offset + |bytes| <= |b|
    ensures |r| == |b|
  {
    b[..offset] + bytes + b[offset + |bytes|..]
  }

  /** The state of one side: the byte view and the byte order. */
  class Serializer {
    const view: array<byte>
    const littleEndian: bool

    constructor (view: array<byte>, littleEndian: bool)
      ensures this.view == view && this.littleEndian == littleEndian
    {
      this.view := view;
      this.littleEndian := littleEndian;
    }

    /** A DataView setter, or `viewU8.set`: in range or not at all. */
    method Put(offset: nat, bytes: seq<byte>) returns (ok: bool)
      modifies view
      ensures ok == (offset + |bytes| <= view.Length)
      ensures view[..] == if ok then Splice(old(view[..]), offset, bytes) else old(view[..])
    {
      if offset + |bytes| > view.Length { return false; }
      ok := true;
      for i := 0 to |bytes|
        invariant forall j | 0 <= j < view.Length ::
          view[j] == if offset <= j < offset + i then bytes[j - offset] else old(view[j])
      {
        view[offset + i] := bytes[i];
      }
    }

    /** A text: its length in bytes, then the bytes. */
    method PutText(offset: nat, s: string) returns (ok: bool)
      modifies view
      ensures ok == (offset + |Field(Text(s), littleEndian)| <= view.Length)
      ensures ok ==> view[..] == Splice(old(view[..]), offset, Field(Text(s), littleEndian))
    {
      hide Image, Encode, Splice;
      var bytes := Encode(s);
      ok := Put(offset, Image(|bytes|, 4, littleEndian));
      if ok {
        if offset + 4 + |bytes| <= view.Length {
          SpliceTwice(view[..], old(view[..]), offset, Image(|bytes|, 4, littleEndian), bytes);
        }
        ok := Put(offset + 4, bytes);
      }
    }

    /** One argument: a setter call, or a length and the text's bytes. */
    method PutField(offset: nat, a: Arg) returns (ok: bool)
      requires !a.Unsupported?
      modifies view
      ensures ok == (offset + |Field(a, littleEndian)| <= view.Length)
      ensures ok ==> view[..] == Splice(old(view[..]), offset, Field(a, littleEndian))
    {
      hide Image, Encode, Splice;
      match a
      case Number(bits) => ok := Put(offset, Image(bits, 8, littleEndian));
      case BigInt(n) => ok := Put(offset, Image(n, 8, littleEndian));
      case Boolean(b) => ok := Put(offset, Image(if b then 1 else 0, 4, littleEndian));
      case Text(s) => ok := PutText(offset, s);
    }

    /** The count byte and the type ids; writes outside a byte view are ignored. */
    method PutIds(args: seq<Arg>) returns (ok: bool)
      modifies view
      ensures ok == Supported(args)
      ensures ok && 1 + |args| <= view.Length ==>
        view[..] == [(|args| % 256) as byte] + Ids(args) + old(view[1 + |args|..])
    {
      if view.Length > 0 { view[0] := (|args| % 256) as byte; }
      for i := 0 to |args|
        invariant Supported(args[..i])
        invariant forall j | 0 <= j < view.Length ::
          view[j] == (if j == 0 then (|args| % 256) as byte
                      else if j <= i then TypeId(args[..i][j - 1]) as byte
                      else old(view[j]))
      {
        if args[i].Unsupported? {
          ok := false;
          assert !Supported(args);
          return;
        }
        if 1 + i < view.Length { view[1 + i] := TypeId(args[i]) as byte; }
      }
      assert args[..|args|] == args;
      ok := true;
    }

    /** All fields, one after the other, from `start`. */
    method PutData(start: nat, args: seq<Arg>) returns (ok: bool)
      requires Supported(args) && args != []
      modifies view
      ensures ok == (start + |Data(args, littleEndian)| <= view.Length)
      ensures ok ==> view[..] == Splice(old(view[..]), start, Data(args, littleEndian))
    {
      hide Field, Splice;
      ghost var b := view[..];
      var offset := start;
      ok := true;
      if start <= view.Length { SpliceNothing(b, start); }
      for i := 0 to |args|
        invariant Supported(args[..i]) && offset == start + |Data(args[..i], littleEndian)|
        invariant i > 0 ==> offset <= view.Length
        invariant offset <= view.Length ==> view[..] == Splice(b, start, Data(args[..i], littleEndian))
      {
        DataPrefix(args, i + 1, littleEndian);
        assert args[..i + 1][..i] == args[..i];
        FieldNotEmpty(args[i], littleEndian);
        if offset + |Field(args[i], littleEndian)| <= view.Length {
          SpliceTwice(view[..], b, start, Data(args[..i], littleEndian), Field(args[i], littleEndian));
        }
        ok := PutField(offset, args[i]);
        if !ok { return; }
        offset := offset + |Field(args[i], littleEndian)|;
      }
      assert args[..|args|] == args;
    }

    /** `serialize`.  It throws when a type is not supported or a field does not fit;
        on success the data set stands at the front and the rest is untouched. */
    method Serialize(args: seq<Arg>) returns (ok: bool)
      modifies view
      ensures args == [] ==> ok && (view.Length > 0 ==> view[..] == old(view[..])[0 := 0])
      ensures args != [] ==> ok == (Supported(args) && |Serialized(args, littleEndian)| <= view.Length)
      ensures args != [] && ok ==>
        var s := Serialized(args, littleEndian); view[..] == s + old(view[|s|..])
    {
      hide Ids, Data;
      if args == [] {
        if view.Length > 0 { view[0] := 0; }
        return true;
      }
      ok := PutIds(args);
      if !ok { return; }
      ghost var mid := view[..];
      var start := 1 + |args|;
      ok := PutData(start, args);
      if ok {
        ghost var size := |Data(args, littleEndian)|;
        assert mid[..start] == [(|args| % 256) as byte] + Ids(args);
        assert mid[start + size..] == old(view[start + size..]);
      }
    }

    /** `deserialize`; a truthy argument clears the data set after a read that did not throw. */
    method Deserialize(clear: bool) returns (r: Decoded)
      modifies view
      ensures r == Deserialized(old(view[..]), littleEndian)
      ensures view[..] == if clear && !r.Threw? && view.Length > 0 then old(view[..])[0 := 0] else old(view[..])
    {
      r := ReadAll();
      if clear && !r.Threw? && view.Length > 0 { view[0] := 0; }
    }

    method ReadAll() returns (r: Decoded)
      ensures r == Deserialized(view[..], littleEndian)
    {
      hide ReadField;
      ghost var b := view[..];
      if view.Length == 0 || view[0] == 0 { return Empty; }
      var argc := view[0] as int;
      var typeIds: seq<int> := [];
      for i := 0 to argc
        invariant |typeIds| == i && i < |b|
        invariant forall j | 0 <= j < i :: typeIds[j] == b[1 + j] as int
        invariant forall j | 1 <= j <= i :: 1 <= b[j] <= 4
      {
        if 1 + i >= view.Length || !(1 <= view[1 + i] <= 4) { return Threw; }
        typeIds := typeIds + [view[1 + i] as int];
      }
      assert typeIds == IdsAt(b, argc);
      var offset := 1 + argc;
      var values: seq<Value> := [];
      for i := 0 to argc
        invariant ReadFields(b, typeIds, 1 + argc, littleEndian, i) == In(values, offset)
      {
        var read := ReadField(view[..], typeIds[i], offset, littleEndian);
        if read.Out? {
          FailureStays(b, typeIds, 1 + argc, littleEndian, i + 1);
          return Threw;
        }
        values, offset := values + [read.value], read.next;
      }
      r := Values(values);
    }
  }

  lemma SpliceTwice(now: seq<byte>, b: seq<byte>, offset: nat, x: seq<byte>, y: seq<byte>)
    requires offset + |x| + |y| <= |b| && now == Splice(b, offset, x)
    ensures Splice(now, offset + |x|, y) == Splice(b, offset, x + y)
  {
    assert now[offset + |x| + |y|..] == b[offset + |x| + |y|..];
    assert now[..offset + |x|] == b[..offset] + x;
  }

  lemma SpliceNothing(b: seq<byte>, offset: nat)
    requires offset <= |b|
    ensures Splice(b, offset, []) == b
  {
  }

  lemma FieldNotEmpty(a: Arg, le: bool)
    requires !a.Unsupported?
    ensures |Field(a, le)| >= 4
  {
  }

  lemma {:induction false} FailureStays(b: seq<byte>, ids: seq<int>, offset: int, le: bool, n: nat)
    requires n <= |ids| && ReadFields(b, ids, offset, le, n).Out?
    ensures ReadFields(b, ids, offset, le, |ids|).Out?
    decreases |ids| - n
  {
    hide ReadField;
    if n < |ids| { FailureStays(b, ids, offset, le, n + 1); }
  }

  /** The two sides together: what one serializes the other reads, and a clearing
      read makes the next read empty. */
  method Exchange(sender: Serializer, receiver: Serializer, args: seq<Arg>) returns (first: Decoded, second: Decoded)
    requires sender.view == receiver.view && sender.littleEndian == receiver.littleEndian
    requires Supported(args) && ShortTexts(args) && |args| <= 255
    requires |Serialized(args, sender.littleEndian)| <= sender.view.Length
    modifies sender.view
    ensures first == if args == [] then Empty else Values(AllReturned(args))
    ensures second == Empty
  {
    hide Data, ReadFields, Returned, AllReturned;
    var ok := sender.Serialize(args);
    if args != [] {
      RoundTrip(args, old(sender.view[|Serialized(args, sender.littleEndian)|..]), sender.littleEndian);
    }
    first := receiver.Deserialize(true);
    second := receiver.Deserialize(false);
  }
}
