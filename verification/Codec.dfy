/** The compositional big-endian encoding of cambrian-core/src/lib.rs: values of
    every serializable type, every encoding a hash map's iteration order allows,
    and the offset-advancing decoders. */
module Codec {
  import opened Wrappers
  import opened Sequences
  import opened Utf8

  /** Serializable types; `Uint(32)` is U256, `Bytes32` is a 32-byte array. */
  datatype Ty =
    | Uint(size: nat)
    | Int(size: nat)
    | Bool
    | Bytes32
    | Str
    | Vec(elem: Ty)
    | Opt(inner: Ty)
    | Tuple(parts: seq<Ty>)
    | HashMap(key: Ty, val: Ty)

  datatype Val =
    | VInt(n: int)
    | VBool(b: bool)
    | VBytes(bytes: seq<byte>)
    | VVec(items: seq<Val>)
    | VNone
    | VSome(v: Val)
    | VTuple(fields: seq<Val>)
    | VMap(m: map<Val, Val>)

  function Pow256(n: nat): (r: nat)
    ensures r >= 1
  {
    if n == 0 then 1 else 256 * Pow256(n - 1)
  }

  const U32_LIMIT: nat := 0x1_0000_0000

  predicate ValidTy(ty: Ty) {
    match ty
    case Uint(size) => size > 0
    case Int(size) => size > 0
    case Vec(elem) => ValidTy(elem)
    case Opt(inner) => ValidTy(inner)
    case Tuple(parts) => forall i :: 0 <= i < |parts| ==> ValidTy(parts[i])
    case HashMap(key, val) => ValidTy(key) && ValidTy(val)
    case _ => true
  }

  /** `v` is a value of type `ty`. A string is the bytes of its text. */
  ghost predicate HasType(ty: Ty, v: Val)
    decreases ty
  {
    match ty
    case Uint(size) => v.VInt? && 0 <= v.n < Pow256(size)
    case Int(size) => v.VInt? && -(Pow256(size) as int) <= 2 * v.n < Pow256(size)
    case Bool => v.VBool?
    case Bytes32 => v.VBytes? && |v.bytes| == 32
    case Str => v.VBytes? && Valid(v.bytes)
    case Vec(elem) => v.VVec? && forall i :: 0 <= i < |v.items| ==> HasType(elem, v.items[i])
    case Opt(inner) => v.VNone? || (v.VSome? && HasType(inner, v.v))
    case Tuple(parts) => v.VTuple? && |v.fields| == |parts| && forall i :: 0 <= i < |parts| ==> HasType(parts[i], v.fields[i])
    case HashMap(key, val) => v.VMap? && forall k :: k in v.m ==> HasType(key, k) && HasType(val, v.m[k])
  }

  /** `v` is a value of type `ty` whose lengths all fit their 32-bit prefixes. */
  ghost predicate Storable(ty: Ty, v: Val)
    decreases ty
  {
    match ty
    case Uint(size) => HasType(ty, v)
    case Int(size) => HasType(ty, v)
    case Bool => HasType(ty, v)
    case Bytes32 => HasType(ty, v)
    case Str => HasType(ty, v) && |v.bytes| < U32_LIMIT
    case Vec(elem) => v.VVec? && |v.items| < U32_LIMIT && forall i :: 0 <= i < |v.items| ==> Storable(elem, v.items[i])
    case Opt(inner) => v.VNone? || (v.VSome? && Storable(inner, v.v))
    case Tuple(parts) => v.VTuple? && |v.fields| == |parts| && forall i :: 0 <= i < |parts| ==> Storable(parts[i], v.fields[i])
    case HashMap(key, val) =>
      v.VMap? && |v.m| < U32_LIMIT && forall k :: k in v.m ==> Storable(key, k) && Storable(val, v.m[k])
  }

  lemma {:induction false} StorableHasType(ty: Ty, v: Val)
    requires Storable(ty, v)
    ensures HasType(ty, v)
    decreases ty
  {
    match ty
    case Vec(elem) =>
      forall i | 0 <= i < |v.items|
        ensures HasType(elem, v.items[i])
      {
        StorableHasType(elem, v.items[i]);
      }
    case Opt(inner) =>
      if v.VSome? {
        StorableHasType(inner, v.v);
      }
    case Tuple(parts) =>
      forall i | 0 <= i < |parts|
        ensures HasType(parts[i], v.fields[i])
      {
        StorableHasType(parts[i], v.fields[i]);
      }
    case HashMap(key, val) =>
      forall k | k in v.m
        ensures HasType(key, k) && HasType(val, v.m[k])
      {
        StorableHasType(key, k);
        StorableHasType(val, v.m[k]);
      }
    case _ =>
  }

  // ---------- integers ----------

  function ToBE(n: nat, size: nat): (r: seq<byte>)
    ensures |r| == size
  {
    if size == 0 then [] else ToBE(n / 256, size - 1) + [n % 256]
  }

  function FromBE(bs: seq<byte>): nat {
    if bs == [] then 0 else 256 * FromBE(bs[..|bs| - 1]) + bs[|bs| - 1]
  }

  lemma {:induction false} FromBEBound(bs: seq<byte>)
    ensures FromBE(bs) < Pow256(|bs|)
  {
    if bs != [] {
      FromBEBound(bs[..|bs| - 1]);
    }
  }

  lemma {:induction false} BERoundTrip(n: nat, size: nat)
    requires n < Pow256(size)
    ensures FromBE(ToBE(n, size)) == n
  {
    if size > 0 {
      BERoundTrip(n / 256, size - 1);
      assert ToBE(n, size)[..size - 1] == ToBE(n / 256, size - 1);
    }
  }

  /** Two's complement. */
  function Wrap(n: int, size: nat): int {
    if n < 0 then n + Pow256(size) else n
  }

  function Unwrap(n: nat, size: nat): int {
    if 2 * n >= Pow256(size) then n - Pow256(size) else n
  }

  lemma {:induction false} Pow256Even(size: nat)
    requires size > 0
    ensures Pow256(size) % 2 == 0
  {
  }

  // ---------- encodings ----------

  /** `entries` lists the map once, in some order. */
  ghost predicate Lists(m: map<Val, Val>, entries: seq<(Val, Val)>) {
    && |entries| == |m|
    && (forall i :: 0 <= i < |entries| ==> entries[i].0 in m && m[entries[i].0] == entries[i].1)
    && (forall i, j :: 0 <= i < j < |entries| ==> entries[i].0 != entries[j].0)
  }

  /** `bs` is what serializing `v` produces, for some iteration order of every map in it. */
  ghost predicate Encodes(ty: Ty, v: Val, bs: seq<byte>)
    decreases ty, 1, 0
  {
    match ty
    case Uint(size) => v.VInt? && v.n >= 0 && bs == ToBE(v.n, size)
    case Int(size) => v.VInt? && Wrap(v.n, size) >= 0 && bs == ToBE(Wrap(v.n, size), size)
    case Bool => v.VBool? && bs == [if v.b then 1 else 0]
    case Bytes32 => v.VBytes? && bs == v.bytes
    case Str => v.VBytes? && bs == ToBE(|v.bytes| % U32_LIMIT, 4) + v.bytes
    case Vec(elem) =>
      v.VVec? && |bs| >= 4 && bs[..4] == ToBE(|v.items| % U32_LIMIT, 4) && EncodesItems(elem, v.items, bs[4..])
    case Opt(inner) =>
      (v.VNone? && bs == [0]) || (v.VSome? && |bs| >= 1 && bs[0] == 1 && Encodes(inner, v.v, bs[1..]))
    case Tuple(parts) => v.VTuple? && EncodesFields(parts, v.fields, bs)
    case HashMap(key, val) =>
      v.VMap? && |bs| >= 4 && bs[..4] == ToBE(|v.m| % U32_LIMIT, 4)
      && exists entries :: Lists(v.m, entries) && EncodesEntries(ty, entries, bs[4..])
  }

  ghost predicate EncodesItems(elem: Ty, vs: seq<Val>, bs: seq<byte>)
    decreases elem, 2, |vs|
  {
    if vs == [] then bs == []
    else exists k :: 0 <= k <= |bs| && Encodes(elem, vs[0], bs[..k]) && EncodesItems(elem, vs[1..], bs[k..])
  }

  ghost predicate EncodesFields(parts: seq<Ty>, vs: seq<Val>, bs: seq<byte>)
    decreases parts, 0, 0
  {
    if parts == [] then vs == [] && bs == []
    else vs != [] && exists k :: 0 <= k <= |bs| && Encodes(parts[0], vs[0], bs[..k]) && EncodesFields(parts[1..], vs[1..], bs[k..])
  }

  ghost predicate EncodesEntries(ty: Ty, entries: seq<(Val, Val)>, bs: seq<byte>)
    requires ty.HashMap?
    decreases ty, 0, |entries|
  {
    if entries == [] then bs == []
    else exists k, l :: 0 <= k <= l <= |bs| && Encodes(ty.key, entries[0].0, bs[..k]) && Encodes(ty.val, entries[0].1, bs[k..l])
                        && EncodesEntries(ty, entries[1..], bs[l..])
  }

  // ---------- decoding ----------

  /** The big-endian number in the next `size` bytes. */
  function ReadInt(data: seq<byte>, off: nat, size: nat): (Option<nat>, nat) {
    if |data| < off + size then (None, off) else (Some(FromBE(data[off..off + size])), off + size)
  }

  /** The decoder: the value, if any, and the advanced offset. */
  function De(ty: Ty, data: seq<byte>, off: nat): (Option<Val>, nat)
    decreases ty, 1, 0
  {
    match ty
    case Uint(size) =>
      var (n, o) := ReadInt(data, off, size);
      (if n.None? then None else Some(VInt(n.value)), o)
    case Int(size) =>
      var (n, o) := ReadInt(data, off, size);
      (if n.None? then None else Some(VInt(Unwrap(n.value, size))), o)
    case Bool =>
      if |data| < off + 1 then (None, off) else (Some(VBool(data[off] != 0)), off + 1)
    case Bytes32 =>
      if |data| < off + 32 then (None, off) else (Some(VBytes(data[off..off + 32])), off + 32)
    case Str =>
      var (n, o) := ReadInt(data, off, 4);
      if n.None? then (None, o)
      else if |data| < o + n.value then (None, o)
      else (Some(VBytes(Lossy(data[o..o + n.value]))), o + n.value)
    case Vec(elem) =>
      var (n, o) := ReadInt(data, off, 4);
      if n.None? then (None, o)
      else
        var (vs, o2) := DeItems(elem, n.value, data, o);
        (if vs.None? then None else Some(VVec(vs.value)), o2)
    case Opt(inner) =>
      if |data| < off + 1 then (None, off)
      else if data[off] == 0 then (Some(VNone), off + 1)
      else
        var (v, o) := De(inner, data, off + 1);
        (if v.None? then None else Some(VSome(v.value)), o)
    case Tuple(parts) =>
      var (vs, o) := DeFields(parts, data, off);
      (if vs.None? then None else Some(VTuple(vs.value)), o)
    case HashMap(_, _) =>
      var (n, o) := ReadInt(data, off, 4);
      if n.None? then (None, o)
      else
        var (m, o2) := DeEntries(ty, n.value, data, o, map[]);
        (if m.None? then None else Some(VMap(m.value)), o2)
  }

  /** `n` items; stops at the first that cannot be decoded. */
  function DeItems(elem: Ty, n: nat, data: seq<byte>, off: nat): (Option<seq<Val>>, nat)
    decreases elem, 2, n
  {
    if n == 0 then (Some([]), off)
    else
      var (v, o) := De(elem, data, off);
      if v.None? then (None, o)
      else
        var (vs, o2) := DeItems(elem, n - 1, data, o);
        (if vs.None? then None else Some([v.value] + vs.value), o2)
  }

  function DeFields(parts: seq<Ty>, data: seq<byte>, off: nat): (Option<seq<Val>>, nat)
    decreases parts, 0, 0
  {
    if parts == [] then (Some([]), off)
    else
      var (v, o) := De(parts[0], data, off);
      if v.None? then (None, o)
      else
        var (vs, o2) := DeFields(parts[1..], data, o);
        (if vs.None? then None else Some([v.value] + vs.value), o2)
  }

  /** `n` pairs inserted into `m`; a repeated key keeps its last value. */
  function DeEntries(ty: Ty, n: nat, data: seq<byte>, off: nat, m: map<Val, Val>): (Option<map<Val, Val>>, nat)
    requires ty.HashMap?
    decreases ty, 0, n
  {
    if n == 0 then (Some(m), off)
    else
      var (k, o) := De(ty.key, data, off);
      if k.None? then (None, o)
      else
        var (v, o2) := De(ty.val, data, o);
        if v.None? then (None, o2)
        else DeEntries(ty, n - 1, data, o2, m[k.value := v.value])
  }

  // ---------- the round trip ----------

  /** `bs` lies in `data` at `off`. */
  ghost predicate IsAt(data: seq<byte>, off: nat, bs: seq<byte>) {
    off + |bs| <= |data| && data[off..off + |bs|] == bs
  }

  lemma IsAtPart(data: seq<byte>, off: nat, bs: seq<byte>, i: nat, j: nat)
    requires IsAt(data, off, bs) && i <= j <= |bs|
    ensures IsAt(data, off + i, bs[i..j])
  {
    forall x | i <= x < j
      ensures data[off + x] == bs[x]
    {
      assert data[off..off + |bs|][x] == bs[x];
    }
  }

  lemma IsAtCut(data: seq<byte>, off: nat, bs: seq<byte>, k: nat)
    requires IsAt(data, off, bs) && k <= |bs|
    ensures IsAt(data, off, bs[..k]) && IsAt(data, off + k, bs[k..])
  {
    IsAtPart(data, off, bs, 0, k);
    IsAtPart(data, off, bs, k, |bs|);
  }

  lemma {:induction false} ReadIntAt(data: seq<byte>, off: nat, n: nat, size: nat)
    requires n < Pow256(size) && IsAt(data, off, ToBE(n, size))
    ensures ReadInt(data, off, size) == (Some(n), off + size)
  {
    BERoundTrip(n, size);
  }

  lemma {:induction false} Pow256Of4()
    ensures Pow256(4) == U32_LIMIT
  {
    assert Pow256(2) == 65536;
  }

  lemma {:induction false} LengthPrefix(data: seq<byte>, off: nat, n: nat)
    requires n < U32_LIMIT && IsAt(data, off, ToBE(n, 4))
    ensures ReadInt(data, off, 4) == (Some(n), off + 4)
  {
    Pow256Of4();
    ReadIntAt(data, off, n, 4);
  }

  /** The length prefix of `bs` and what follows it. */
  lemma {:induction false} HeaderRead(data: seq<byte>, off: nat, n: nat, bs: seq<byte>)
    requires n < U32_LIMIT && IsAt(data, off, bs) && |bs| >= 4 && bs[..4] == ToBE(n % U32_LIMIT, 4)
    ensures ReadInt(data, off, 4) == (Some(n), off + 4) && IsAt(data, off + 4, bs[4..])
  {
    IsAtCut(data, off, bs, 4);
    assert n % U32_LIMIT == n;
    LengthPrefix(data, off, n);
  }

  lemma {:induction false} WrapFits(n: int, size: nat)
    requires -(Pow256(size) as int) <= 2 * n < Pow256(size) && size > 0
    ensures 0 <= Wrap(n, size) < Pow256(size) && Unwrap(Wrap(n, size), size) == n
  {
    Pow256Even(size);
  }

  /** Wherever `bs` lies, decoding there gives `v` and stops right behind it. */
  ghost predicate Decodes(ty: Ty, v: Val, bs: seq<byte>) {
    forall data: seq<byte>, off: nat {:trigger IsAt(data, off, bs)} :: IsAt(data, off, bs) ==> De(ty, data, off) == (Some(v), off + |bs|)
  }

  ghost predicate ItemsDecode(elem: Ty, vs: seq<Val>, bs: seq<byte>) {
    forall data: seq<byte>, off: nat {:trigger IsAt(data, off, bs)} ::
      IsAt(data, off, bs) ==> DeItems(elem, |vs|, data, off) == (Some(vs), off + |bs|)
  }

  ghost predicate FieldsDecode(parts: seq<Ty>, vs: seq<Val>, bs: seq<byte>) {
    forall data: seq<byte>, off: nat {:trigger IsAt(data, off, bs)} ::
      IsAt(data, off, bs) ==> DeFields(parts, data, off) == (Some(vs), off + |bs|)
  }

  ghost predicate EntriesDecode(ty: Ty, entries: seq<(Val, Val)>, bs: seq<byte>)
    requires ty.HashMap?
  {
    forall data: seq<byte>, off: nat, m {:trigger IsAt(data, off, bs), InsertAll(m, entries)} ::
      IsAt(data, off, bs) ==> DeEntries(ty, |entries|, data, off, m) == (Some(InsertAll(m, entries)), off + |bs|)
  }

  /** Decoding any encoding of a value gives the value. */
  lemma {:induction false} DecodeEncoded(ty: Ty, v: Val, bs: seq<byte>)
    requires ValidTy(ty) && Storable(ty, v) && Encodes(ty, v, bs)
    ensures Decodes(ty, v, bs)
    decreases ty, 1, 0
  {
    match ty
    case Uint(size) => UintDecodes(size, v.n);
    case Int(size) => IntDecodes(size, v.n);
    case Bool => BoolDecodes(v.b);
    case Bytes32 => Bytes32Decodes(v.bytes);
    case Str =>
      assert bs[..4] == ToBE(|v.bytes| % U32_LIMIT, 4) && bs[4..] == v.bytes;
      HeaderCounts(bs, |v.bytes|);
      StrDecodes(v.bytes, bs);
    case Vec(elem) =>
      HeaderCounts(bs, |v.items|);
      DecodeItems(elem, v.items, bs[4..]);
      VecDecodes(elem, v.items, bs);
    case Opt(inner) =>
      if v.VSome? {
        DecodeEncoded(inner, v.v, bs[1..]);
        SomeDecodes(inner, v.v, bs);
      } else {
        NoneDecodes(inner);
      }
    case Tuple(parts) =>
      DecodeFields(parts, v.fields, bs);
      TupleDecodes(parts, v.fields, bs);
    case HashMap(key, val) =>
      var entries := MapEntries(ty, v, bs);
      HeaderCounts(bs, |v.m|);
      DecodeEntries(ty, entries, bs[4..]);
      MapDecodes(ty, v.m, entries, bs);
  }

  lemma {:induction false} UintDecodes(size: nat, n: nat)
    requires n < Pow256(size)
    ensures Decodes(Uint(size), VInt(n), ToBE(n, size))
  {
    forall data: seq<byte>, off: nat | IsAt(data, off, ToBE(n, size))
      ensures De(Uint(size), data, off) == (Some(VInt(n)), off + size)
    {
      ReadIntAt(data, off, n, size);
    }
  }

  lemma {:induction false} IntDecodes(size: nat, n: int)
    requires -(Pow256(size) as int) <= 2 * n < Pow256(size) && size > 0
    ensures Wrap(n, size) >= 0 && Decodes(Int(size), VInt(n), ToBE(Wrap(n, size), size))
  {
    WrapFits(n, size);
    forall data: seq<byte>, off: nat | IsAt(data, off, ToBE(Wrap(n, size), size))
      ensures De(Int(size), data, off) == (Some(VInt(n)), off + size)
    {
      ReadIntAt(data, off, Wrap(n, size), size);
    }
  }

  lemma BoolDecodes(b: bool)
    ensures Decodes(Bool, VBool(b), [if b then 1 else 0])
  {
    forall data: seq<byte>, off: nat | IsAt(data, off, [if b then 1 else 0])
      ensures De(Bool, data, off) == (Some(VBool(b)), off + 1)
    {
      assert data[off] == data[off..off + 1][0];
    }
  }

  lemma Bytes32Decodes(bs: seq<byte>)
    requires |bs| == 32
    ensures Decodes(Bytes32, VBytes(bs), bs)
  {
  }

  lemma {:induction false} StrRead(text: seq<byte>, data: seq<byte>, off: nat)
    requires Valid(text)
    requires ReadInt(data, off, 4) == (Some(|text|), off + 4) && IsAt(data, off + 4, text)
    ensures De(Str, data, off) == (Some(VBytes(text)), off + 4 + |text|)
  {
    LossyOfValid(text);
  }

  /** The length prefix of `bs` reads as `n`, wherever `bs` lies. */
  ghost predicate Counts(bs: seq<byte>, n: nat) {
    && |bs| >= 4
    && forall data: seq<byte>, off: nat {:trigger IsAt(data, off, bs)} ::
         IsAt(data, off, bs) ==> ReadInt(data, off, 4) == (Some(n), off + 4) && IsAt(data, off + 4, bs[4..])
  }

  lemma {:induction false} HeaderCounts(bs: seq<byte>, n: nat)
    requires n < U32_LIMIT && |bs| >= 4 && bs[..4] == ToBE(n % U32_LIMIT, 4)
    ensures Counts(bs, n)
  {
    forall data: seq<byte>, off: nat | IsAt(data, off, bs)
      ensures ReadInt(data, off, 4) == (Some(n), off + 4) && IsAt(data, off + 4, bs[4..])
    {
      HeaderRead(data, off, n, bs);
    }
  }

  lemma StrDecodesAt(text: seq<byte>, bs: seq<byte>, data: seq<byte>, off: nat)
    requires Valid(text) && Counts(bs, |text|) && bs[4..] == text && IsAt(data, off, bs)
    ensures De(Str, data, off) == (Some(VBytes(text)), off + |bs|)
  {
    StrRead(text, data, off);
  }

  lemma StrDecodes(text: seq<byte>, bs: seq<byte>)
    requires Valid(text) && Counts(bs, |text|) && bs[4..] == text
    ensures Decodes(Str, VBytes(text), bs)
  {
    forall data: seq<byte>, off: nat | IsAt(data, off, bs)
      ensures De(Str, data, off) == (Some(VBytes(text)), off + |bs|)
    {
      StrDecodesAt(text, bs, data, off);
    }
  }

  lemma {:induction false} VecRead(elem: Ty, vs: seq<Val>, rest: seq<byte>, data: seq<byte>, off: nat)
    requires ReadInt(data, off, 4) == (Some(|vs|), off + 4) && IsAt(data, off + 4, rest) && ItemsDecode(elem, vs, rest)
    ensures De(Vec(elem), data, off) == (Some(VVec(vs)), off + 4 + |rest|)
  {
  }

  lemma VecDecodes(elem: Ty, vs: seq<Val>, bs: seq<byte>)
    requires Counts(bs, |vs|) && ItemsDecode(elem, vs, bs[4..])
    ensures Decodes(Vec(elem), VVec(vs), bs)
  {
    forall data: seq<byte>, off: nat | IsAt(data, off, bs)
      ensures De(Vec(elem), data, off) == (Some(VVec(vs)), off + |bs|)
    {
      VecRead(elem, vs, bs[4..], data, off);
    }
  }

  lemma NoneDecodes(inner: Ty)
    ensures Decodes(Opt(inner), VNone, [0])
  {
    forall data: seq<byte>, off: nat | IsAt(data, off, [0])
      ensures De(Opt(inner), data, off) == (Some(VNone), off + 1)
    {
      assert data[off] == data[off..off + 1][0];
    }
  }

  lemma SomeDecodes(inner: Ty, v: Val, bs: seq<byte>)
    requires |bs| >= 1 && bs[0] == 1 && Decodes(inner, v, bs[1..])
    ensures Decodes(Opt(inner), VSome(v), bs)
  {
    forall data: seq<byte>, off: nat | IsAt(data, off, bs)
      ensures De(Opt(inner), data, off) == (Some(VSome(v)), off + |bs|)
    {
      assert data[off] == data[off..off + |bs|][0];
      IsAtCut(data, off, bs, 1);
    }
  }

  lemma TupleDecodes(parts: seq<Ty>, vs: seq<Val>, bs: seq<byte>)
    requires FieldsDecode(parts, vs, bs)
    ensures Decodes(Tuple(parts), VTuple(vs), bs)
  {
  }

  lemma {:induction false} MapRead(ty: Ty, m: map<Val, Val>, entries: seq<(Val, Val)>, rest: seq<byte>,
                                   data: seq<byte>, off: nat)
    requires ty.HashMap? && |entries| == |m| && InsertAll(map[], entries) == m
    requires ReadInt(data, off, 4) == (Some(|m|), off + 4) && IsAt(data, off + 4, rest) && EntriesDecode(ty, entries, rest)
    ensures De(ty, data, off) == (Some(VMap(m)), off + 4 + |rest|)
  {
  }

  lemma MapDecodes(ty: Ty, m: map<Val, Val>, entries: seq<(Val, Val)>, bs: seq<byte>)
    requires ty.HashMap? && Lists(m, entries) && Counts(bs, |m|) && EntriesDecode(ty, entries, bs[4..])
    ensures Decodes(ty, VMap(m), bs)
  {
    ListsRebuilds(m, entries);
    forall data: seq<byte>, off: nat | IsAt(data, off, bs)
      ensures De(ty, data, off) == (Some(VMap(m)), off + |bs|)
    {
      MapRead(ty, m, entries, bs[4..], data, off);
    }
  }

  // ---------- lists of items, fields and entries ----------

  lemma SplitItems(elem: Ty, vs: seq<Val>, bs: seq<byte>) returns (k: nat)
    requires vs != [] && EncodesItems(elem, vs, bs)
    ensures k <= |bs| && Encodes(elem, vs[0], bs[..k]) && EncodesItems(elem, vs[1..], bs[k..])
  {
    k :| 0 <= k <= |bs| && Encodes(elem, vs[0], bs[..k]) && EncodesItems(elem, vs[1..], bs[k..]);
  }

  lemma {:induction false} DecodeItems(elem: Ty, vs: seq<Val>, bs: seq<byte>)
    requires ValidTy(elem) && (forall i :: 0 <= i < |vs| ==> Storable(elem, vs[i]))
    requires EncodesItems(elem, vs, bs)
    ensures ItemsDecode(elem, vs, bs)
    decreases elem, 2, |vs|
  {
    if vs != [] {
      var k := SplitItems(elem, vs, bs);
      DecodeEncoded(elem, vs[0], bs[..k]);
      DecodeItems(elem, vs[1..], bs[k..]);
      JoinedItems(elem, vs, bs, k);
    }
  }

  lemma JoinedItems(elem: Ty, vs: seq<Val>, bs: seq<byte>, k: nat)
    requires vs != [] && k <= |bs| && Decodes(elem, vs[0], bs[..k]) && ItemsDecode(elem, vs[1..], bs[k..])
    ensures ItemsDecode(elem, vs, bs)
  {
    forall data: seq<byte>, off: nat | IsAt(data, off, bs)
      ensures DeItems(elem, |vs|, data, off) == (Some(vs), off + |bs|)
    {
      IsAtCut(data, off, bs, k);
      assert [vs[0]] + vs[1..] == vs;
    }
  }

  ghost predicate FieldsStorable(parts: seq<Ty>, vs: seq<Val>) {
    |vs| == |parts| && forall i :: 0 <= i < |parts| ==> ValidTy(parts[i]) && Storable(parts[i], vs[i])
  }

  lemma TailStorable(parts: seq<Ty>, vs: seq<Val>)
    requires FieldsStorable(parts, vs) && parts != []
    ensures ValidTy(parts[0]) && Storable(parts[0], vs[0]) && FieldsStorable(parts[1..], vs[1..])
  {
  }

  lemma SplitFields(parts: seq<Ty>, vs: seq<Val>, bs: seq<byte>) returns (k: nat)
    requires parts != [] && EncodesFields(parts, vs, bs)
    ensures vs != [] && k <= |bs| && Encodes(parts[0], vs[0], bs[..k]) && EncodesFields(parts[1..], vs[1..], bs[k..])
  {
    k :| 0 <= k <= |bs| && Encodes(parts[0], vs[0], bs[..k]) && EncodesFields(parts[1..], vs[1..], bs[k..]);
  }

  lemma {:induction false} DecodeFields(parts: seq<Ty>, vs: seq<Val>, bs: seq<byte>)
    requires FieldsStorable(parts, vs) && EncodesFields(parts, vs, bs)
    ensures FieldsDecode(parts, vs, bs)
    decreases parts, 0, 0
  {
    if parts != [] {
      var k := SplitFields(parts, vs, bs);
      TailStorable(parts, vs);
      DecodeEncoded(parts[0], vs[0], bs[..k]);
      DecodeFields(parts[1..], vs[1..], bs[k..]);
      JoinedFields(parts, vs, bs, k);
    }
  }

  lemma JoinedFields(parts: seq<Ty>, vs: seq<Val>, bs: seq<byte>, k: nat)
    requires parts != [] && vs != [] && k <= |bs|
    requires Decodes(parts[0], vs[0], bs[..k]) && FieldsDecode(parts[1..], vs[1..], bs[k..])
    ensures FieldsDecode(parts, vs, bs)
  {
    forall data: seq<byte>, off: nat | IsAt(data, off, bs)
      ensures DeFields(parts, data, off) == (Some(vs), off + |bs|)
    {
      IsAtCut(data, off, bs, k);
      assert [vs[0]] + vs[1..] == vs;
    }
  }

  function InsertAll(m: map<Val, Val>, entries: seq<(Val, Val)>): map<Val, Val>
    decreases |entries|
  {
    if entries == [] then m else InsertAll(m[entries[0].0 := entries[0].1], entries[1..])
  }

  ghost predicate EntriesStorable(ty: Ty, entries: seq<(Val, Val)>)
    requires ty.HashMap?
  {
    forall i :: 0 <= i < |entries| ==> Storable(ty.key, entries[i].0) && Storable(ty.val, entries[i].1)
  }

  lemma EntriesTail(ty: Ty, entries: seq<(Val, Val)>)
    requires ty.HashMap? && entries != [] && EntriesStorable(ty, entries)
    ensures Storable(ty.key, entries[0].0) && Storable(ty.val, entries[0].1) && EntriesStorable(ty, entries[1..])
  {
  }

  lemma SplitEntries(ty: Ty, entries: seq<(Val, Val)>, bs: seq<byte>) returns (k: nat, l: nat)
    requires ty.HashMap? && entries != [] && EncodesEntries(ty, entries, bs)
    ensures k <= l <= |bs| && Encodes(ty.key, entries[0].0, bs[..k]) && Encodes(ty.val, entries[0].1, bs[k..l])
    ensures EncodesEntries(ty, entries[1..], bs[l..])
  {
    k, l :| 0 <= k <= l <= |bs| && Encodes(ty.key, entries[0].0, bs[..k]) && Encodes(ty.val, entries[0].1, bs[k..l])
            && EncodesEntries(ty, entries[1..], bs[l..]);
  }

  lemma {:induction false} DecodeEntries(ty: Ty, entries: seq<(Val, Val)>, bs: seq<byte>)
    requires ty.HashMap? && ValidTy(ty)
    requires EntriesStorable(ty, entries) && EncodesEntries(ty, entries, bs)
    ensures EntriesDecode(ty, entries, bs)
    decreases ty, 0, |entries|
  {
    if entries != [] {
      var k, l := SplitEntries(ty, entries, bs);
      EntriesTail(ty, entries);
      DecodeEncoded(ty.key, entries[0].0, bs[..k]);
      DecodeEncoded(ty.val, entries[0].1, bs[k..l]);
      DecodeEntries(ty, entries[1..], bs[l..]);
      JoinedEntries(ty, entries, bs, k, l);
    }
  }

  lemma JoinedEntries(ty: Ty, entries: seq<(Val, Val)>, bs: seq<byte>, k: nat, l: nat)
    requires ty.HashMap? && entries != [] && k <= l <= |bs|
    requires Decodes(ty.key, entries[0].0, bs[..k]) && Decodes(ty.val, entries[0].1, bs[k..l])
    requires EntriesDecode(ty, entries[1..], bs[l..])
    ensures EntriesDecode(ty, entries, bs)
  {
    forall data: seq<byte>, off: nat, m | IsAt(data, off, bs)
      ensures DeEntries(ty, |entries|, data, off, m) == (Some(InsertAll(m, entries)), off + |bs|)
    {
      IsAtCut(data, off, bs, l);
      IsAtPart(data, off, bs, k, l);
      IsAtCut(data, off, bs, k);
      EntriesStep(ty, |entries|, data, off, m, entries[0].0, off + k, entries[0].1, off + l);
      InsertStep(m, entries);
    }
  }

  lemma EntriesStep(ty: Ty, n: nat, data: seq<byte>, off: nat, m: map<Val, Val>, k: Val, o: nat, v: Val, o2: nat)
    requires ty.HashMap? && n > 0
    requires De(ty.key, data, off) == (Some(k), o) && De(ty.val, data, o) == (Some(v), o2)
    ensures DeEntries(ty, n, data, off, m) == DeEntries(ty, n - 1, data, o2, m[k := v])
  {
  }

  lemma InsertStep(m: map<Val, Val>, entries: seq<(Val, Val)>)
    requires entries != []
    ensures InsertAll(m, entries) == InsertAll(m[entries[0].0 := entries[0].1], entries[1..])
  {
  }

  lemma MapEntries(ty: Ty, v: Val, bs: seq<byte>) returns (entries: seq<(Val, Val)>)
    requires ty.HashMap? && Storable(ty, v) && Encodes(ty, v, bs)
    ensures Lists(v.m, entries) && |bs| >= 4 && EncodesEntries(ty, entries, bs[4..]) && EntriesStorable(ty, entries)
    ensures |v.m| < U32_LIMIT && bs[..4] == ToBE(|v.m| % U32_LIMIT, 4)
  {
    entries :| Lists(v.m, entries) && EncodesEntries(ty, entries, bs[4..]);
  }

  /** Inserting a listing of a map, in any order, rebuilds the map. */
  lemma {:induction false} ListsRebuilds(m: map<Val, Val>, entries: seq<(Val, Val)>)
    requires Lists(m, entries)
    ensures InsertAll(map[], entries) == m
  {
    InsertAllExact(map[], m, entries);
    var keys := seq(|entries|, i requires 0 <= i < |entries| => entries[i].0);
    forall x | x in keys
      ensures x in m.Keys
    {
    }
    DistinctLength(keys, m.Keys);
    forall x | x in m
      ensures x in InsertAll(map[], entries)
    {
      assert x in keys;
      var i :| 0 <= i < |keys| && keys[i] == x;
      assert entries[i].0 == x;
    }
  }

  lemma {:induction false} InsertAllExact(base: map<Val, Val>, m: map<Val, Val>, entries: seq<(Val, Val)>)
    requires forall i :: 0 <= i < |entries| ==> entries[i].0 in m && m[entries[i].0] == entries[i].1
    requires forall x :: x in base ==> x in m && m[x] == base[x]
    ensures forall x :: x in InsertAll(base, entries) ==> x in m && m[x] == InsertAll(base, entries)[x]
    ensures forall x :: x in base ==> x in InsertAll(base, entries)
    ensures forall i :: 0 <= i < |entries| ==> entries[i].0 in InsertAll(base, entries)
    decreases |entries|
  {
    if entries != [] {
      InsertAllExact(base[entries[0].0 := entries[0].1], m, entries[1..]);
      assert forall i :: 1 <= i < |entries| ==> entries[i] == entries[1..][i - 1];
    }
  }

  // ---------- bounds, locality, truncation ----------

  /** A successful read stays inside the buffer and looks at nothing behind the new offset. */
  ghost predicate Local<T>(before: (Option<T>, nat), after: (Option<T>, nat), off: nat, size: nat) {
    before.0.Some? ==> off <= before.1 <= size && after == before
  }

  lemma ReadIntLocal(data: seq<byte>, more: seq<byte>, off: nat, size: nat)
    ensures Local(ReadInt(data, off, size), ReadInt(data + more, off, size), off, |data|)
  {
    if off + size <= |data| {
      assert (data + more)[off..off + size] == data[off..off + size];
    }
  }

  lemma {:induction false} DeLocal(ty: Ty, data: seq<byte>, more: seq<byte>, off: nat)
    requires off <= |data|
    ensures Local(De(ty, data, off), De(ty, data + more, off), off, |data|)
    decreases ty, 1, 0
  {
    match ty
    case Uint(size) => ReadIntLocal(data, more, off, size);
    case Int(size) => ReadIntLocal(data, more, off, size);
    case Bool =>
    case Bytes32 =>
      if off + 32 <= |data| {
        assert (data + more)[off..off + 32] == data[off..off + 32];
      }
    case Str =>
      ReadIntLocal(data, more, off, 4);
      var (n, o) := ReadInt(data, off, 4);
      if n.Some? && o + n.value <= |data| {
        assert (data + more)[o..o + n.value] == data[o..o + n.value];
      }
    case Vec(elem) =>
      ReadIntLocal(data, more, off, 4);
      var (n, o) := ReadInt(data, off, 4);
      if n.Some? {
        ItemsLocal(elem, n.value, data, more, o);
      }
    case Opt(inner) =>
      if off < |data| {
        DeLocal(inner, data, more, off + 1);
      }
    case Tuple(parts) =>
      FieldsLocal(parts, data, more, off);
    case HashMap(_, _) =>
      ReadIntLocal(data, more, off, 4);
      var (n, o) := ReadInt(data, off, 4);
      if n.Some? {
        EntriesLocal(ty, n.value, data, more, o, map[]);
      }
  }

  lemma {:induction false} ItemsLocal(elem: Ty, n: nat, data: seq<byte>, more: seq<byte>, off: nat)
    requires off <= |data|
    ensures Local(DeItems(elem, n, data, off), DeItems(elem, n, data + more, off), off, |data|)
    decreases elem, 2, n
  {
    if n > 0 {
      DeLocal(elem, data, more, off);
      var (v, o) := De(elem, data, off);
      if v.Some? {
        ItemsLocal(elem, n - 1, data, more, o);
      }
    }
  }

  lemma {:induction false} FieldsLocal(parts: seq<Ty>, data: seq<byte>, more: seq<byte>, off: nat)
    requires off <= |data|
    ensures Local(DeFields(parts, data, off), DeFields(parts, data + more, off), off, |data|)
    decreases parts, 0, 0
  {
    if parts != [] {
      DeLocal(parts[0], data, more, off);
      var (v, o) := De(parts[0], data, off);
      if v.Some? {
        FieldsLocal(parts[1..], data, more, o);
      }
    }
  }

  lemma {:induction false} EntriesLocal(ty: Ty, n: nat, data: seq<byte>, more: seq<byte>, off: nat, m: map<Val, Val>)
    requires ty.HashMap? && off <= |data|
    ensures Local(DeEntries(ty, n, data, off, m), DeEntries(ty, n, data + more, off, m), off, |data|)
    decreases ty, 0, n
  {
    if n > 0 {
      DeLocal(ty.key, data, more, off);
      var (k, o) := De(ty.key, data, off);
      if k.Some? {
        DeLocal(ty.val, data, more, o);
        var (v, o2) := De(ty.val, data, o);
        if v.Some? {
          EntriesLocal(ty, n - 1, data, more, o2, m[k.value := v.value]);
        }
      }
    }
  }

  /** The round trip: between any prefix and suffix, at the prefix length. */
  lemma {:induction false} RoundTrip(ty: Ty, v: Val, bs: seq<byte>, pre: seq<byte>, suf: seq<byte>)
    requires ValidTy(ty) && Storable(ty, v) && Encodes(ty, v, bs)
    ensures De(ty, pre + bs + suf, |pre|) == (Some(v), |pre| + |bs|)
  {
    var data := pre + bs + suf;
    assert data[|pre|..|pre| + |bs|] == bs;
    DecodeEncoded(ty, v, bs);
    assert IsAt(data, |pre|, bs);
  }

  lemma {:induction false} DecodesShorter(ty: Ty, v: Val, short: seq<byte>, more: seq<byte>, off: nat)
    requires off <= |short| && De(ty, short + more, off) == (Some(v), |short| + |more|) && more != []
    ensures De(ty, short, off).0 == None
  {
    DeLocal(ty, short, more, off);
  }

  /** A truncated encoding never decodes. */
  lemma {:induction false} TruncatedFails(ty: Ty, v: Val, bs: seq<byte>, pre: seq<byte>, n: nat)
    requires ValidTy(ty) && Storable(ty, v) && Encodes(ty, v, bs) && n < |bs|
    ensures De(ty, pre + bs[..n], |pre|).0 == None
  {
    RoundTrip(ty, v, bs, pre, []);
    CutShort(ty, v, bs, pre, n);
  }

  lemma {:induction false} CutShort(ty: Ty, v: Val, bs: seq<byte>, pre: seq<byte>, n: nat)
    requires De(ty, pre + bs + [], |pre|) == (Some(v), |pre| + |bs|) && n < |bs|
    ensures De(ty, pre + bs[..n], |pre|).0 == None
  {
    var short, more := pre + bs[..n], bs[n..];
    assert short + more == pre + bs + [] && |short| + |more| == |pre| + |bs|;
    DecodesShorter(ty, v, short, more, |pre|);
  }

  /** No encoding of a value is a prefix of an encoding of another value of the type. */
  lemma {:induction false} PrefixFree(ty: Ty, v: Val, bs: seq<byte>, w: Val, cs: seq<byte>)
    requires ValidTy(ty) && Storable(ty, v) && Encodes(ty, v, bs) && Storable(ty, w) && Encodes(ty, w, cs)
    requires bs <= cs
    ensures v == w && bs == cs
  {
    DecodeEncoded(ty, v, bs);
    DecodeEncoded(ty, w, cs);
    SameDecoding(ty, v, bs, w, cs);
  }

  lemma SameDecoding(ty: Ty, v: Val, bs: seq<byte>, w: Val, cs: seq<byte>)
    requires Decodes(ty, v, bs) && Decodes(ty, w, cs) && bs <= cs
    ensures v == w && bs == cs
  {
    assert cs[0..0 + |bs|] == bs && cs[0..0 + |cs|] == cs;
    assert IsAt(cs, 0, bs) && IsAt(cs, 0, cs);
    assert De(ty, cs, 0) == (Some(v), 0 + |bs|);
    assert De(ty, cs, 0) == (Some(w), 0 + |cs|);
  }

}
