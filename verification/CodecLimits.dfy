/** What decoding can give at all, and what happens to lengths that do not fit
    their 32-bit prefix (cambrian-core/src/lib.rs casts them with `as u32`). */
module CodecLimits {
  import opened Wrappers
  import opened Utf8
  import opened Codec

  // ---------- decoded values are values of the type ----------

  lemma {:induction false} ReadBound(data: seq<byte>, off: nat, size: nat)
    ensures ReadInt(data, off, size).0.Some? ==> ReadInt(data, off, size).0.value < Pow256(size)
  {
    if off + size <= |data| {
      FromBEBound(data[off..off + size]);
    }
  }

  lemma {:induction false} CountBound(data: seq<byte>, off: nat)
    ensures ReadInt(data, off, 4).0.Some? ==> ReadInt(data, off, 4).0.value < U32_LIMIT
  {
    ReadBound(data, off, 4);
    Pow256Of4();
  }

  /** A value of type `ty` in which no list or map has 2^32 elements and no text three times as many bytes. */
  ghost predicate Sized(ty: Ty, v: Val)
    decreases ty
  {
    match ty
    case Uint(_) => HasType(ty, v)
    case Int(_) => HasType(ty, v)
    case Bool => HasType(ty, v)
    case Bytes32 => HasType(ty, v)
    case Str => HasType(ty, v) && |v.bytes| < 3 * U32_LIMIT
    case Vec(elem) => v.VVec? && |v.items| < U32_LIMIT && forall i :: 0 <= i < |v.items| ==> Sized(elem, v.items[i])
    case Opt(inner) => v.VNone? || (v.VSome? && Sized(inner, v.v))
    case Tuple(parts) => v.VTuple? && |v.fields| == |parts| && forall i :: 0 <= i < |parts| ==> Sized(parts[i], v.fields[i])
    case HashMap(key, val) =>
      v.VMap? && |v.m| < U32_LIMIT && forall k :: k in v.m ==> Sized(key, k) && Sized(val, v.m[k])
  }

  /** Whatever the bytes are, a successful decode gives such a value. */
  lemma {:induction false} DecodedSized(ty: Ty, data: seq<byte>, off: nat)
    requires ValidTy(ty) && De(ty, data, off).0.Some?
    ensures Sized(ty, De(ty, data, off).0.value)
    decreases ty, 1, 0
  {
    match ty
    case Uint(size) => ReadBound(data, off, size);
    case Int(size) =>
      ReadBound(data, off, size);
      Pow256Even(size);
    case Bool =>
    case Bytes32 =>
    case Str => TextSized(data, off);
    case Vec(elem) =>
      var (n, o) := ReadInt(data, off, 4);
      CountBound(data, off);
      ItemsSized(elem, n.value, data, o);
    case Opt(inner) =>
      if data[off] != 0 {
        DecodedSized(inner, data, off + 1);
      }
    case Tuple(parts) => FieldsSized(parts, data, off);
    case HashMap(_, _) =>
      var (n, o) := ReadInt(data, off, 4);
      CountBound(data, off);
      EntriesSized(ty, n.value, data, o, map[]);
  }

  lemma {:induction false} TextSized(data: seq<byte>, off: nat)
    requires De(Str, data, off).0.Some?
    ensures Sized(Str, De(Str, data, off).0.value)
  {
    var (n, o) := ReadInt(data, off, 4);
    CountBound(data, off);
    LossyIsValid(data[o..o + n.value]);
    LossyGrowth(data[o..o + n.value]);
  }

  lemma {:induction false} ItemsSized(elem: Ty, n: nat, data: seq<byte>, off: nat)
    requires ValidTy(elem) && DeItems(elem, n, data, off).0.Some?
    ensures var vs := DeItems(elem, n, data, off).0.value;
            |vs| == n && forall i :: 0 <= i < |vs| ==> Sized(elem, vs[i])
    decreases elem, 2, n
  {
    if n > 0 {
      DecodedSized(elem, data, off);
      ItemsSized(elem, n - 1, data, De(elem, data, off).1);
    }
  }

  lemma {:induction false} FieldsSized(parts: seq<Ty>, data: seq<byte>, off: nat)
    requires (forall i :: 0 <= i < |parts| ==> ValidTy(parts[i])) && DeFields(parts, data, off).0.Some?
    ensures var vs := DeFields(parts, data, off).0.value;
            |vs| == |parts| && forall i :: 0 <= i < |parts| ==> Sized(parts[i], vs[i])
    decreases parts, 0, 0
  {
    if parts != [] {
      DecodedSized(parts[0], data, off);
      FieldsSized(parts[1..], data, De(parts[0], data, off).1);
    }
  }

  ghost predicate MapSized(ty: Ty, m: map<Val, Val>)
    requires ty.HashMap?
  {
    forall k :: k in m ==> Sized(ty.key, k) && Sized(ty.val, m[k])
  }

  lemma {:induction false} EntriesSized(ty: Ty, n: nat, data: seq<byte>, off: nat, m: map<Val, Val>)
    requires ty.HashMap? && ValidTy(ty) && MapSized(ty, m) && DeEntries(ty, n, data, off, m).0.Some?
    ensures MapSized(ty, DeEntries(ty, n, data, off, m).0.value)
    ensures |DeEntries(ty, n, data, off, m).0.value| <= |m| + n
    decreases ty, 0, n
  {
    if n > 0 {
      var (k, o) := De(ty.key, data, off);
      DecodedSized(ty.key, data, off);
      var (v, o2) := De(ty.val, data, o);
      DecodedSized(ty.val, data, o);
      InsertSize(m, k.value, v.value);
      EntriesSized(ty, n - 1, data, o2, m[k.value := v.value]);
    }
  }

  lemma InsertSize(m: map<Val, Val>, k: Val, v: Val)
    ensures |m[k := v]| == if k in m then |m| else |m| + 1
  {
    if k in m {
      assert m[k := v].Keys == m.Keys;
    } else {
      assert m[k := v].Keys == m.Keys + {k};
    }
  }

  lemma {:induction false} SizedHasType(ty: Ty, v: Val)
    requires Sized(ty, v)
    ensures HasType(ty, v)
    decreases ty
  {
    match ty
    case Vec(elem) =>
      forall i | 0 <= i < |v.items|
        ensures HasType(elem, v.items[i])
      {
        SizedHasType(elem, v.items[i]);
      }
    case Opt(inner) =>
      if v.VSome? {
        SizedHasType(inner, v.v);
      }
    case Tuple(parts) =>
      forall i | 0 <= i < |parts|
        ensures HasType(parts[i], v.fields[i])
      {
        SizedHasType(parts[i], v.fields[i]);
      }
    case HashMap(key, val) =>
      forall k | k in v.m
        ensures HasType(key, k) && HasType(val, v.m[k])
      {
        SizedHasType(key, k);
        SizedHasType(val, v.m[k]);
      }
    case _ =>
  }

  /** In particular integers in range, well-formed text and the right number of parts. */
  lemma {:induction false} DecodedTyped(ty: Ty, data: seq<byte>, off: nat)
    requires ValidTy(ty) && De(ty, data, off).0.Some?
    ensures HasType(ty, De(ty, data, off).0.value)
  {
    DecodedSized(ty, data, off);
    SizedHasType(ty, De(ty, data, off).0.value);
  }

  predicate TextFree(ty: Ty) {
    match ty
    case Str => false
    case Vec(elem) => TextFree(elem)
    case Opt(inner) => TextFree(inner)
    case Tuple(parts) => forall i :: 0 <= i < |parts| ==> TextFree(parts[i])
    case HashMap(key, val) => TextFree(key) && TextFree(val)
    case _ => true
  }

  lemma {:induction false} SizedStorable(ty: Ty, v: Val)
    requires Sized(ty, v) && TextFree(ty)
    ensures Storable(ty, v)
    decreases ty
  {
    match ty
    case Vec(elem) =>
      forall i | 0 <= i < |v.items|
        ensures Storable(elem, v.items[i])
      {
        SizedStorable(elem, v.items[i]);
      }
    case Opt(inner) =>
      if v.VSome? {
        SizedStorable(inner, v.v);
      }
    case Tuple(parts) =>
      forall i | 0 <= i < |parts|
        ensures Storable(parts[i], v.fields[i])
      {
        SizedStorable(parts[i], v.fields[i]);
      }
    case HashMap(key, val) =>
      forall k | k in v.m
        ensures Storable(key, k) && Storable(val, v.m[k])
      {
        SizedStorable(key, k);
        SizedStorable(val, v.m[k]);
      }
    case _ =>
  }

  // ---------- too long a text, too long a list ----------

  lemma {:induction false} WrappedCount(data: seq<byte>, off: nat, n: nat, bs: seq<byte>)
    requires IsAt(data, off, bs) && |bs| >= 4 && bs[..4] == ToBE(n % U32_LIMIT, 4)
    ensures ReadInt(data, off, 4) == (Some(n % U32_LIMIT), off + 4) && IsAt(data, off + 4, bs[4..])
  {
    HeaderRead(data, off, n % U32_LIMIT, bs);
  }

  lemma {:induction false} TextHead(text: seq<byte>, bs: seq<byte>)
    requires Encodes(Str, VBytes(text), bs)
    ensures |bs| >= 4 && bs[..4] == ToBE(|text| % U32_LIMIT, 4) && bs[4..] == text
  {
  }

  lemma {:induction false} TextHeader(text: seq<byte>, bs: seq<byte>, data: seq<byte>, off: nat)
    requires Encodes(Str, VBytes(text), bs) && IsAt(data, off, bs)
    ensures ReadInt(data, off, 4) == (Some(|text| % U32_LIMIT), off + 4) && IsAt(data, off + 4, text)
  {
    TextHead(text, bs);
    WrappedCount(data, off, |text|, bs);
  }

  /** Text of any length decodes to what is left of its first `len % 2^32` bytes. */
  lemma {:induction false} TextDecodes(text: seq<byte>, bs: seq<byte>, data: seq<byte>, off: nat)
    requires Encodes(Str, VBytes(text), bs) && IsAt(data, off, bs)
    ensures var n := |text| % U32_LIMIT;
            De(Str, data, off) == (Some(VBytes(Lossy(text[..n]))), off + 4 + n)
  {
    TextHeader(text, bs, data, off);
    WrappedBelow(|text|);
    TextPrefixRead(text, |text| % U32_LIMIT, data, off);
  }

  lemma WrappedBelow(n: nat)
    ensures n % U32_LIMIT <= n
  {
  }

  lemma TextPrefixRead(text: seq<byte>, n: nat, data: seq<byte>, off: nat)
    requires n <= |text| && ReadInt(data, off, 4) == (Some(n), off + 4) && IsAt(data, off + 4, text)
    ensures De(Str, data, off) == (Some(VBytes(Lossy(text[..n]))), off + 4 + n)
  {
    IsAtCut(data, off + 4, text, n);
    TextRead(text[..n], data, off);
  }

  lemma {:induction false} TextRead(bytes: seq<byte>, data: seq<byte>, off: nat)
    requires ReadInt(data, off, 4) == (Some(|bytes|), off + 4) && IsAt(data, off + 4, bytes)
    ensures De(Str, data, off) == (Some(VBytes(Lossy(bytes))), off + 4 + |bytes|)
  {
  }

  /** Text of 2^32 bytes or more never comes back. */
  lemma {:induction false} LongTextLost(text: seq<byte>, bs: seq<byte>, data: seq<byte>, off: nat)
    requires Valid(text) && |text| >= U32_LIMIT && Encodes(Str, VBytes(text), bs) && IsAt(data, off, bs)
    ensures De(Str, data, off).0 != Some(VBytes(text))
  {
    TextDecodes(text, bs, data, off);
    LossyOfLong(text, |text| % U32_LIMIT);
  }

  lemma {:induction false} LossyOfLong(text: seq<byte>, n: nat)
    requires Valid(text) && n + 3 < |text|
    ensures Lossy(text[..n]) != text
  {
    LossyOfCut(text, n);
  }

  lemma {:induction false} ItemsPrefix(elem: Ty, vs: seq<Val>, bs: seq<byte>, n: nat) returns (k: nat)
    requires EncodesItems(elem, vs, bs) && n <= |vs|
    ensures k <= |bs| && EncodesItems(elem, vs[..n], bs[..k])
    decreases |vs|
  {
    if n == 0 {
      k := 0;
    } else {
      var i := SplitItems(elem, vs, bs);
      var j := ItemsPrefix(elem, vs[1..], bs[i..], n - 1);
      k := i + j;
      PrefixSlices(vs, n, 1);
      PrefixSlices(bs, k, i);
      ItemsJoin(elem, vs[..n], bs[..k], i);
    }
  }

  lemma ItemsJoin(elem: Ty, vs: seq<Val>, bs: seq<byte>, k: nat)
    requires vs != [] && k <= |bs| && Encodes(elem, vs[0], bs[..k]) && EncodesItems(elem, vs[1..], bs[k..])
    ensures EncodesItems(elem, vs, bs)
  {
  }

  lemma PrefixSlices<T>(s: seq<T>, k: nat, i: nat)
    requires i <= k <= |s|
    ensures s[..k][..i] == s[..i] && s[..k][i..] == s[i..][..k - i]
  {
  }

  /** A list of any length decodes to its first `len % 2^32` items. */
  lemma {:induction false} ListDecodes(elem: Ty, vs: seq<Val>, bs: seq<byte>, data: seq<byte>, off: nat)
    requires ValidTy(elem) && Encodes(Vec(elem), VVec(vs), bs) && IsAt(data, off, bs)
    requires forall i :: 0 <= i < |vs| % U32_LIMIT ==> Storable(elem, vs[i])
    ensures De(Vec(elem), data, off).0 == Some(VVec(vs[..|vs| % U32_LIMIT]))
  {
    var n := |vs| % U32_LIMIT;
    var k := ItemsPrefix(elem, vs, bs[4..], n);
    WrappedCount(data, off, |vs|, bs);
    IsAtCut(data, off + 4, bs[4..], k);
    DecodeItems(elem, vs[..n], bs[4..][..k]);
  }

  // ---------- exactly what round-trips ----------

  /** In every map, all keys that may hold text have lengths that fit. */
  ghost predicate KeysFit(ty: Ty, v: Val)
    requires HasType(ty, v)
    decreases ty
  {
    match ty
    case Vec(elem) => forall i :: 0 <= i < |v.items| ==> KeysFit(elem, v.items[i])
    case Opt(inner) => v.VSome? ==> KeysFit(inner, v.v)
    case Tuple(parts) => forall i :: 0 <= i < |parts| ==> KeysFit(parts[i], v.fields[i])
    case HashMap(key, val) => forall k :: k in v.m ==> (TextFree(key) || Storable(key, k)) && KeysFit(val, v.m[k])
    case _ => true
  }

  /** No map of the type has text in its keys. */
  predicate PlainKeys(ty: Ty) {
    match ty
    case Vec(elem) => PlainKeys(elem)
    case Opt(inner) => PlainKeys(inner)
    case Tuple(parts) => forall i :: 0 <= i < |parts| ==> PlainKeys(parts[i])
    case HashMap(key, val) => TextFree(key) && PlainKeys(val)
    case _ => true
  }

  lemma {:induction false} PlainKeysFit(ty: Ty, v: Val)
    requires PlainKeys(ty) && HasType(ty, v)
    ensures KeysFit(ty, v)
    decreases ty
  {
    match ty
    case Vec(elem) =>
      forall i | 0 <= i < |v.items|
        ensures KeysFit(elem, v.items[i])
      {
        PlainKeysFit(elem, v.items[i]);
      }
    case Opt(inner) =>
      if v.VSome? {
        PlainKeysFit(inner, v.v);
      }
    case Tuple(parts) =>
      forall i | 0 <= i < |parts|
        ensures KeysFit(parts[i], v.fields[i])
      {
        PlainKeysFit(parts[i], v.fields[i]);
      }
    case HashMap(_, val) =>
      forall k | k in v.m
        ensures KeysFit(val, v.m[k])
      {
        PlainKeysFit(val, v.m[k]);
      }
    case _ =>
  }

  /** A value in which a list or map has 2^32 elements, or a text three times as many bytes, never comes
      back, wherever it lies. */
  lemma {:induction false} OversizedLost(ty: Ty, v: Val, data: seq<byte>, off: nat)
    requires ValidTy(ty) && !Sized(ty, v)
    ensures De(ty, data, off).0 != Some(v)
  {
    if De(ty, data, off).0.Some? {
      DecodedSized(ty, data, off);
    }
  }

  /** A map with 2^32 entries or more never comes back. */
  lemma {:induction false} LongMapLost(ty: Ty, m: map<Val, Val>, data: seq<byte>, off: nat)
    requires ValidTy(ty) && ty.HashMap? && |m| >= U32_LIMIT
    ensures De(ty, data, off).0 != Some(VMap(m))
  {
    OversizedLost(ty, VMap(m), data, off);
  }

  /** Wherever `bs` lies, decoding there does not give `v`. */
  ghost predicate Lost(ty: Ty, v: Val, bs: seq<byte>) {
    forall data: seq<byte>, off: nat {:trigger IsAt(data, off, bs)} :: IsAt(data, off, bs) ==> De(ty, data, off).0 != Some(v)
  }

  ghost predicate ItemsLost(elem: Ty, vs: seq<Val>, bs: seq<byte>) {
    forall data: seq<byte>, off: nat {:trigger IsAt(data, off, bs)} ::
      IsAt(data, off, bs) ==> DeItems(elem, |vs|, data, off).0 != Some(vs)
  }

  ghost predicate FieldsLost(parts: seq<Ty>, vs: seq<Val>, bs: seq<byte>) {
    forall data: seq<byte>, off: nat {:trigger IsAt(data, off, bs)} ::
      IsAt(data, off, bs) ==> DeFields(parts, data, off).0 != Some(vs)
  }

  /** Reading the entries into `acc` does not give `m` without meeting a key twice. */
  ghost predicate EntriesLost(ty: Ty, m: map<Val, Val>, n: nat, bs: seq<byte>)
    requires ty.HashMap?
  {
    forall data: seq<byte>, off: nat, acc {:trigger IsAt(data, off, bs), DeEntries(ty, n, data, off, acc)} ::
      IsAt(data, off, bs) && |m| == |acc| + n ==> DeEntries(ty, n, data, off, acc).0 != Some(m)
  }

  /** What does not fit is lost. */
  lemma {:induction false} MustFit(ty: Ty, v: Val, bs: seq<byte>)
    requires ValidTy(ty) && HasType(ty, v) && KeysFit(ty, v) && Encodes(ty, v, bs) && !Storable(ty, v)
    ensures Lost(ty, v, bs)
    decreases ty, 1, 0
  {
    if Sized(ty, v) {
      match ty
      case Str => TextMustFit(v.bytes, bs);
      case Vec(elem) =>
        ItemsMustFit(elem, v.items, bs[4..]);
        VecLost(elem, v.items, bs);
      case Opt(inner) =>
        MustFit(inner, v.v, bs[1..]);
        SomeLost(inner, v.v, bs);
      case Tuple(parts) =>
        FieldsMustFit(parts, v.fields, bs);
        TupleLost(parts, v.fields, bs);
      case HashMap(_, _) =>
        var entries := MapListing(ty, v.m, bs);
        EntriesMustFit(ty, v.m, entries, bs[4..]);
        MapLost(ty, v.m, bs);
    } else {
      forall data: seq<byte>, off: nat | IsAt(data, off, bs)
        ensures De(ty, data, off).0 != Some(v)
      {
        OversizedLost(ty, v, data, off);
      }
    }
  }

  lemma {:induction false} TextMustFit(text: seq<byte>, bs: seq<byte>)
    requires Valid(text) && |text| >= U32_LIMIT && Encodes(Str, VBytes(text), bs)
    ensures Lost(Str, VBytes(text), bs)
  {
    forall data: seq<byte>, off: nat | IsAt(data, off, bs)
      ensures De(Str, data, off).0 != Some(VBytes(text))
    {
      LongTextLost(text, bs, data, off);
    }
  }

  // ----- lists -----

  lemma {:induction false} ItemsMustFit(elem: Ty, vs: seq<Val>, bs: seq<byte>)
    requires ValidTy(elem) && EncodesItems(elem, vs, bs)
    requires forall i :: 0 <= i < |vs| ==> HasType(elem, vs[i]) && KeysFit(elem, vs[i])
    requires exists i :: 0 <= i < |vs| && !Storable(elem, vs[i])
    ensures ItemsLost(elem, vs, bs)
    decreases elem, 2, |vs|
  {
    var k := SplitItems(elem, vs, bs);
    if Storable(elem, vs[0]) {
      DecodeEncoded(elem, vs[0], bs[..k]);
      ItemsMustFit(elem, vs[1..], bs[k..]);
      LaterItemLost(elem, vs, bs, k);
    } else {
      MustFit(elem, vs[0], bs[..k]);
      FirstItemLost(elem, vs, bs, k);
    }
  }

  lemma FirstItem(elem: Ty, vs: seq<Val>, data: seq<byte>, off: nat)
    requires vs != [] && DeItems(elem, |vs|, data, off).0 == Some(vs)
    ensures De(elem, data, off).0 == Some(vs[0])
    ensures DeItems(elem, |vs[1..]|, data, De(elem, data, off).1).0 == Some(vs[1..])
  {
    var rest := DeItems(elem, |vs| - 1, data, De(elem, data, off).1).0;
    assert ([De(elem, data, off).0.value] + rest.value)[1..] == rest.value;
  }

  lemma FirstItemLost(elem: Ty, vs: seq<Val>, bs: seq<byte>, k: nat)
    requires vs != [] && k <= |bs| && Lost(elem, vs[0], bs[..k])
    ensures ItemsLost(elem, vs, bs)
  {
    forall data: seq<byte>, off: nat | IsAt(data, off, bs)
      ensures DeItems(elem, |vs|, data, off).0 != Some(vs)
    {
      IsAtCut(data, off, bs, k);
      if DeItems(elem, |vs|, data, off).0 == Some(vs) {
        FirstItem(elem, vs, data, off);
      }
    }
  }

  lemma LaterItemLost(elem: Ty, vs: seq<Val>, bs: seq<byte>, k: nat)
    requires vs != [] && k <= |bs| && Decodes(elem, vs[0], bs[..k]) && ItemsLost(elem, vs[1..], bs[k..])
    ensures ItemsLost(elem, vs, bs)
  {
    forall data: seq<byte>, off: nat | IsAt(data, off, bs)
      ensures DeItems(elem, |vs|, data, off).0 != Some(vs)
    {
      IsAtCut(data, off, bs, k);
      if DeItems(elem, |vs|, data, off).0 == Some(vs) {
        FirstItem(elem, vs, data, off);
      }
    }
  }

  lemma {:induction false} VecLost(elem: Ty, vs: seq<Val>, bs: seq<byte>)
    requires |vs| < U32_LIMIT && |bs| >= 4 && bs[..4] == ToBE(|vs| % U32_LIMIT, 4) && ItemsLost(elem, vs, bs[4..])
    ensures Lost(Vec(elem), VVec(vs), bs)
  {
    HeaderCounts(bs, |vs|);
    forall data: seq<byte>, off: nat | IsAt(data, off, bs)
      ensures De(Vec(elem), data, off).0 != Some(VVec(vs))
    {
      assert ReadInt(data, off, 4) == (Some(|vs|), off + 4);
    }
  }

  // ----- options and tuples -----

  lemma SomeLost(inner: Ty, v: Val, bs: seq<byte>)
    requires |bs| >= 1 && Lost(inner, v, bs[1..])
    ensures Lost(Opt(inner), VSome(v), bs)
  {
    forall data: seq<byte>, off: nat | IsAt(data, off, bs)
      ensures De(Opt(inner), data, off).0 != Some(VSome(v))
    {
      IsAtCut(data, off, bs, 1);
    }
  }

  lemma {:induction false} FieldsMustFit(parts: seq<Ty>, vs: seq<Val>, bs: seq<byte>)
    requires |vs| == |parts| && EncodesFields(parts, vs, bs)
    requires forall i :: 0 <= i < |parts| ==> ValidTy(parts[i]) && HasType(parts[i], vs[i]) && KeysFit(parts[i], vs[i])
    requires exists i :: 0 <= i < |parts| && !Storable(parts[i], vs[i])
    ensures FieldsLost(parts, vs, bs)
    decreases parts, 0, 0
  {
    var k := SplitFields(parts, vs, bs);
    if Storable(parts[0], vs[0]) {
      DecodeEncoded(parts[0], vs[0], bs[..k]);
      FieldsMustFit(parts[1..], vs[1..], bs[k..]);
      LaterFieldLost(parts, vs, bs, k);
    } else {
      MustFit(parts[0], vs[0], bs[..k]);
      FirstFieldLost(parts, vs, bs, k);
    }
  }

  lemma FirstField(parts: seq<Ty>, vs: seq<Val>, data: seq<byte>, off: nat)
    requires parts != [] && vs != [] && DeFields(parts, data, off).0 == Some(vs)
    ensures De(parts[0], data, off).0 == Some(vs[0])
    ensures DeFields(parts[1..], data, De(parts[0], data, off).1).0 == Some(vs[1..])
  {
    var rest := DeFields(parts[1..], data, De(parts[0], data, off).1).0;
    assert ([De(parts[0], data, off).0.value] + rest.value)[1..] == rest.value;
  }

  lemma FirstFieldLost(parts: seq<Ty>, vs: seq<Val>, bs: seq<byte>, k: nat)
    requires parts != [] && vs != [] && k <= |bs| && Lost(parts[0], vs[0], bs[..k])
    ensures FieldsLost(parts, vs, bs)
  {
    forall data: seq<byte>, off: nat | IsAt(data, off, bs)
      ensures DeFields(parts, data, off).0 != Some(vs)
    {
      IsAtCut(data, off, bs, k);
      if DeFields(parts, data, off).0 == Some(vs) {
        FirstField(parts, vs, data, off);
      }
    }
  }

  lemma LaterFieldLost(parts: seq<Ty>, vs: seq<Val>, bs: seq<byte>, k: nat)
    requires parts != [] && vs != [] && k <= |bs|
    requires Decodes(parts[0], vs[0], bs[..k]) && FieldsLost(parts[1..], vs[1..], bs[k..])
    ensures FieldsLost(parts, vs, bs)
  {
    forall data: seq<byte>, off: nat | IsAt(data, off, bs)
      ensures DeFields(parts, data, off).0 != Some(vs)
    {
      IsAtCut(data, off, bs, k);
      if DeFields(parts, data, off).0 == Some(vs) {
        FirstField(parts, vs, data, off);
      }
    }
  }

  lemma TupleLost(parts: seq<Ty>, vs: seq<Val>, bs: seq<byte>)
    requires FieldsLost(parts, vs, bs)
    ensures Lost(Tuple(parts), VTuple(vs), bs)
  {
  }

  // ----- maps -----

  /** An entry of `m` whose key fits. */
  ghost predicate EntryFits(ty: Ty, m: map<Val, Val>, entry: (Val, Val))
    requires ty.HashMap?
  {
    entry.0 in m && m[entry.0] == entry.1 && Storable(ty.key, entry.0) && HasType(ty.val, entry.1) && KeysFit(ty.val, entry.1)
  }

  ghost predicate EntriesFit(ty: Ty, m: map<Val, Val>, entries: seq<(Val, Val)>)
    requires ty.HashMap?
  {
    forall i :: 0 <= i < |entries| ==> EntryFits(ty, m, entries[i])
  }

  /** Some value does not fit. */
  ghost predicate SomeMisfit(ty: Ty, entries: seq<(Val, Val)>)
    requires ty.HashMap?
  {
    exists i :: 0 <= i < |entries| && !Storable(ty.val, entries[i].1)
  }

  lemma FirstOrLater(ty: Ty, m: map<Val, Val>, entries: seq<(Val, Val)>)
    requires ty.HashMap? && EntriesFit(ty, m, entries) && SomeMisfit(ty, entries)
    ensures EntryFits(ty, m, entries[0]) && EntriesFit(ty, m, entries[1..])
    ensures Storable(ty.val, entries[0].1) ==> SomeMisfit(ty, entries[1..])
  {
    var i :| 0 <= i < |entries| && !Storable(ty.val, entries[i].1);
    if i > 0 {
      assert entries[1..][i - 1] == entries[i];
    }
  }

  lemma {:induction false} KeyFits(ty: Ty, m: map<Val, Val>, k: Val)
    requires ty.HashMap? && HasType(ty, VMap(m)) && KeysFit(ty, VMap(m)) && Sized(ty, VMap(m)) && k in m
    ensures EntryFits(ty, m, (k, m[k]))
  {
    if TextFree(ty.key) {
      SizedStorable(ty.key, k);
    }
  }

  /** The entries in the order of the encoding; some value does not fit. */
  lemma {:induction false} MapListing(ty: Ty, m: map<Val, Val>, bs: seq<byte>) returns (entries: seq<(Val, Val)>)
    requires ty.HashMap? && HasType(ty, VMap(m)) && KeysFit(ty, VMap(m)) && Sized(ty, VMap(m)) && Encodes(ty, VMap(m), bs)
    requires !Storable(ty, VMap(m))
    ensures |entries| == |m| < U32_LIMIT && |bs| >= 4 && bs[..4] == ToBE(|m| % U32_LIMIT, 4)
    ensures EncodesEntries(ty, entries, bs[4..]) && EntriesFit(ty, m, entries)
    ensures SomeMisfit(ty, entries)
  {
    entries :| Lists(m, entries) && EncodesEntries(ty, entries, bs[4..]);
    forall i | 0 <= i < |entries|
      ensures EntryFits(ty, m, entries[i])
    {
      KeyFits(ty, m, entries[i].0);
    }
    var k :| k in m && !(Storable(ty.key, k) && Storable(ty.val, m[k]));
    KeyFits(ty, m, k);
    var i := EntryOf(m, entries, k);
  }

  lemma EntryOf(m: map<Val, Val>, entries: seq<(Val, Val)>, k: Val) returns (i: nat)
    requires Lists(m, entries) && k in m
    ensures i < |entries| && entries[i] == (k, m[k])
  {
    ListsRebuilds(m, entries);
    i := InsertedFrom(map[], entries, k);
  }

  lemma {:induction false} InsertedFrom(m: map<Val, Val>, entries: seq<(Val, Val)>, k: Val) returns (i: nat)
    requires k in InsertAll(m, entries) && k !in m
    ensures i < |entries| && entries[i].0 == k
    decreases |entries|
  {
    if entries[0].0 == k {
      i := 0;
    } else {
      var j := InsertedFrom(m[entries[0].0 := entries[0].1], entries[1..], k);
      i := j + 1;
    }
  }

  lemma {:induction false} EntriesMustFit(ty: Ty, m: map<Val, Val>, entries: seq<(Val, Val)>, bs: seq<byte>)
    requires ty.HashMap? && ValidTy(ty) && EncodesEntries(ty, entries, bs) && EntriesFit(ty, m, entries)
    requires SomeMisfit(ty, entries)
    ensures EntriesLost(ty, m, |entries|, bs)
    decreases ty, 0, 2 * |entries| + 1
  {
    FirstOrLater(ty, m, entries);
    if Storable(ty.val, entries[0].1) {
      LaterMustFit(ty, m, entries, bs);
    } else {
      var k, l := SplitEntries(ty, entries, bs);
      EntryMustFit(ty, m, |entries|, entries[0], bs, k, l);
    }
  }

  lemma {:induction false} LaterMustFit(ty: Ty, m: map<Val, Val>, entries: seq<(Val, Val)>, bs: seq<byte>)
    requires ty.HashMap? && ValidTy(ty) && entries != [] && EncodesEntries(ty, entries, bs)
    requires EntryFits(ty, m, entries[0]) && Storable(ty.val, entries[0].1)
    requires EntriesFit(ty, m, entries[1..]) && SomeMisfit(ty, entries[1..])
    ensures EntriesLost(ty, m, |entries|, bs)
    decreases ty, 0, 2 * |entries|
  {
    var k, l := SplitEntries(ty, entries, bs);
    EntriesMustFit(ty, m, entries[1..], bs[l..]);
    EntryPassed(ty, m, |entries|, entries[0], bs, k, l);
  }

  lemma JoinThree(bs: seq<byte>, k: nat, l: nat)
    requires k <= l <= |bs|
    ensures bs[..k] + bs[k..l] + bs[l..] == bs
  {
  }

  lemma {:induction false} EntryPassed(ty: Ty, m: map<Val, Val>, n: nat, entry: (Val, Val), bs: seq<byte>, k: nat, l: nat)
    requires ty.HashMap? && ValidTy(ty) && n > 0 && k <= l <= |bs| && EntryFits(ty, m, entry) && Storable(ty.val, entry.1)
    requires Encodes(ty.key, entry.0, bs[..k]) && Encodes(ty.val, entry.1, bs[k..l]) && EntriesLost(ty, m, n - 1, bs[l..])
    ensures EntriesLost(ty, m, n, bs)
  {
    DecodeEncoded(ty.key, entry.0, bs[..k]);
    DecodeEncoded(ty.val, entry.1, bs[k..l]);
    JoinThree(bs, k, l);
    LaterEntryLost(ty, m, n, entry, bs[..k], bs[k..l], bs[l..]);
  }

  lemma {:induction false} EntryMustFit(ty: Ty, m: map<Val, Val>, n: nat, entry: (Val, Val), bs: seq<byte>, k: nat, l: nat)
    requires ty.HashMap? && ValidTy(ty) && n > 0 && k <= l <= |bs| && EntryFits(ty, m, entry) && !Storable(ty.val, entry.1)
    requires Encodes(ty.key, entry.0, bs[..k]) && Encodes(ty.val, entry.1, bs[k..l])
    ensures EntriesLost(ty, m, n, bs)
    decreases ty, 0, 0
  {
    DecodeEncoded(ty.key, entry.0, bs[..k]);
    MustFit(ty.val, entry.1, bs[k..l]);
    JoinThree(bs, k, l);
    FirstEntryLost(ty, m, n, entry, bs[..k], bs[k..l], bs[l..]);
  }

  /** Insertions that make the map larger each time keep what was there. */
  lemma {:induction false} KeepsEntries(ty: Ty, n: nat, data: seq<byte>, off: nat, acc: map<Val, Val>, k: Val)
    requires ty.HashMap? && ValidTy(ty) && DeEntries(ty, n, data, off, acc).0.Some?
    ensures var m := DeEntries(ty, n, data, off, acc).0.value;
            |m| <= |acc| + n && (|m| == |acc| + n && k in acc ==> k in m && m[k] == acc[k])
    decreases n
  {
    if n > 0 {
      var (x, o) := De(ty.key, data, off);
      var (v, o2) := De(ty.val, data, o);
      InsertSize(acc, x.value, v.value);
      KeepsEntries(ty, n - 1, data, o2, acc[x.value := v.value], k);
    }
  }

  /** So the first value is what the map has for the first key. */
  lemma {:induction false} FirstEntry(ty: Ty, m: map<Val, Val>, n: nat, data: seq<byte>, off: nat, acc: map<Val, Val>, k: Val, o: nat)
    requires ty.HashMap? && ValidTy(ty) && n > 0 && De(ty.key, data, off) == (Some(k), o)
    requires DeEntries(ty, n, data, off, acc).0 == Some(m) && |m| == |acc| + n
    ensures k in m && De(ty.val, data, o).0 == Some(m[k]) && |acc[k := m[k]]| == |acc| + 1
    ensures DeEntries(ty, n - 1, data, De(ty.val, data, o).1, acc[k := m[k]]).0 == Some(m)
  {
    ValueDecodes(ty, n, data, off, acc, k, o);
    var (v, o2) := De(ty.val, data, o);
    EntriesStep(ty, n, data, off, acc, k, o, v.value, o2);
    InsertedKept(ty, m, n - 1, data, o2, acc, k, v.value);
  }

  lemma ValueDecodes(ty: Ty, n: nat, data: seq<byte>, off: nat, acc: map<Val, Val>, k: Val, o: nat)
    requires ty.HashMap? && n > 0 && De(ty.key, data, off) == (Some(k), o) && DeEntries(ty, n, data, off, acc).0.Some?
    ensures De(ty.val, data, o).0.Some?
  {
  }

  lemma {:induction false} InsertedKept(ty: Ty, m: map<Val, Val>, n: nat, data: seq<byte>, off: nat, acc: map<Val, Val>, k: Val, v: Val)
    requires ty.HashMap? && ValidTy(ty) && DeEntries(ty, n, data, off, acc[k := v]).0 == Some(m) && |m| == |acc| + n + 1
    ensures k in m && m[k] == v && |acc[k := v]| == |acc| + 1
  {
    InsertSize(acc, k, v);
    KeepsEntries(ty, n, data, off, acc[k := v], k);
  }

  lemma ThreeParts(data: seq<byte>, off: nat, a: seq<byte>, b: seq<byte>, c: seq<byte>)
    requires IsAt(data, off, a + b + c)
    ensures IsAt(data, off, a) && IsAt(data, off + |a|, b) && IsAt(data, off + |a| + |b|, c)
  {
    assert (a + b + c)[..|a| + |b|] == a + b && (a + b + c)[|a| + |b|..] == c;
    IsAtCut(data, off, a + b + c, |a| + |b|);
    assert (a + b)[..|a|] == a && (a + b)[|a|..] == b;
    IsAtCut(data, off, a + b, |a|);
  }

  lemma FirstEntryLost(ty: Ty, m: map<Val, Val>, n: nat, entry: (Val, Val), keyBytes: seq<byte>, valBytes: seq<byte>, rest: seq<byte>)
    requires ty.HashMap? && ValidTy(ty) && n > 0 && entry.0 in m && m[entry.0] == entry.1
    requires Decodes(ty.key, entry.0, keyBytes) && Lost(ty.val, entry.1, valBytes)
    ensures EntriesLost(ty, m, n, keyBytes + valBytes + rest)
  {
    forall data: seq<byte>, off: nat, acc | IsAt(data, off, keyBytes + valBytes + rest) && |m| == |acc| + n
      ensures DeEntries(ty, n, data, off, acc).0 != Some(m)
    {
      ThreeParts(data, off, keyBytes, valBytes, rest);
      if DeEntries(ty, n, data, off, acc).0 == Some(m) {
        FirstEntry(ty, m, n, data, off, acc, entry.0, off + |keyBytes|);
      }
    }
  }

  lemma LaterEntryLost(ty: Ty, m: map<Val, Val>, n: nat, entry: (Val, Val), keyBytes: seq<byte>, valBytes: seq<byte>, rest: seq<byte>)
    requires ty.HashMap? && ValidTy(ty) && n > 0 && entry.0 in m && m[entry.0] == entry.1
    requires Decodes(ty.key, entry.0, keyBytes) && Decodes(ty.val, entry.1, valBytes) && EntriesLost(ty, m, n - 1, rest)
    ensures EntriesLost(ty, m, n, keyBytes + valBytes + rest)
  {
    forall data: seq<byte>, off: nat, acc | IsAt(data, off, keyBytes + valBytes + rest) && |m| == |acc| + n
      ensures DeEntries(ty, n, data, off, acc).0 != Some(m)
    {
      ThreeParts(data, off, keyBytes, valBytes, rest);
      LaterEntryLostAt(ty, m, n, entry, keyBytes, valBytes, rest, data, off, acc);
    }
  }

  lemma LaterEntryLostAt(ty: Ty, m: map<Val, Val>, n: nat, entry: (Val, Val), keyBytes: seq<byte>, valBytes: seq<byte>,
                         rest: seq<byte>, data: seq<byte>, off: nat, acc: map<Val, Val>)
    requires ty.HashMap? && ValidTy(ty) && n > 0 && entry.0 in m && m[entry.0] == entry.1 && |m| == |acc| + n
    requires Decodes(ty.key, entry.0, keyBytes) && Decodes(ty.val, entry.1, valBytes) && EntriesLost(ty, m, n - 1, rest)
    requires IsAt(data, off, keyBytes) && IsAt(data, off + |keyBytes|, valBytes) && IsAt(data, off + |keyBytes| + |valBytes|, rest)
    ensures DeEntries(ty, n, data, off, acc).0 != Some(m)
  {
    var o := off + |keyBytes|;
    RestLost(ty, m, n, entry, rest, data, off, o, o + |valBytes|, acc);
  }

  lemma RestLost(ty: Ty, m: map<Val, Val>, n: nat, entry: (Val, Val), rest: seq<byte>, data: seq<byte>, off: nat, o: nat, o2: nat,
                 acc: map<Val, Val>)
    requires ty.HashMap? && ValidTy(ty) && n > 0 && entry.0 in m && m[entry.0] == entry.1 && |m| == |acc| + n
    requires De(ty.key, data, off) == (Some(entry.0), o) && De(ty.val, data, o) == (Some(entry.1), o2)
    requires IsAt(data, o2, rest) && EntriesLost(ty, m, n - 1, rest)
    ensures DeEntries(ty, n, data, off, acc).0 != Some(m)
  {
    if DeEntries(ty, n, data, off, acc).0 == Some(m) {
      FirstEntry(ty, m, n, data, off, acc, entry.0, o);
    }
  }

  lemma {:induction false} MapLost(ty: Ty, m: map<Val, Val>, bs: seq<byte>)
    requires ty.HashMap? && |m| < U32_LIMIT && |bs| >= 4 && bs[..4] == ToBE(|m| % U32_LIMIT, 4) && EntriesLost(ty, m, |m|, bs[4..])
    ensures Lost(ty, VMap(m), bs)
  {
    HeaderCounts(bs, |m|);
    forall data: seq<byte>, off: nat | IsAt(data, off, bs)
      ensures De(ty, data, off).0 != Some(VMap(m))
    {
      assert ReadInt(data, off, 4) == (Some(|m|), off + 4);
    }
  }

  // ----- the result -----

  /** If all map keys that may hold text fit, a value comes back exactly when all its lengths fit in 32 bits. */
  lemma {:induction false} RoundTripIff(ty: Ty, v: Val, bs: seq<byte>, pre: seq<byte>, suf: seq<byte>)
    requires ValidTy(ty) && HasType(ty, v) && KeysFit(ty, v) && Encodes(ty, v, bs)
    ensures De(ty, pre + bs + suf, |pre|).0 == Some(v) <==> Storable(ty, v)
  {
    if Storable(ty, v) {
      RoundTrip(ty, v, bs, pre, suf);
    } else {
      MustFit(ty, v, bs);
      assert IsAt(pre + bs + suf, |pre|, bs);
    }
  }
}
