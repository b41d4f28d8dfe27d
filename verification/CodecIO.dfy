/** The serializer and deserializer loops of cambrian-core/src/lib.rs, proved
    against the encoding relation and the decoding function. */
module CodecIO {
  import opened Wrappers
  import opened Utf8
  import opened Codec
  import opened CodecBytes

  // ---------- appending to encodings ----------

  lemma SnocTail<T>(s: seq<T>, x: T)
    requires s != []
    ensures (s + [x])[0] == s[0] && (s + [x])[1..] == s[1..] + [x]
  {
  }

  lemma SnocSlices(bs: seq<byte>, more: seq<byte>, k: nat, l: nat)
    requires k <= l <= |bs|
    ensures (bs + more)[..k] == bs[..k] && (bs + more)[k..l] == bs[k..l] && (bs + more)[l..] == bs[l..] + more
  {
  }

  lemma One<T>(x: T, bs: seq<byte>)
    ensures [x][1..] == [] && [x] == [] + [x] && bs == [] + bs && bs[..|bs|] == bs && bs[|bs|..] == []
  {
  }

  lemma {:induction false} JoinItems(elem: Ty, vs: seq<Val>, bs: seq<byte>, k: nat)
    requires vs != [] && k <= |bs| && Encodes(elem, vs[0], bs[..k]) && EncodesItems(elem, vs[1..], bs[k..])
    ensures EncodesItems(elem, vs, bs)
  {
  }

  lemma {:induction false} NoItems(elem: Ty)
    ensures EncodesItems(elem, [], [])
  {
  }

  lemma {:induction false} ItemsSnoc(elem: Ty, vs: seq<Val>, bs: seq<byte>, v: Val, more: seq<byte>)
    requires EncodesItems(elem, vs, bs) && Encodes(elem, v, more)
    ensures EncodesItems(elem, vs + [v], bs + more)
    decreases |vs|
  {
    if vs == [] {
      NoItems(elem);
      One(v, more);
      JoinItems(elem, [v], more, |more|);
    } else {
      var k := SplitItems(elem, vs, bs);
      ItemsSnoc(elem, vs[1..], bs[k..], v, more);
      SnocTail(vs, v);
      SnocSlices(bs, more, k, k);
      JoinItems(elem, vs + [v], bs + more, k);
    }
  }

  lemma {:induction false} JoinFields(parts: seq<Ty>, vs: seq<Val>, bs: seq<byte>, k: nat)
    requires parts != [] && vs != [] && k <= |bs| && Encodes(parts[0], vs[0], bs[..k])
    requires EncodesFields(parts[1..], vs[1..], bs[k..])
    ensures EncodesFields(parts, vs, bs)
  {
  }

  lemma NoFields()
    ensures EncodesFields([], [], [])
  {
  }

  lemma {:induction false} FieldsSnoc(parts: seq<Ty>, vs: seq<Val>, bs: seq<byte>, ty: Ty, v: Val, more: seq<byte>)
    requires EncodesFields(parts, vs, bs) && Encodes(ty, v, more)
    ensures EncodesFields(parts + [ty], vs + [v], bs + more)
    decreases |parts|
  {
    if parts == [] {
      NoFields();
      One(ty, more);
      One(v, more);
      JoinFields([ty], [v], more, |more|);
    } else {
      var k := SplitFields(parts, vs, bs);
      FieldsSnoc(parts[1..], vs[1..], bs[k..], ty, v, more);
      SnocTail(parts, ty);
      SnocTail(vs, v);
      SnocSlices(bs, more, k, k);
      JoinFields(parts + [ty], vs + [v], bs + more, k);
    }
  }

  lemma {:induction false} JoinEntries(ty: Ty, entries: seq<(Val, Val)>, bs: seq<byte>, k: nat, l: nat)
    requires ty.HashMap? && entries != [] && k <= l <= |bs|
    requires Encodes(ty.key, entries[0].0, bs[..k]) && Encodes(ty.val, entries[0].1, bs[k..l])
    requires EncodesEntries(ty, entries[1..], bs[l..])
    ensures EncodesEntries(ty, entries, bs)
  {
  }

  lemma {:induction false} NoEntries(ty: Ty)
    requires ty.HashMap?
    ensures EncodesEntries(ty, [], [])
  {
  }

  lemma {:induction false} EntriesOne(ty: Ty, e: (Val, Val), kv: seq<byte>, k: nat)
    requires ty.HashMap? && k <= |kv| && Encodes(ty.key, e.0, kv[..k]) && Encodes(ty.val, e.1, kv[k..])
    ensures EncodesEntries(ty, [e], kv)
  {
    NoEntries(ty);
    One(e, kv);
    assert kv[k..|kv|] == kv[k..];
    JoinEntries(ty, [e], kv, k, |kv|);
  }

  /** `kv` is an encoded key followed by its encoded value. */
  lemma {:induction false} EntriesSnoc(ty: Ty, entries: seq<(Val, Val)>, bs: seq<byte>, e: (Val, Val),
                                       kv: seq<byte>, k: nat)
    requires ty.HashMap? && EncodesEntries(ty, entries, bs)
    requires k <= |kv| && Encodes(ty.key, e.0, kv[..k]) && Encodes(ty.val, e.1, kv[k..])
    ensures EncodesEntries(ty, entries + [e], bs + kv)
    decreases |entries|
  {
    if entries == [] {
      EntriesOne(ty, e, kv, k);
      One(e, kv);
    } else {
      var i, j := SplitEntries(ty, entries, bs);
      EntriesSnoc(ty, entries[1..], bs[j..], e, kv, k);
      SnocTail(entries, e);
      SnocSlices(bs, kv, i, j);
      JoinEntries(ty, entries + [e], bs + kv, i, j);
    }
  }

  // ---------- serializing ----------

  method SerBe(ty: Ty, v: Val) returns (bs: seq<byte>)
    requires ValidTy(ty) && HasType(ty, v)
    ensures Encodes(ty, v, bs) && Written(ty, v, bs)
    decreases ty, 1
  {
    match ty {
      case Uint(size) =>
        bs := ToBE(v.n, size);
      case Int(size) =>
        WrapFits(v.n, size);
        bs := ToBE(Wrap(v.n, size), size);
      case Bool =>
        bs := [if v.b then 1 else 0];
      case Bytes32 =>
        bs := v.bytes;
      case Str =>
        bs := ToBE(|v.bytes| % U32_LIMIT, 4) + v.bytes;
      case Vec(elem) =>
        bs := SerItems(elem, v.items);
      case Opt(inner) =>
        if v.VSome? {
          var rest := SerBe(inner, v.v);
          bs := [1] + rest;
          assert bs[1..] == rest;
        } else {
          bs := [0];
        }
      case Tuple(parts) =>
        bs := SerFields(parts, v.fields);
      case HashMap(_, _) =>
        bs := SerEntries(ty, v.m);
    }
    EncodedBytes(ty, v, bs);
  }

  /** A list's bytes so far: the length prefix, then the encodings of the first items. */
  ghost predicate ItemsSoFar(elem: Ty, vs: seq<Val>, head: seq<byte>, bs: seq<byte>) {
    |head| == 4 && |bs| >= 4 && bs[..4] == head && EncodesItems(elem, vs, bs[4..])
  }

  lemma {:induction false} ItemsOneMore(elem: Ty, vs: seq<Val>, head: seq<byte>, bs: seq<byte>, v: Val, more: seq<byte>)
    requires ItemsSoFar(elem, vs, head, bs) && Encodes(elem, v, more)
    ensures ItemsSoFar(elem, vs + [v], head, bs + more)
  {
    ItemsSnoc(elem, vs, bs[4..], v, more);
    SnocSlices(bs, more, 4, 4);
  }

  method SerItems(elem: Ty, vs: seq<Val>) returns (bs: seq<byte>)
    requires ValidTy(elem) && forall i :: 0 <= i < |vs| ==> HasType(elem, vs[i])
    ensures |bs| >= 4 && bs[..4] == ToBE(|vs| % U32_LIMIT, 4) && EncodesItems(elem, vs, bs[4..])
    decreases elem, 2
  {
    var head := ToBE(|vs| % U32_LIMIT, 4);
    bs := head;
    var i := 0;
    while i < |vs|
      invariant 0 <= i <= |vs| && ItemsSoFar(elem, vs[..i], head, bs)
    {
      var more := SerBe(elem, vs[i]);
      ItemsOneMore(elem, vs[..i], head, bs, vs[i], more);
      assert vs[..i + 1] == vs[..i] + [vs[i]];
      bs := bs + more;
      i := i + 1;
    }
    assert vs[..i] == vs;
  }

  lemma {:induction false} FieldsOneMore(parts: seq<Ty>, vs: seq<Val>, i: nat, bs: seq<byte>, more: seq<byte>)
    requires i < |parts| == |vs| && EncodesFields(parts[..i], vs[..i], bs) && Encodes(parts[i], vs[i], more)
    ensures EncodesFields(parts[..i + 1], vs[..i + 1], bs + more)
  {
    FieldsSnoc(parts[..i], vs[..i], bs, parts[i], vs[i], more);
    assert vs[..i + 1] == vs[..i] + [vs[i]];
    assert parts[..i + 1] == parts[..i] + [parts[i]];
  }

  method SerFields(parts: seq<Ty>, vs: seq<Val>) returns (bs: seq<byte>)
    requires |vs| == |parts| && forall i :: 0 <= i < |parts| ==> ValidTy(parts[i]) && HasType(parts[i], vs[i])
    ensures EncodesFields(parts, vs, bs)
    decreases parts, 0
  {
    bs := [];
    var i := 0;
    while i < |parts|
      invariant 0 <= i <= |parts|
      invariant EncodesFields(parts[..i], vs[..i], bs)
    {
      var more := SerBe(parts[i], vs[i]);
      FieldsOneMore(parts, vs, i, bs, more);
      bs := bs + more;
      i := i + 1;
    }
    assert vs[..i] == vs && parts[..i] == parts;
  }

  /** What is left to iterate over, and what was listed so far. */
  ghost predicate Listing(m: map<Val, Val>, rest: set<Val>, entries: seq<(Val, Val)>) {
    && rest <= m.Keys && |entries| + |rest| == |m|
    && (forall i :: 0 <= i < |entries| ==> entries[i].0 in m && entries[i].0 !in rest && m[entries[i].0] == entries[i].1)
    && (forall i, j :: 0 <= i < j < |entries| ==> entries[i].0 != entries[j].0)
  }

  ghost predicate EntriesSoFar(ty: Ty, entries: seq<(Val, Val)>, head: seq<byte>, bs: seq<byte>)
    requires ty.HashMap?
  {
    |head| == 4 && |bs| >= 4 && bs[..4] == head && EncodesEntries(ty, entries, bs[4..])
  }

  lemma EntriesOneMore(ty: Ty, entries: seq<(Val, Val)>, head: seq<byte>, bs: seq<byte>, e: (Val, Val),
                       kv: seq<byte>, k: nat)
    requires ty.HashMap? && EntriesSoFar(ty, entries, head, bs)
    requires k <= |kv| && Encodes(ty.key, e.0, kv[..k]) && Encodes(ty.val, e.1, kv[k..])
    ensures EntriesSoFar(ty, entries + [e], head, bs + kv)
  {
    EntriesSnoc(ty, entries, bs[4..], e, kv, k);
    SnocSlices(bs, kv, 4, 4);
  }

  lemma {:induction false} EntryAppended(ty: Ty, entries: seq<(Val, Val)>, head: seq<byte>, bs: seq<byte>,
                                         e: (Val, Val), kb: seq<byte>, vb: seq<byte>)
    requires ty.HashMap? && EntriesSoFar(ty, entries, head, bs)
    requires Encodes(ty.key, e.0, kb) && Encodes(ty.val, e.1, vb)
    ensures EntriesSoFar(ty, entries + [e], head, bs + kb + vb)
  {
    var kv, k := kb + vb, |kb|;
    assert kv[..k] == kb && kv[k..] == vb;
    EntriesOneMore(ty, entries, head, bs, e, kv, k);
    assert bs + kv == bs + kb + vb;
  }

  /** The map is walked in an arbitrary order. */
  method SerEntries(ty: Ty, m: map<Val, Val>) returns (bs: seq<byte>)
    requires ty.HashMap? && ValidTy(ty) && HasType(ty, VMap(m))
    ensures Encodes(ty, VMap(m), bs)
    decreases ty, 0
  {
    var head := ToBE(|m| % U32_LIMIT, 4);
    bs := head;
    var rest := m.Keys;
    ghost var entries: seq<(Val, Val)> := [];
    while rest != {}
      invariant Listing(m, rest, entries)
      invariant EntriesSoFar(ty, entries, head, bs)
    {
      var k :| k in rest;
      var kb := SerBe(ty.key, k);
      var vb := SerBe(ty.val, m[k]);
      ListOneMore(m, rest, entries, k);
      EntryAppended(ty, entries, head, bs, (k, m[k]), kb, vb);
      bs, rest, entries := bs + kb + vb, rest - {k}, entries + [(k, m[k])];
    }
    MapEncoded(ty, m, entries, bs);
  }

  lemma ListOneMore(m: map<Val, Val>, rest: set<Val>, entries: seq<(Val, Val)>, k: Val)
    requires Listing(m, rest, entries) && k in rest
    ensures Listing(m, rest - {k}, entries + [(k, m[k])])
  {
  }

  lemma {:induction false} MapEncoded(ty: Ty, m: map<Val, Val>, entries: seq<(Val, Val)>, bs: seq<byte>)
    requires ty.HashMap? && Listing(m, {}, entries)
    requires EntriesSoFar(ty, entries, ToBE(|m| % U32_LIMIT, 4), bs)
    ensures Encodes(ty, VMap(m), bs)
  {
    assert Lists(m, entries);
  }

  // ---------- deserializing ----------

  method TryDeBe(ty: Ty, data: seq<byte>, off0: nat) returns (r: Option<Val>, off: nat)
    ensures (r, off) == De(ty, data, off0)
    ensures ValidTy(ty) && r.Some? ==> ReadAs(ty, r.value, data, off0, off)
    decreases ty, 1
  {
    off := off0;
    match ty
    case Vec(elem) =>
      var len, o := ReadInt(data, off, 4).0, ReadInt(data, off, 4).1;
      if len.None? {
        return None, o;
      }
      var vs;
      vs, off := TryDeItems(elem, len.value, data, o);
      r := if vs.None? then None else Some(VVec(vs.value));
    case Opt(inner) =>
      if |data| < off + 1 {
        return None, off;
      }
      if data[off] == 0 {
        return Some(VNone), off + 1;
      }
      var v;
      v, off := TryDeBe(inner, data, off + 1);
      r := if v.None? then None else Some(VSome(v.value));
    case Tuple(parts) =>
      var vs;
      vs, off := TryDeFields(parts, data, off);
      r := if vs.None? then None else Some(VTuple(vs.value));
    case HashMap(_, _) =>
      var len, o := ReadInt(data, off, 4).0, ReadInt(data, off, 4).1;
      if len.None? {
        return None, o;
      }
      var m;
      m, off := TryDeEntries(ty, len.value, data, o);
      r := if m.None? then None else Some(VMap(m.value));
    case _ =>
      r, off := De(ty, data, off0).0, De(ty, data, off0).1;
      if ValidTy(ty) && r.Some? {
        DecodedBytes(ty, data, off0);
      }
  }

  /** The decoded front part together with what decoding the rest gives. */
  ghost function Prepend(front: seq<Val>, rest: (Option<seq<Val>>, nat)): (Option<seq<Val>>, nat) {
    (if rest.0.None? then None else Some(front + rest.0.value), rest.1)
  }

  method TryDeItems(elem: Ty, len: nat, data: seq<byte>, off0: nat) returns (r: Option<seq<Val>>, off: nat)
    ensures (r, off) == DeItems(elem, len, data, off0)
    decreases elem, 2
  {
    off := off0;
    var items: seq<Val> := [];
    var i := 0;
    PrependNothing([], DeItems(elem, len, data, off));
    while i < len
      invariant 0 <= i <= len
      invariant DeItems(elem, len, data, off0) == Prepend(items, DeItems(elem, len - i, data, off))
    {
      var v, o := TryDeBe(elem, data, off);
      if v.None? {
        return None, o;
      }
      PrependItem(elem, len - i, data, off, items, v.value, o);
      items, off := items + [v.value], o;
      i := i + 1;
    }
    PrependNothing(items, DeItems(elem, 0, data, off));
    return Some(items), off;
  }

  lemma PrependNothing(items: seq<Val>, rest: (Option<seq<Val>>, nat))
    ensures Prepend([], rest) == rest
    ensures rest.0 == Some([]) ==> Prepend(items, rest) == (Some(items), rest.1)
  {
    if rest.0.Some? {
      assert [] + rest.0.value == rest.0.value && items + [] == items;
    }
  }

  lemma PrependItem(elem: Ty, n: nat, data: seq<byte>, off: nat, front: seq<Val>, v: Val, o: nat)
    requires n > 0 && De(elem, data, off) == (Some(v), o)
    ensures Prepend(front, DeItems(elem, n, data, off)) == Prepend(front + [v], DeItems(elem, n - 1, data, o))
  {
    var rest := DeItems(elem, n - 1, data, o);
    if rest.0.Some? {
      assert front + ([v] + rest.0.value) == (front + [v]) + rest.0.value;
    }
  }

  method TryDeFields(parts: seq<Ty>, data: seq<byte>, off0: nat) returns (r: Option<seq<Val>>, off: nat)
    ensures (r, off) == DeFields(parts, data, off0)
    decreases parts, 0
  {
    if parts == [] {
      return Some([]), off0;
    }
    var v;
    v, off := TryDeBe(parts[0], data, off0);
    if v.None? {
      return None, off;
    }
    var vs;
    vs, off := TryDeFields(parts[1..], data, off);
    r := if vs.None? then None else Some([v.value] + vs.value);
  }

  method TryDeEntries(ty: Ty, len: nat, data: seq<byte>, off0: nat) returns (r: Option<map<Val, Val>>, off: nat)
    requires ty.HashMap?
    ensures (r, off) == DeEntries(ty, len, data, off0, map[])
    decreases ty, 0
  {
    off := off0;
    var m: map<Val, Val> := map[];
    var i := 0;
    while i < len
      invariant 0 <= i <= len
      invariant DeEntries(ty, len, data, off0, map[]) == DeEntries(ty, len - i, data, off, m)
    {
      var k, o := TryDeBe(ty.key, data, off);
      if k.None? {
        return None, o;
      }
      var v, o2 := TryDeBe(ty.val, data, o);
      if v.None? {
        return None, o2;
      }
      m, off := m[k.value := v.value], o2;
      i := i + 1;
    }
    return Some(m), off;
  }

  // ---------- both directions ----------

  /** Serializing and deserializing anywhere in a buffer. */
  method RoundTripBe(ty: Ty, v: Val, pre: seq<byte>, suf: seq<byte>) returns (r: Option<Val>, off: nat, size: nat)
    requires ValidTy(ty) && Storable(ty, v)
    ensures r == Some(v) && off == |pre| + size
  {
    StorableHasType(ty, v);
    var bs := SerBe(ty, v);
    RoundTrip(ty, v, bs, pre, suf);
    size := |bs|;
    r, off := TryDeBe(ty, pre + bs + suf, |pre|);
  }

  lemma DigitSplit(h: nat, lo: nat)
    ensures (256 * h + lo) / 256 == h + lo / 256 && (256 * h + lo) % 256 == lo % 256
  {
  }

  /** The two limbs of a U256, each big-endian, are its 32 bytes. */
  lemma {:induction false} LimbBytes(hi: nat, lo: nat, m: nat, n: nat)
    requires lo < Pow256(n)
    ensures ToBE(hi * Pow256(n) + lo, m + n) == ToBE(hi, m) + ToBE(lo, n)
  {
    if n > 0 {
      var h: nat := hi * Pow256(n - 1);
      assert hi * Pow256(n) == 256 * h;
      DigitSplit(h, lo);
      LimbBytes(hi, lo / 256, m, n - 1);
    } else {
      assert hi * Pow256(0) + lo == hi;
    }
  }
}
