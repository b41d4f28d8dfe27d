/** What the storage table guarantees: byte-disjoint entries, values inside one
    word, structs alone in theirs, and when `is_exclusive` is right. */
module LayoutFacts {
  import opened Wrappers
  import opened Graphs
  import opened Ast
  import opened StorageLayout

  ghost predicate Proper(item: Item) {
    match item.shape
    case Value(n) => item.kind == ValueSlot && item.size == n && 0 < n <= 32
    case Word => (item.kind == MappingSlot || item.kind == ArraySlot) && item.size == 32
    case Struct(_) => item.kind == StructSlot
  }

  ghost predicate AllProper(items: seq<Item>) {
    forall k :: 0 <= k < |items| ==> Proper(items[k])
  }

  lemma {:induction false} ItemsProper(e: Entity, members: seq<Member>)
    requires Acyclic(NestEdges(e.env))
    ensures AllProper(Items(e, members))
  {
    if members != [] {
      ItemsProper(e, members[..|members| - 1]);
      MemberItemProper(e, members[|members| - 1]);
    }
  }

  lemma MemberItemProper(e: Entity, m: Member)
    requires Acyclic(NestEdges(e.env))
    ensures Proper(MemberItem(e.env, m))
  {
    TopFits(e.env, m.ty);
  }

  lemma CursorStep(items: seq<Item>, k: nat)
    requires k < |items|
    ensures Cursor(items[..k + 1]) == EndOf(items, k)
  {
    assert items[..k + 1][..k] == items[..k];
  }

  /** An entry ends before every later one starts. */
  lemma {:induction false} Ordered(items: seq<Item>, i: nat, j: nat)
    requires i < j < |items|
    ensures EndOf(items, i) <= StartOf(items, j)
    decreases j
  {
    CursorStep(items, j - 1);
    if i < j - 1 {
      Ordered(items, i, j - 1);
    }
  }

  /** Byte `b` of storage belongs to entry `k`. */
  ghost predicate Owns(items: seq<Item>, k: nat, b: nat)
    requires k < |items|
  {
    StartOf(items, k) <= b < EndOf(items, k)
  }

  /** Every byte has at most one owner; values fit their word; everything else starts a word. */
  lemma LayoutSound(e: Entity, deterministic: bool, slots: seq<SlotInfo>)
    requires Acyclic(NestEdges(e.env)) && Refines(slots, AllItems(e, deterministic))
    ensures var items := AllItems(e, deterministic);
            && (forall i, j, b :: 0 <= i < |items| && 0 <= j < |items| && Owns(items, i, b) && Owns(items, j, b) ==> i == j)
            && (forall k :: 0 <= k < |slots| ==> EntryPlaced(slots, items, k))
  {
    var items := AllItems(e, deterministic);
    ItemsProper(e, e.members);
    forall i, j, b | 0 <= i < |items| && 0 <= j < |items| && Owns(items, i, b) && Owns(items, j, b)
      ensures i == j
    {
      if i < j {
        Ordered(items, i, j);
      } else if j < i {
        Ordered(items, j, i);
      }
    }
    forall k | 0 <= k < |slots|
      ensures EntryPlaced(slots, items, k)
    {
      EntryIsPlaced(slots, items, k);
    }
  }

  /** The reported position is that of the first byte; values fit their word, everything else fills words. */
  ghost predicate EntryPlaced(slots: seq<SlotInfo>, items: seq<Item>, k: nat)
    requires k < |slots| == |items|
  {
    && slots[k].offset < 32 && StartOf(items, k) == 32 * slots[k].slot + slots[k].offset
    && (slots[k].kind == ValueSlot ==>
          slots[k].offset + slots[k].size <= 32 && EndOf(items, k) == StartOf(items, k) + slots[k].size)
    && (slots[k].kind != ValueSlot ==> slots[k].offset == 0 && EndOf(items, k) % 32 == 0)
  }

  lemma EntryIsPlaced(slots: seq<SlotInfo>, items: seq<Item>, k: nat)
    requires Refines(slots, items) && k < |items| && Proper(items[k])
    ensures EntryPlaced(slots, items, k)
  {
    ShapeBounds(Cursor(items[..k]), items[k].shape);
  }

  // ---------- is_exclusive ----------

  function CountSlot(slots: seq<SlotInfo>, slot: nat): nat {
    if slots == [] then 0 else (if slots[|slots| - 1].slot == slot then 1 else 0) + CountSlot(slots[..|slots| - 1], slot)
  }

  predicate OccupiesFullSlot(info: SlotInfo) {
    info.size == 32 || info.kind == StructSlot
  }

  predicate IsExclusive(slots: seq<SlotInfo>, info: SlotInfo) {
    OccupiesFullSlot(info) || info.kind == StructSlot || CountSlot(slots, info.slot) == 1
  }

  lemma {:induction false} CountSlotZero(slots: seq<SlotInfo>, slot: nat)
    ensures CountSlot(slots, slot) == 0 <==> forall k :: 0 <= k < |slots| ==> slots[k].slot != slot
  {
    if slots != [] {
      CountSlotZero(slots[..|slots| - 1], slot);
    }
  }

  /** Counting to one means nobody else reports the slot. */
  lemma {:induction false} CountSlotOne(slots: seq<SlotInfo>, k: nat)
    requires k < |slots|
    ensures CountSlot(slots, slots[k].slot) >= 1
    ensures CountSlot(slots, slots[k].slot) == 1 <==> forall j :: 0 <= j < |slots| && j != k ==> slots[j].slot != slots[k].slot
  {
    var n := |slots| - 1;
    var slot := slots[k].slot;
    CountSlotZero(slots[..n], slot);
    if k < n {
      CountSlotOne(slots[..n], k);
      assert forall j :: 0 <= j < n ==> slots[..n][j] == slots[j];
    } else {
      assert forall j :: 0 <= j < n ==> slots[..n][j] == slots[j];
    }
  }

  /** Entry `k` has a byte in word `w`. */
  ghost predicate Touches(items: seq<Item>, k: nat, w: nat)
    requires k < |items|
  {
    exists b :: 32 * w <= b < 32 * w + 32 && Owns(items, k, b)
  }

  lemma TouchesByBounds(items: seq<Item>, k: nat, w: nat)
    requires k < |items|
    ensures Touches(items, k, w) <==> StartOf(items, k) < EndOf(items, k) && 32 * w < EndOf(items, k) && StartOf(items, k) < 32 * w + 32
  {
    var b := if StartOf(items, k) < 32 * w then 32 * w else StartOf(items, k);
    if StartOf(items, k) < EndOf(items, k) && 32 * w < EndOf(items, k) && StartOf(items, k) < 32 * w + 32 {
      assert Owns(items, k, b);
    }
  }

  ghost predicate SharesAWord(items: seq<Item>, k: nat, j: nat)
    requires k < |items| && j < |items|
  {
    exists w :: Touches(items, k, w) && Touches(items, j, w)
  }

  ghost predicate WholeWords(items: seq<Item>, k: nat)
    requires k < |items|
  {
    StartOf(items, k) % 32 == 0 && EndOf(items, k) % 32 == 0
  }

  lemma NoCommonWord(sk: nat, ek: nat, sj: nat, ej: nat, w: nat)
    requires sk % 32 == 0 && ek % 32 == 0 && (ej <= sk || ek <= sj)
    ensures !(32 * w < ek && sk < 32 * w + 32 && 32 * w < ej && sj < 32 * w + 32)
  {
  }

  /** A struct, mapping, array or full-width value shares no word with anyone. */
  lemma WholeWordsAlone(items: seq<Item>, k: nat, j: nat)
    requires k < |items| && j < |items| && j != k
    requires WholeWords(items, k)
    ensures !SharesAWord(items, k, j)
  {
    if j < k {
      Ordered(items, j, k);
    } else {
      Ordered(items, k, j);
    }
    if w :| Touches(items, k, w) && Touches(items, j, w) {
      TouchesByBounds(items, k, w);
      TouchesByBounds(items, j, w);
      NoCommonWord(StartOf(items, k), EndOf(items, k), StartOf(items, j), EndOf(items, j), w);
    }
  }

  /** An entry fills whole words, or is a value inside the word it reports. */
  lemma WholeOrPacked(slots: seq<SlotInfo>, items: seq<Item>, k: nat)
    requires Refines(slots, items) && k < |items| && Proper(items[k])
    ensures OccupiesFullSlot(slots[k]) ==> WholeWords(items, k)
    ensures WholeWords(items, k) || (StartOf(items, k) % 32 + items[k].size <= 32 && EndOf(items, k) == StartOf(items, k) + items[k].size)
  {
    ShapeBounds(Cursor(items[..k]), items[k].shape);
  }

  lemma {:induction false} ShapeBounds(c: nat, s: Shape)
    ensures !s.Value? ==> Start(c, s) % 32 == 0 && End(c, s) % 32 == 0
    ensures s.Value? && s.size <= 32 ==> Start(c, s) % 32 + s.size <= 32 && End(c, s) == Start(c, s) + s.size
  {
  }

  lemma PackedTouchesItsSlot(slots: seq<SlotInfo>, items: seq<Item>, k: nat, w: nat)
    requires Refines(slots, items) && k < |items| && Touches(items, k, w)
    requires StartOf(items, k) % 32 + items[k].size <= 32 && EndOf(items, k) == StartOf(items, k) + items[k].size
    ensures w == slots[k].slot
  {
    TouchesByBounds(items, k, w);
  }

  /** Entries that share a word are both packed values and report the same slot. */
  lemma SharersReportOneSlot(slots: seq<SlotInfo>, items: seq<Item>, k: nat, j: nat)
    requires Refines(slots, items) && AllProper(items) && k < |items| && j < |items| && j != k
    requires SharesAWord(items, k, j)
    ensures slots[k].slot == slots[j].slot && !OccupiesFullSlot(slots[k])
  {
    var w :| Touches(items, k, w) && Touches(items, j, w);
    assert SharesAWord(items, j, k);
    WholeOrPacked(slots, items, k);
    WholeOrPacked(slots, items, j);
    assert !WholeWords(items, k) by {
      if WholeWords(items, k) {
        WholeWordsAlone(items, k, j);
      }
    }
    assert !WholeWords(items, j) by {
      if WholeWords(items, j) {
        WholeWordsAlone(items, j, k);
      }
    }
    PackedTouchesItsSlot(slots, items, k, w);
    PackedTouchesItsSlot(slots, items, j, w);
  }

  ghost predicate NonEmpty(items: seq<Item>) {
    forall k :: 0 <= k < |items| ==> StartOf(items, k) < EndOf(items, k)
  }

  /** With no empty struct, `is_exclusive` says exactly that no other entry has a byte in the entry's words. */
  lemma ExclusiveExact(slots: seq<SlotInfo>, items: seq<Item>, k: nat)
    requires Refines(slots, items) && AllProper(items) && k < |items|
    ensures IsExclusive(slots, slots[k]) ==> forall j :: 0 <= j < |items| && j != k ==> !SharesAWord(items, k, j)
    ensures NonEmpty(items) ==> (IsExclusive(slots, slots[k]) <==> forall j :: 0 <= j < |items| && j != k ==> !SharesAWord(items, k, j))
  {
    CountSlotOne(slots, k);
    forall j | 0 <= j < |items| && j != k && SharesAWord(items, k, j)
      ensures !IsExclusive(slots, slots[k])
    {
      SharersReportOneSlot(slots, items, k, j);
    }
    if NonEmpty(items) && !IsExclusive(slots, slots[k]) {
      var j :| 0 <= j < |slots| && j != k && slots[j].slot == slots[k].slot;
      TouchesByBounds(items, k, slots[k].slot);
      TouchesByBounds(items, j, slots[k].slot);
      assert SharesAWord(items, k, j);
    }
  }

  // ---------- no empty records, no empty structs ----------

  ghost predicate NoEmptyRecords(env: Env) {
    && (forall r :: r in env.records ==> r.fields != [])
    && (forall r :: r in env.programRecords ==> r.fields != [])
  }

  ghost predicate Solid(s: Shape)
    decreases s, 0
  {
    match s
    case Value(n) => n > 0
    case Word => true
    case Struct(fs) => fs != [] && AllSolid(fs)
  }

  ghost predicate AllSolid(fs: seq<Shape>)
    decreases fs, 1
  {
    fs == [] || (AllSolid(fs[..|fs| - 1]) && Solid(fs[|fs| - 1]))
  }

  lemma {:induction false} SolidHasBytes(c: nat, s: Shape)
    requires Solid(s)
    ensures Start(c, s) < End(c, s)
    decreases s
  {
    match s
    case Value(_) =>
    case Word =>
    case Struct(fs) =>
      var last := fs[|fs| - 1];
      SolidHasBytes(EndAll(Start(c, s), fs[..|fs| - 1]), last);
  }

  lemma {:induction false} SolidFields(env: Env, S: set<string>, types: seq<Type>)
    requires Acyclic(NestEdges(env)) && AllFit(env, S, types) && NoEmptyRecords(env)
    ensures AllSolid(FieldShapes(env, S, types))
    decreases S, 3, |types|
  {
    if types != [] {
      SolidFields(env, S, types[..|types| - 1]);
      SolidField(env, S, types[|types| - 1]);
    }
  }

  lemma {:induction false} SolidRecord(env: Env, r: Record)
    requires Acyclic(NestEdges(env)) && RecordNamed(env, r.name) == Some(r) && NoEmptyRecords(env)
    ensures Solid(Struct(RecordShapes(env, r)))
    decreases Cone(env, r.name), 0, 0
  {
    RecordFits(env, r);
    SolidFields(env, Below(env, r.name), FieldTypes(r.fields));
    assert r.fields != [];
  }

  lemma {:induction false} SolidField(env: Env, S: set<string>, ty: Type)
    requires Acyclic(NestEdges(env)) && Fits(env, S, ty) && NoEmptyRecords(env)
    ensures Solid(FieldShape(env, S, ty))
    decreases S, 2, 0
  {
    match LookupRecord(env, ty)
    case Some(r) =>
      SolidRecord(env, r);
    case None =>
      if IsPayload(env, ty) {
        var types := VariantTypes(LookupEnum(env, ty).value.variants);
        SolidVariants(env, S, types);
      }
  }

  lemma {:induction false} AllSolidSnoc(fs: seq<Shape>, s: Shape)
    requires AllSolid(fs) && Solid(s)
    ensures AllSolid(fs + [s])
  {
    assert (fs + [s])[..|fs|] == fs;
  }

  lemma {:induction false} SolidVariants(env: Env, S: set<string>, types: seq<Type>)
    requires Acyclic(NestEdges(env)) && AllFitDirect(env, S, types) && NoEmptyRecords(env)
    ensures AllSolid([Value(1)] + VariantShapes(env, S, types))
    decreases S, 1, |types|
  {
    if types == [] {
      AllSolidSnoc([], Value(1));
      assert [] + [Value(1)] == [Value(1)] + VariantShapes(env, S, types);
    } else {
      var m := |types| - 1;
      SolidVariants(env, S, types[..m]);
      match LookupRecord(env, types[m]) {
        case Some(r) => SolidRecord(env, r);
        case None =>
      }
      AllSolidSnoc([Value(1)] + VariantShapes(env, S, types[..m]), VariantShape(env, S, types[m]));
      assert [Value(1)] + VariantShapes(env, S, types) == [Value(1)] + VariantShapes(env, S, types[..m]) + [VariantShape(env, S, types[m])];
    }
  }

  lemma {:induction false} SolidItems(e: Entity, members: seq<Member>)
    requires Acyclic(NestEdges(e.env)) && NoEmptyRecords(e.env)
    ensures forall k :: 0 <= k < |Items(e, members)| ==> Solid(Items(e, members)[k].shape)
  {
    if members != [] {
      var m := members[|members| - 1];
      SolidItems(e, members[..|members| - 1]);
      TopFits(e.env, m.ty);
      SolidField(e.env, RecordNames(e.env), m.ty);
    }
  }

  lemma EntriesNonEmpty(e: Entity, deterministic: bool)
    requires Acyclic(NestEdges(e.env)) && NoEmptyRecords(e.env)
    ensures AllProper(AllItems(e, deterministic)) && NonEmpty(AllItems(e, deterministic))
  {
    var items := AllItems(e, deterministic);
    ItemsProper(e, e.members);
    SolidItems(e, e.members);
    forall k | 0 <= k < |items|
      ensures StartOf(items, k) < EndOf(items, k)
    {
      SolidHasBytes(Cursor(items[..k]), items[k].shape);
    }
  }
}
