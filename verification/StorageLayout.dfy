/** Storage slots of the state variables of an entity
    (cambrian-transpiler/src/codegen/storage_layout.rs), refined by a byte cursor. */
module StorageLayout {
  import opened Wrappers
  import opened Graphs
  import opened Kahn
  import opened Ast

  /** Declarations in scope; the entity's own come before the program's. */
  datatype Env = Env(records: seq<Record>, programRecords: seq<Record>, enums: seq<EnumDecl>, programEnums: seq<EnumDecl>)

  function FindRecord(rs: seq<Record>, name: string): (r: Option<Record>)
    ensures r.Some? ==> r.value in rs && r.value.name == name
  {
    if rs == [] then None else if rs[0].name == name then Some(rs[0]) else FindRecord(rs[1..], name)
  }

  function FindEnum(es: seq<EnumDecl>, name: string): Option<EnumDecl> {
    if es == [] then None else if es[0].name == name then Some(es[0]) else FindEnum(es[1..], name)
  }

  function RecordNamed(env: Env, name: string): (r: Option<Record>)
    ensures r.Some? ==> r.value.name == name && (r.value in env.records || r.value in env.programRecords)
  {
    match FindRecord(env.records, name)
    case Some(r) => Some(r)
    case None => FindRecord(env.programRecords, name)
  }

  function LookupRecord(env: Env, ty: Type): Option<Record> {
    if ty.Simple? then RecordNamed(env, ty.name) else None
  }

  function LookupEnum(env: Env, ty: Type): Option<EnumDecl> {
    if ty.Simple? then
      match FindEnum(env.enums, ty.name)
      case Some(e) => Some(e)
      case None => FindEnum(env.programEnums, ty.name)
    else None
  }

  predicate IsPayloadEnum(e: EnumDecl) {
    exists v :: v in e.variants && v.fields != []
  }

  predicate IsPayload(env: Env, ty: Type) {
    LookupEnum(env, ty).Some? && IsPayloadEnum(LookupEnum(env, ty).value)
  }

  predicate IsMapping(ty: Type) {
    ty.Generic? && ty.name == "HashMap"
  }

  predicate IsDynamicArray(ty: Type) {
    ty.Generic? && (ty.name == "Vec" || ty.name == "array")
  }

  function SolValueNbytes(ty: Type): (r: Option<nat>)
    ensures r.Some? ==> 0 < r.value <= 32
  {
    match ty
    case Simple(n) =>
      if n in {"bool", "u8", "i8", "uint8", "int8", "bytes1"} then Some(1)
      else if n in {"u16", "i16", "uint16", "int16", "bytes2"} then Some(2)
      else if n in {"u32", "i32", "uint32", "int32", "bytes4"} then Some(4)
      else if n in {"u64", "i64", "uint64", "int64", "bytes8"} then Some(8)
      else if n in {"u128", "i128", "uint128", "int128", "bytes16"} then Some(16)
      else if n == "address" then Some(20)
      else Some(32)
    case TypedAddress(_) => Some(20)
    case Generic(n, _) => if n == "HashMap" || n == "Vec" || n == "array" then None else Some(32)
    case Tuple(_) => Some(32)
  }

  function ValueNbytes(env: Env, ty: Type): (r: nat)
    ensures 0 < r <= 32
  {
    if LookupRecord(env, ty).Some? then 32
    else if LookupEnum(env, ty).Some? then (if IsPayload(env, ty) then 32 else 1)
    else match SolValueNbytes(ty)
         case Some(n) => n
         case None => 32
  }

  // ---------- nesting ----------

  ghost function RecordNames(env: Env): set<string> {
    (set r | r in env.records :: r.name) + (set r | r in env.programRecords :: r.name)
  }

  /** A value of type `ty` directly contains record `b`, or a payload enum that does. */
  ghost predicate Contains(env: Env, ty: Type, b: string) {
    if LookupRecord(env, ty).Some? then LookupRecord(env, ty).value.name == b
    else IsPayload(env, ty) && exists u :: u in VariantTypes(LookupEnum(env, ty).value.variants)
                                        && LookupRecord(env, u).Some? && LookupRecord(env, u).value.name == b
  }

  ghost predicate Nests(env: Env, a: string, b: string) {
    RecordNamed(env, a).Some? && exists ty :: ty in FieldTypes(RecordNamed(env, a).value.fields) && Contains(env, ty, b)
  }

  ghost function NestEdges(env: Env): set<(string, string)> {
    set a, b | a in RecordNames(env) && b in RecordNames(env) && Nests(env, a, b) :: (a, b)
  }

  /** Records nested below record `name`. */
  ghost function Below(env: Env, name: string): set<string> {
    Beyond(NestEdges(env), RecordNames(env), name)
  }

  ghost function Cone(env: Env, name: string): set<string> {
    {name} + Below(env, name)
  }

  /** Records directly inside `u` have their whole nesting inside `S`. */
  ghost predicate FitsDirect(env: Env, S: set<string>, u: Type) {
    LookupRecord(env, u).Some? ==> Cone(env, LookupRecord(env, u).value.name) <= S
  }

  ghost predicate Fits(env: Env, S: set<string>, ty: Type) {
    && FitsDirect(env, S, ty)
    && (LookupRecord(env, ty).None? && IsPayload(env, ty) ==> AllFitDirect(env, S, VariantTypes(LookupEnum(env, ty).value.variants)))
  }

  ghost predicate AllFitDirect(env: Env, S: set<string>, types: seq<Type>) {
    forall i :: 0 <= i < |types| ==> FitsDirect(env, S, types[i])
  }

  ghost predicate AllFit(env: Env, S: set<string>, types: seq<Type>) {
    forall i :: 0 <= i < |types| ==> Fits(env, S, types[i])
  }

  lemma ConeInNames(env: Env, name: string)
    requires RecordNamed(env, name).Some?
    ensures name in RecordNames(env) && Cone(env, name) <= RecordNames(env)
  {
  }

  lemma ConeShrinks(env: Env, a: string, b: string)
    requires (a, b) in NestEdges(env)
    ensures Cone(env, b) <= Below(env, a)
  {
    var E := NestEdges(env);
    ReachRefl(E, b);
    forall c | c in Below(env, b)
      ensures c in Below(env, a)
    {
      ReachIsReflPlus(E, b, c);
    }
  }

  /** Everything inside a record is nested strictly below it. */
  lemma RecordFits(env: Env, r: Record)
    requires RecordNamed(env, r.name) == Some(r) && Acyclic(NestEdges(env))
    ensures AllFit(env, Below(env, r.name), FieldTypes(r.fields))
    ensures Below(env, r.name) < Cone(env, r.name)
  {
    var types := FieldTypes(r.fields);
    ConeInNames(env, r.name);
    forall i | 0 <= i < |types|
      ensures Fits(env, Below(env, r.name), types[i])
    {
      FieldFits(env, r, types[i]);
    }
    assert r.name !in Below(env, r.name);
  }

  lemma FieldFits(env: Env, r: Record, ty: Type)
    requires RecordNamed(env, r.name) == Some(r) && ty in FieldTypes(r.fields)
    ensures Fits(env, Below(env, r.name), ty)
  {
    ConeInNames(env, r.name);
    if LookupRecord(env, ty).Some? {
      var b := LookupRecord(env, ty).value.name;
      ConeInNames(env, b);
      assert Contains(env, ty, b);
      ConeShrinks(env, r.name, b);
    } else if IsPayload(env, ty) {
      var us := VariantTypes(LookupEnum(env, ty).value.variants);
      forall i | 0 <= i < |us|
        ensures FitsDirect(env, Below(env, r.name), us[i])
      {
        if LookupRecord(env, us[i]).Some? {
          var b := LookupRecord(env, us[i]).value.name;
          ConeInNames(env, b);
          assert us[i] in us;
          assert Contains(env, ty, b);
          ConeShrinks(env, r.name, b);
        }
      }
    }
  }

  lemma TopFits(env: Env, ty: Type)
    ensures Fits(env, RecordNames(env), ty)
  {
    if LookupRecord(env, ty).Some? {
      ConeInNames(env, LookupRecord(env, ty).value.name);
    } else if IsPayload(env, ty) {
      var us := VariantTypes(LookupEnum(env, ty).value.variants);
      forall i | 0 <= i < |us|
        ensures FitsDirect(env, RecordNames(env), us[i])
      {
        if LookupRecord(env, us[i]).Some? {
          ConeInNames(env, LookupRecord(env, us[i]).value.name);
        }
      }
    }
  }

  // ---------- the byte cursor ----------

  /** What a type occupies: a packed value, a whole word, or a struct of such. */
  datatype Shape = Value(size: nat) | Word | Struct(fields: seq<Shape>)

  function AlignUp(c: nat): (r: nat)
    ensures c <= r < c + 32 && r % 32 == 0
  {
    (c + 31) / 32 * 32
  }

  /** Where a shape starts when the next free byte is `c`: a value stays if it fits in the word. */
  function Start(c: nat, s: Shape): (r: nat)
    ensures c <= r
  {
    match s
    case Value(n) => if c % 32 + n <= 32 then c else AlignUp(c)
    case Word => AlignUp(c)
    case Struct(_) => AlignUp(c)
  }

  function End(c: nat, s: Shape): (r: nat)
    ensures Start(c, s) <= r
    decreases s, 0
  {
    match s
    case Value(n) => Start(c, s) + n
    case Word => Start(c, s) + 32
    case Struct(fs) => AlignUp(EndAll(Start(c, s), fs))
  }

  function EndAll(c: nat, fs: seq<Shape>): (r: nat)
    ensures c <= r
    decreases fs, 1
  {
    if fs == [] then c else End(EndAll(c, fs[..|fs| - 1]), fs[|fs| - 1])
  }

  /** Bytes of data, without padding. */
  function Bytes(fs: seq<Shape>): nat
    decreases fs, 1
  {
    if fs == [] then 0 else Bytes(fs[..|fs| - 1]) + BytesOf(fs[|fs| - 1])
  }

  function BytesOf(s: Shape): nat
    decreases s, 0
  {
    match s
    case Value(n) => n
    case Word => 32
    case Struct(fs) => Bytes(fs)
  }

  // ---------- shapes of types ----------

  ghost function RecordShapes(env: Env, r: Record): seq<Shape>
    requires Acyclic(NestEdges(env)) && RecordNamed(env, r.name) == Some(r)
    decreases Cone(env, r.name), 0, 0
  {
    RecordFits(env, r);
    FieldShapes(env, Below(env, r.name), FieldTypes(r.fields))
  }

  ghost function FieldShapes(env: Env, S: set<string>, types: seq<Type>): seq<Shape>
    requires Acyclic(NestEdges(env)) && AllFit(env, S, types)
    decreases S, 3, |types|
  {
    if types == [] then []
    else FieldShapes(env, S, types[..|types| - 1]) + [FieldShape(env, S, types[|types| - 1])]
  }

  ghost function FieldShape(env: Env, S: set<string>, ty: Type): Shape
    requires Acyclic(NestEdges(env)) && Fits(env, S, ty)
    decreases S, 2, 0
  {
    match LookupRecord(env, ty)
    case Some(r) => Struct(RecordShapes(env, r))
    case None =>
      if IsPayload(env, ty) then Struct([Value(1)] + VariantShapes(env, S, VariantTypes(LookupEnum(env, ty).value.variants)))
      else if IsMapping(ty) || IsDynamicArray(ty) then Word
      else Value(ValueNbytes(env, ty))
  }

  /** Inside a payload enum only records nest; any other field is a single packed value. */
  ghost function VariantShapes(env: Env, S: set<string>, types: seq<Type>): seq<Shape>
    requires Acyclic(NestEdges(env)) && AllFitDirect(env, S, types)
    decreases S, 1, |types|
  {
    if types == [] then []
    else VariantShapes(env, S, types[..|types| - 1]) + [VariantShape(env, S, types[|types| - 1])]
  }

  ghost function VariantShape(env: Env, S: set<string>, ty: Type): Shape
    requires Acyclic(NestEdges(env)) && FitsDirect(env, S, ty)
    decreases S, 1, 0
  {
    match LookupRecord(env, ty)
    case Some(r) => Struct(RecordShapes(env, r))
    case None => Value(ValueNbytes(env, ty))
  }

  // ---------- the packers ----------

  /** The loop variables `(next_slot, used_in_slot)` stand for the next free byte. */
  ghost predicate AtByte(slot: nat, used: nat, c: nat) {
    used < 32 && c == 32 * slot + used
  }

  function NextSlot(slot: nat, used: nat): nat {
    if used > 0 then slot + 1 else slot
  }

  lemma NextSlotAligns(slot: nat, used: nat, c: nat)
    requires AtByte(slot, used, c)
    ensures AtByte(NextSlot(slot, used), 0, AlignUp(c))
  {
  }

  method PlaceValue(slot0: nat, used0: nat, size: nat, ghost c: nat)
    returns (slot: nat, used: nat, at: nat, offset: nat)
    requires AtByte(slot0, used0, c) && 0 < size <= 32
    ensures AtByte(slot, used, End(c, Value(size)))
    ensures AtByte(at, offset, Start(c, Value(size)))
  {
    slot, used := slot0, used0;
    if used > 0 && used + size > 32 {
      slot, used := slot + 1, 0;
    }
    at, offset := slot, used;
    used := used + size;
    if used == 32 {
      slot, used := slot + 1, 0;
    }
  }

  method PackRecordFields(env: Env, rec: Record, startSlot: nat) returns (slot: nat, used: nat, total: nat)
    requires Acyclic(NestEdges(env)) && RecordNamed(env, rec.name) == Some(rec)
    ensures AtByte(slot, used, EndAll(32 * startSlot, RecordShapes(env, rec)))
    ensures total == Bytes(RecordShapes(env, rec))
    decreases Cone(env, rec.name), 0, 0
  {
    RecordFits(env, rec);
    slot, used, total := PackFields(env, Below(env, rec.name), FieldTypes(rec.fields), startSlot);
  }

  method PackFields(env: Env, ghost S: set<string>, types: seq<Type>, startSlot: nat)
    returns (slot: nat, used: nat, total: nat)
    requires Acyclic(NestEdges(env)) && AllFit(env, S, types)
    ensures AtByte(slot, used, EndAll(32 * startSlot, FieldShapes(env, S, types)))
    ensures total == Bytes(FieldShapes(env, S, types))
    decreases S, 3, 0
  {
    slot, used, total := startSlot, 0, 0;
    var i := 0;
    while i < |types|
      invariant 0 <= i <= |types|
      invariant AtByte(slot, used, EndAll(32 * startSlot, FieldShapes(env, S, types[..i])))
      invariant total == Bytes(FieldShapes(env, S, types[..i]))
    {
      ghost var before := FieldShapes(env, S, types[..i]);
      ghost var c := EndAll(32 * startSlot, before);
      var bytes;
      slot, used, bytes := PackField(env, S, types[i], slot, used, c);
      total := total + bytes;
      assert types[..i + 1][..i] == types[..i];
      assert FieldShapes(env, S, types[..i + 1]) == before + [FieldShape(env, S, types[i])];
      AppendShape(32 * startSlot, before, FieldShape(env, S, types[i]));
      i := i + 1;
    }
    assert types[..i] == types;
  }

  lemma {:induction false} AppendShape(c: nat, fs: seq<Shape>, s: Shape)
    ensures EndAll(c, fs + [s]) == End(EndAll(c, fs), s)
    ensures Bytes(fs + [s]) == Bytes(fs) + BytesOf(s)
  {
    assert (fs + [s])[..|fs|] == fs;
  }

  /** One iteration of the record loop. */
  method PackField(env: Env, ghost S: set<string>, ty: Type, slot0: nat, used0: nat,
                   ghost c: nat) returns (slot: nat, used: nat, bytes: nat)
    requires Acyclic(NestEdges(env)) && Fits(env, S, ty)
    requires AtByte(slot0, used0, c)
    ensures AtByte(slot, used, End(c, FieldShape(env, S, ty)))
    ensures bytes == BytesOf(FieldShape(env, S, ty))
    decreases S, 2, 0
  {
    NextSlotAligns(slot0, used0, c);
    match LookupRecord(env, ty) {
      case Some(nested) =>
        slot, used, bytes := PackNested(env, S, nested, slot0, used0, c);
      case None =>
        if IsPayload(env, ty) {
          slot, used, bytes := PackPayloadEnumFields(env, S, LookupEnum(env, ty).value, NextSlot(slot0, used0));
          NextSlotAligns(slot, used, 32 * slot + used);
          slot, used := NextSlot(slot, used), 0;
        } else if IsMapping(ty) || IsDynamicArray(ty) {
          slot, used, bytes := NextSlot(slot0, used0) + 1, 0, 32;
        } else {
          var at, offset;
          bytes := ValueNbytes(env, ty);
          slot, used, at, offset := PlaceValue(slot0, used0, bytes, c);
        }
    }
  }

  /** A nested record starts a fresh slot, and what follows it does too. */
  method PackNested(env: Env, ghost S: set<string>, nested: Record, slot0: nat, used0: nat,
                    ghost c: nat) returns (slot: nat, used: nat, bytes: nat)
    requires Acyclic(NestEdges(env)) && RecordNamed(env, nested.name) == Some(nested) && Cone(env, nested.name) <= S
    requires AtByte(slot0, used0, c)
    ensures AtByte(slot, used, End(c, Struct(RecordShapes(env, nested))))
    ensures bytes == BytesOf(Struct(RecordShapes(env, nested)))
    decreases S, 1, 0
  {
    NextSlotAligns(slot0, used0, c);
    slot, used, bytes := PackRecordFields(env, nested, NextSlot(slot0, used0));
    NextSlotAligns(slot, used, 32 * slot + used);
    slot, used := NextSlot(slot, used), 0;
  }

  method PackPayloadEnumFields(env: Env, ghost S: set<string>, decl: EnumDecl,
                               startSlot: nat) returns (slot: nat, used: nat, total: nat)
    requires Acyclic(NestEdges(env)) && AllFitDirect(env, S, VariantTypes(decl.variants))
    ensures AtByte(slot, used, EndAll(32 * startSlot, [Value(1)] + VariantShapes(env, S, VariantTypes(decl.variants))))
    ensures total == Bytes([Value(1)] + VariantShapes(env, S, VariantTypes(decl.variants)))
    decreases S, 1, 2
  {
    slot, used, total := startSlot, 1, 1;
    var types := VariantTypes(decl.variants);
    TagFirst(32 * startSlot);
    assert [Value(1)] + VariantShapes(env, S, types[..0]) == [Value(1)];
    var i := 0;
    while i < |types|
      invariant 0 <= i <= |types|
      invariant AtByte(slot, used, EndAll(32 * startSlot, [Value(1)] + VariantShapes(env, S, types[..i])))
      invariant total == Bytes([Value(1)] + VariantShapes(env, S, types[..i]))
    {
      ghost var before := [Value(1)] + VariantShapes(env, S, types[..i]);
      ghost var c := EndAll(32 * startSlot, before);
      var bytes;
      slot, used, bytes := PackVariantField(env, S, types[i], slot, used, c);
      total := total + bytes;
      assert types[..i + 1][..i] == types[..i];
      assert [Value(1)] + VariantShapes(env, S, types[..i + 1]) == before + [VariantShape(env, S, types[i])];
      AppendShape(32 * startSlot, before, VariantShape(env, S, types[i]));
      i := i + 1;
    }
    assert types[..i] == types;
  }

  lemma {:induction false} TagFirst(c: nat)
    requires c % 32 == 0
    ensures EndAll(c, [Value(1)]) == c + 1 && Bytes([Value(1)]) == 1
  {
    AppendShape(c, [], Value(1));
    assert [] + [Value(1)] == [Value(1)];
  }

  method PackVariantField(env: Env, ghost S: set<string>, ty: Type, slot0: nat, used0: nat,
                          ghost c: nat) returns (slot: nat, used: nat, bytes: nat)
    requires Acyclic(NestEdges(env)) && FitsDirect(env, S, ty)
    requires AtByte(slot0, used0, c)
    ensures AtByte(slot, used, End(c, VariantShape(env, S, ty)))
    ensures bytes == BytesOf(VariantShape(env, S, ty))
    decreases S, 1, 1
  {
    match LookupRecord(env, ty) {
      case Some(nested) =>
        slot, used, bytes := PackNested(env, S, nested, slot0, used0, c);
      case None =>
        var at, offset;
        bytes := ValueNbytes(env, ty);
        slot, used, at, offset := PlaceValue(slot0, used0, bytes, c);
    }
  }

  // ---------- the layout of an entity ----------

  datatype SlotKind = ValueSlot | MappingSlot | ArraySlot | StructSlot

  datatype SlotInfo = SlotInfo(name: string, slot: nat, offset: nat, size: nat, kind: SlotKind)

  datatype Member = Member(name: string, ty: Type, isIdentity: bool)

  /** `existsUsed` are the members whose transforms call `.exists()` on them. */
  datatype Entity = Entity(env: Env, members: seq<Member>, existsUsed: set<string>, hasInitParams: bool)

  /** One state variable: its entry and what it occupies. */
  datatype Item = Item(name: string, kind: SlotKind, size: nat, shape: Shape)

  function MinNat(a: nat, b: nat): nat {
    if a < b then a else b
  }

  ghost function MemberShape(env: Env, ty: Type): Shape
    requires Acyclic(NestEdges(env))
  {
    TopFits(env, ty);
    FieldShape(env, RecordNames(env), ty)
  }

  ghost function MemberItem(env: Env, m: Member): Item
    requires Acyclic(NestEdges(env))
  {
    var shape := MemberShape(env, m.ty);
    match shape
    case Struct(fs) => Item(m.name, StructSlot, MinNat(Bytes(fs), 255), shape)
    case Word => Item(m.name, if IsMapping(m.ty) then MappingSlot else ArraySlot, 32, shape)
    case Value(n) => Item(m.name, ValueSlot, n, shape)
  }

  ghost function MemberItems(e: Entity, m: Member): seq<Item>
    requires Acyclic(NestEdges(e.env))
  {
    if m.isIdentity then []
    else [MemberItem(e.env, m)]
         + (if IsMapping(m.ty) && m.name in e.existsUsed then [Item(m.name + "_exists", MappingSlot, 32, Word)] else [])
  }

  ghost function Items(e: Entity, members: seq<Member>): seq<Item>
    requires Acyclic(NestEdges(e.env))
  {
    if members == [] then []
    else Items(e, members[..|members| - 1]) + MemberItems(e, members[|members| - 1])
  }

  ghost function AllItems(e: Entity, deterministic: bool): seq<Item>
    requires Acyclic(NestEdges(e.env))
  {
    Items(e, e.members) + (if deterministic && e.hasInitParams then [Item("_initialized", ValueSlot, 1, Value(1))] else [])
  }

  /** The next free byte after all of `items`. */
  ghost function Cursor(items: seq<Item>): nat {
    if items == [] then 0 else End(Cursor(items[..|items| - 1]), items[|items| - 1].shape)
  }

  ghost function StartOf(items: seq<Item>, k: nat): nat
    requires k < |items|
  {
    Start(Cursor(items[..k]), items[k].shape)
  }

  ghost function EndOf(items: seq<Item>, k: nat): nat
    requires k < |items|
  {
    End(Cursor(items[..k]), items[k].shape)
  }

  /** The table is the byte-cursor model, entry by entry. */
  ghost predicate Refines(slots: seq<SlotInfo>, items: seq<Item>) {
    |slots| == |items| &&
    forall k :: 0 <= k < |items| ==>
                  slots[k] == SlotInfo(items[k].name, StartOf(items, k) / 32, StartOf(items, k) % 32, items[k].size, items[k].kind)
  }

  lemma {:induction false} RefinesSnoc(slots: seq<SlotInfo>, items: seq<Item>, item: Item)
    requires Refines(slots, items)
    ensures var at := Start(Cursor(items), item.shape);
            Refines(slots + [SlotInfo(item.name, at / 32, at % 32, item.size, item.kind)], items + [item])
    ensures Cursor(items + [item]) == End(Cursor(items), item.shape)
  {
    var next := items + [item];
    assert next[..|items|] == items;
    forall k | 0 <= k < |items|
      ensures StartOf(next, k) == StartOf(items, k)
    {
      assert next[..k] == items[..k];
    }
  }

  method ComputeLayout(e: Entity, deterministic: bool) returns (slots: seq<SlotInfo>)
    requires Acyclic(NestEdges(e.env))
    ensures Refines(slots, AllItems(e, deterministic))
  {
    var nextSlot, used;
    slots, nextSlot, used := LayoutMembers(e);
    ghost var items := Items(e, e.members);
    if deterministic && e.hasInitParams {
      slots := AppendInitialized(slots, nextSlot, used, items);
    } else {
      assert items + [] == items;
    }
  }

  lemma {:induction false} ItemsStep(e: Entity, i: nat)
    requires Acyclic(NestEdges(e.env)) && i < |e.members|
    ensures Items(e, e.members[..i + 1]) == Items(e, e.members[..i]) + MemberItems(e, e.members[i])
  {
    assert e.members[..i + 1][..i] == e.members[..i];
  }

  /** The loop over the members. */
  method LayoutMembers(e: Entity) returns (slots: seq<SlotInfo>, nextSlot: nat, used: nat)
    requires Acyclic(NestEdges(e.env))
    ensures Refines(slots, Items(e, e.members)) && AtByte(nextSlot, used, Cursor(Items(e, e.members)))
  {
    slots := [];
    nextSlot, used := 0, 0;
    ghost var items: seq<Item> := [];
    var i := 0;
    while i < |e.members|
      invariant 0 <= i <= |e.members|
      invariant items == Items(e, e.members[..i])
      invariant Refines(slots, items) && AtByte(nextSlot, used, Cursor(items))
    {
      ItemsStep(e, i);
      slots, nextSlot, used := PlaceMember(e, e.members[i], slots, nextSlot, used, items);
      items := items + MemberItems(e, e.members[i]);
      i := i + 1;
    }
    assert e.members[..i] == e.members;
  }

  /** The `_initialized` flag packs like any other one-byte value. */
  method AppendInitialized(slots0: seq<SlotInfo>, nextSlot: nat, used: nat,
                           ghost items: seq<Item>) returns (slots: seq<SlotInfo>)
    requires Refines(slots0, items) && AtByte(nextSlot, used, Cursor(items))
    ensures Refines(slots, items + [Item("_initialized", ValueSlot, 1, Value(1))])
  {
    slots := AppendValue("_initialized", 1, slots0, nextSlot, used, items);
  }

  method AppendValue(name: string, size: nat, slots0: seq<SlotInfo>, nextSlot: nat, used: nat,
                     ghost items: seq<Item>) returns (slots: seq<SlotInfo>)
    requires Refines(slots0, items) && AtByte(nextSlot, used, Cursor(items)) && 0 < size <= 32
    ensures Refines(slots, items + [Item(name, ValueSlot, size, Value(size))])
  {
    RefinesSnoc(slots0, items, Item(name, ValueSlot, size, Value(size)));
    var slot, u, at, offset := PlaceValue(nextSlot, used, size, Cursor(items));
    slots := slots0 + [SlotInfo(name, at, offset, size, ValueSlot)];
  }

  /** One member, with its shadow mapping if it has one; an identity member has no slot. */
  method PlaceMember(e: Entity, m: Member, slots0: seq<SlotInfo>, slot0: nat, used0: nat, ghost items: seq<Item>)
    returns (slots: seq<SlotInfo>, nextSlot: nat, used: nat)
    requires Acyclic(NestEdges(e.env))
    requires Refines(slots0, items) && AtByte(slot0, used0, Cursor(items))
    ensures Refines(slots, items + MemberItems(e, m))
    ensures AtByte(nextSlot, used, Cursor(items + MemberItems(e, m)))
  {
    if m.isIdentity {
      assert items + MemberItems(e, m) == items;
      return slots0, slot0, used0;
    }
    var info;
    ghost var item := MemberItem(e.env, m);
    info, nextSlot, used := PlaceOne(e.env, m, slot0, used0, Cursor(items));
    RefinesSnoc(slots0, items, item);
    slots := slots0 + [info];
    if IsMapping(m.ty) && m.name in e.existsUsed {
      slots, nextSlot, used := AppendShadow(m.name + "_exists", slots, nextSlot, used, items + [item]);
      assert items + [item] + [Item(m.name + "_exists", MappingSlot, 32, Word)] == items + MemberItems(e, m);
    } else {
      assert items + [item] == items + MemberItems(e, m);
    }
  }

  /** The shadow mapping takes a slot of its own. */
  method AppendShadow(name: string, slots0: seq<SlotInfo>, slot0: nat, used0: nat, ghost items: seq<Item>)
    returns (slots: seq<SlotInfo>, nextSlot: nat, used: nat)
    requires Refines(slots0, items) && AtByte(slot0, used0, Cursor(items))
    ensures Refines(slots, items + [Item(name, MappingSlot, 32, Word)])
    ensures AtByte(nextSlot, used, Cursor(items + [Item(name, MappingSlot, 32, Word)]))
  {
    NextSlotAligns(slot0, used0, Cursor(items));
    RefinesSnoc(slots0, items, Item(name, MappingSlot, 32, Word));
    nextSlot := slot0;
    if used0 > 0 {
      nextSlot := nextSlot + 1;
    }
    slots := slots0 + [SlotInfo(name, nextSlot, 0, 32, MappingSlot)];
    nextSlot, used := nextSlot + 1, 0;
  }

  method PlaceOne(env: Env, m: Member, slot0: nat, used0: nat, ghost c: nat)
    returns (info: SlotInfo, nextSlot: nat, used: nat)
    requires Acyclic(NestEdges(env)) && AtByte(slot0, used0, c)
    ensures var item := MemberItem(env, m);
            var at := Start(c, item.shape);
            && info == SlotInfo(item.name, at / 32, at % 32, item.size, item.kind)
            && AtByte(nextSlot, used, End(c, item.shape))
  {
    TopFits(env, m.ty);
    NextSlotAligns(slot0, used0, c);
    ghost var S := RecordNames(env);
    var start := NextSlot(slot0, used0);
    var total;
    match LookupRecord(env, m.ty) {
      case Some(rec) =>
        nextSlot, used, total := PackNested(env, S, rec, slot0, used0, c);
        info := SlotInfo(m.name, start, 0, MinNat(total, 255), StructSlot);
      case None =>
        if IsPayload(env, m.ty) {
          nextSlot, used, total := PackField(env, S, m.ty, slot0, used0, c);
          info := SlotInfo(m.name, start, 0, MinNat(total, 255), StructSlot);
        } else if IsMapping(m.ty) || IsDynamicArray(m.ty) {
          nextSlot, used := start + 1, 0;
          info := SlotInfo(m.name, start, 0, 32, if IsMapping(m.ty) then MappingSlot else ArraySlot);
        } else {
          var at, offset;
          var size := ValueNbytes(env, m.ty);
          nextSlot, used, at, offset := PlaceValue(slot0, used0, size, c);
          info := SlotInfo(m.name, at, offset, size, ValueSlot);
        }
    }
  }
}
