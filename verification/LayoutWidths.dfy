/** How wide the storage of a value type is, from the name of the type
    (`sol_value_nbytes` in cambrian-transpiler/src/codegen/storage_layout.rs), and
    what the table says of a member of that type. */
module LayoutWidths {
  import opened Wrappers
  import opened Sequences
  import opened Graphs
  import opened Ast
  import opened StorageLayout
  import opened LayoutFacts
  import opened Literals

  const INTEGERS: set<string> := {"u", "i", "uint", "int"}
  const SIZES: set<nat> := {1, 2, 4, 8, 16}

  /** A packed integer of `n` bytes, named by its number of bits. */
  ghost predicate IntegerName(name: string, n: nat) {
    n in SIZES && exists prefix :: prefix in INTEGERS && name == prefix + Decimal(8 * n)
  }

  /** A packed byte array of `n` bytes. */
  ghost predicate BytesName(name: string, n: nat) {
    n in SIZES && name == "bytes" + Decimal(n)
  }

  lemma SizeNames()
    ensures Decimal(1) == "1" && Decimal(2) == "2" && Decimal(4) == "4" && Decimal(8) == "8" && Decimal(16) == "16"
    ensures Decimal(32) == "32" && Decimal(64) == "64" && Decimal(128) == "128"
  {
    assert Decimal(1) == "1" && Decimal(3) == "3" && Decimal(6) == "6" && Decimal(12) == "12";
  }

  // ---------- the table of widths ----------

  lemma Width1()
    ensures forall name :: name in {"u8", "i8", "uint8", "int8", "bytes1"} ==> SolValueNbytes(Simple(name)) == Some(1)
  {
  }

  lemma Width2()
    ensures forall name :: name in {"u16", "i16", "uint16", "int16", "bytes2"} ==> SolValueNbytes(Simple(name)) == Some(2)
  {
  }

  lemma Width4()
    ensures forall name :: name in {"u32", "i32", "uint32", "int32", "bytes4"} ==> SolValueNbytes(Simple(name)) == Some(4)
  {
  }

  lemma Width8()
    ensures forall name :: name in {"u64", "i64", "uint64", "int64", "bytes8"} ==> SolValueNbytes(Simple(name)) == Some(8)
  {
  }

  lemma Width16()
    ensures forall name :: name in {"u128", "i128", "uint128", "int128", "bytes16"} ==> SolValueNbytes(Simple(name)) == Some(16)
  {
  }

  lemma Names1(name: string)
    ensures IntegerName(name, 1) || BytesName(name, 1) <==> name in {"u8", "i8", "uint8", "int8", "bytes1"}
  {
    SizeNames();
    assert "u" + "8" == "u8" && "i" + "8" == "i8" && "uint" + "8" == "uint8" && "int" + "8" == "int8";
    assert "bytes" + "1" == "bytes1";
    assert "u" in INTEGERS && "i" in INTEGERS && "uint" in INTEGERS && "int" in INTEGERS;
  }

  lemma Names2(name: string)
    ensures IntegerName(name, 2) || BytesName(name, 2) <==> name in {"u16", "i16", "uint16", "int16", "bytes2"}
  {
    SizeNames();
    assert "u" + "16" == "u16" && "i" + "16" == "i16" && "uint" + "16" == "uint16" && "int" + "16" == "int16";
    assert "bytes" + "2" == "bytes2";
    assert "u" in INTEGERS && "i" in INTEGERS && "uint" in INTEGERS && "int" in INTEGERS;
  }

  lemma Names4(name: string)
    ensures IntegerName(name, 4) || BytesName(name, 4) <==> name in {"u32", "i32", "uint32", "int32", "bytes4"}
  {
    SizeNames();
    assert "u" + "32" == "u32" && "i" + "32" == "i32" && "uint" + "32" == "uint32" && "int" + "32" == "int32";
    assert "bytes" + "4" == "bytes4";
    assert "u" in INTEGERS && "i" in INTEGERS && "uint" in INTEGERS && "int" in INTEGERS;
  }

  lemma Names8(name: string)
    ensures IntegerName(name, 8) || BytesName(name, 8) <==> name in {"u64", "i64", "uint64", "int64", "bytes8"}
  {
    SizeNames();
    assert "u" + "64" == "u64" && "i" + "64" == "i64" && "uint" + "64" == "uint64" && "int" + "64" == "int64";
    assert "bytes" + "8" == "bytes8";
    assert "u" in INTEGERS && "i" in INTEGERS && "uint" in INTEGERS && "int" in INTEGERS;
  }

  lemma Names16(name: string)
    ensures IntegerName(name, 16) || BytesName(name, 16) <==> name in {"u128", "i128", "uint128", "int128", "bytes16"}
  {
    SizeNames();
    assert "u" + "128" == "u128" && "i" + "128" == "i128" && "uint" + "128" == "uint128" && "int" + "128" == "int128";
    assert "bytes" + "16" == "bytes16";
    assert "u" in INTEGERS && "i" in INTEGERS && "uint" in INTEGERS && "int" in INTEGERS;
  }

  lemma Exact1(name: string)
    ensures SolValueNbytes(Simple(name)) == Some(1) <==> IntegerName(name, 1) || BytesName(name, 1) || name == "bool"
  {
    Width1();
    Names1(name);
  }

  lemma Exact2(name: string)
    ensures SolValueNbytes(Simple(name)) == Some(2) <==> IntegerName(name, 2) || BytesName(name, 2)
  {
    Width2();
    Names2(name);
  }

  lemma Exact4(name: string)
    ensures SolValueNbytes(Simple(name)) == Some(4) <==> IntegerName(name, 4) || BytesName(name, 4)
  {
    Width4();
    Names4(name);
  }

  lemma Exact8(name: string)
    ensures SolValueNbytes(Simple(name)) == Some(8) <==> IntegerName(name, 8) || BytesName(name, 8)
  {
    Width8();
    Names8(name);
  }

  lemma Exact16(name: string)
    ensures SolValueNbytes(Simple(name)) == Some(16) <==> IntegerName(name, 16) || BytesName(name, 16)
  {
    Width16();
    Names16(name);
  }

  lemma OtherWidths(name: string)
    ensures SolValueNbytes(Simple(name)).value in SIZES + {20, 32}
    ensures SolValueNbytes(Simple(name)) == Some(20) <==> name == "address"
  {
  }

  /** A width of 1, 2, 4, 8 or 16 bytes is what an integer or byte array of that size is called, or `bool`;
      20 is `address`; every other name is a whole word. */
  lemma {:induction false} WidthExact(name: string, n: nat)
    ensures n in SIZES ==>
              (SolValueNbytes(Simple(name)) == Some(n) <==>
               IntegerName(name, n) || BytesName(name, n) || (n == 1 && name == "bool"))
    ensures SolValueNbytes(Simple(name)) == Some(20) <==> name == "address"
    ensures SolValueNbytes(Simple(name)).value in SIZES + {20, 32}
  {
    OtherWidths(name);
    if n in SIZES {
      match n
      case 1 => Exact1(name);
      case 2 => Exact2(name);
      case 4 => Exact4(name);
      case 8 => Exact8(name);
      case 16 => Exact16(name);
    }
  }

  // ---------- members ----------

  /** No record and no enum has that name. */
  ghost predicate Undeclared(env: Env, name: string) {
    && NoRecord(env, name)
    && (forall i :: 0 <= i < |env.enums| ==> env.enums[i].name != name)
    && (forall i :: 0 <= i < |env.programEnums| ==> env.programEnums[i].name != name)
  }

  ghost predicate NoRecord(env: Env, name: string) {
    && (forall i :: 0 <= i < |env.records| ==> env.records[i].name != name)
    && (forall i :: 0 <= i < |env.programRecords| ==> env.programRecords[i].name != name)
  }

  /** `decl` is the first enum of that name, those of the entity before those of the program. */
  ghost predicate IsEnum(env: Env, name: string, decl: EnumDecl) {
    FirstOf(env.enums, name, decl)
    || ((forall i :: 0 <= i < |env.enums| ==> env.enums[i].name != name) && FirstOf(env.programEnums, name, decl))
  }

  ghost predicate FirstOf(es: seq<EnumDecl>, name: string, decl: EnumDecl) {
    exists i :: 0 <= i < |es| && es[i] == decl && decl.name == name && forall j :: 0 <= j < i ==> es[j].name != name
  }

  /** Values of the type are packed and take `n` bytes. */
  ghost predicate Packed(env: Env, ty: Type, n: nat) {
    match ty
    case Simple(name) =>
      || (Undeclared(env, name) && n in SIZES && (IntegerName(name, n) || BytesName(name, n)))
      || (Undeclared(env, name) && ((name == "bool" && n == 1) || (name == "address" && n == 20)))
      || (NoRecord(env, name) && n == 1 && exists decl :: IsEnum(env, name, decl) && forall v :: v in decl.variants ==> v.fields == [])
    case TypedAddress(_) => n == 20
    case Generic(name, _) => n == 32 && name != "HashMap" && name != "Vec" && name != "array"
    case Tuple(_) => n == 32
  }

  lemma {:induction false} FirstFound(es: seq<EnumDecl>, name: string, decl: EnumDecl)
    requires FirstOf(es, name, decl)
    ensures FindEnum(es, name) == Some(decl)
  {
    var i :| 0 <= i < |es| && es[i] == decl && decl.name == name && forall j :: 0 <= j < i ==> es[j].name != name;
    if i > 0 {
      assert es[1..][i - 1] == decl && forall j :: 0 <= j < i - 1 ==> es[1..][j] == es[j + 1];
      FirstFound(es[1..], name, decl);
    }
  }

  lemma {:induction false} NoneFound(rs: seq<Record>, es: seq<EnumDecl>, name: string)
    ensures (forall i :: 0 <= i < |rs| ==> rs[i].name != name) ==> FindRecord(rs, name) == None
    ensures (forall i :: 0 <= i < |es| ==> es[i].name != name) ==> FindEnum(es, name) == None
    decreases |rs| + |es|
  {
    if rs != [] {
      NoneFound(rs[1..], [], name);
      assert forall i :: 0 < i < |rs| ==> rs[i] == rs[1..][i - 1];
    }
    if es != [] {
      NoneFound([], es[1..], name);
      assert forall i :: 0 < i < |es| ==> es[i] == es[1..][i - 1];
    }
  }

  /** A record that is found is the first of its name, those of the entity before those of the program. */
  lemma {:induction false} RecordFound(rs: seq<Record>, name: string, k: nat)
    requires k < |rs| && rs[k].name == name && forall j :: 0 <= j < k ==> rs[j].name != name
    ensures FindRecord(rs, name) == Some(rs[k])
  {
    if k > 0 {
      assert rs[1..][k - 1] == rs[k] && forall j :: 0 <= j < k - 1 ==> rs[1..][j] == rs[j + 1];
      RecordFound(rs[1..], name, k - 1);
    }
  }

  lemma UnitEnum(env: Env, name: string, decl: EnumDecl)
    requires IsEnum(env, name, decl) && forall v :: v in decl.variants ==> v.fields == []
    ensures LookupEnum(env, Simple(name)) == Some(decl) && !IsPayload(env, Simple(name))
  {
    NoneFound([], env.enums, name);
    if FirstOf(env.enums, name, decl) {
      FirstFound(env.enums, name, decl);
    } else {
      FirstFound(env.programEnums, name, decl);
    }
  }

  lemma NotDeclared(env: Env, name: string)
    requires Undeclared(env, name)
    ensures LookupRecord(env, Simple(name)) == None && LookupEnum(env, Simple(name)) == None
  {
    NoneFound(env.records, env.enums, name);
    NoneFound(env.programRecords, env.programEnums, name);
  }

  /** Such a member is one value of that many bytes. */
  lemma {:induction false} PackedItem(env: Env, m: Member, n: nat)
    requires Acyclic(NestEdges(env)) && Packed(env, m.ty, n)
    ensures MemberItem(env, m) == Item(m.name, ValueSlot, n, Value(n))
  {
    TopFits(env, m.ty);
    PackedShape(env, RecordNames(env), m.ty, n);
  }

  /** Also inside records. */
  lemma {:induction false} PackedShape(env: Env, S: set<string>, ty: Type, n: nat)
    requires Acyclic(NestEdges(env)) && Fits(env, S, ty) && Packed(env, ty, n)
    ensures FieldShape(env, S, ty) == Value(n)
  {
    if ty.Simple? {
      WidthExact(ty.name, n);
      if Undeclared(env, ty.name) {
        NotDeclared(env, ty.name);
      } else {
        var decl :| IsEnum(env, ty.name, decl) && forall v :: v in decl.variants ==> v.fields == [];
        UnitEnum(env, ty.name, decl);
        NoneFound(env.records, [], ty.name);
        NoneFound(env.programRecords, [], ty.name);
      }
    }
  }

  /** The fields of a record in their order. */
  lemma {:induction false} FieldShapesAt(env: Env, S: set<string>, types: seq<Type>, i: nat)
    requires Acyclic(NestEdges(env)) && AllFit(env, S, types) && i < |types|
    ensures |FieldShapes(env, S, types)| == |types| && FieldShapes(env, S, types)[i] == FieldShape(env, S, types[i])
  {
    var n := |types| - 1;
    if n == 0 {
      assert types[..n] == [];
    } else {
      FieldShapesAt(env, S, types[..n], if i < n then i else 0);
    }
  }

  /** An enum with payload: one byte for the variant, and then the fields of all variants in their order. */
  lemma {:induction false} EnumShapesAt(env: Env, S: set<string>, ty: Type, i: nat)
    requires Acyclic(NestEdges(env)) && Fits(env, S, ty) && LookupRecord(env, ty).None? && IsPayload(env, ty)
    requires i < |VariantTypes(LookupEnum(env, ty).value.variants)|
    ensures var types := VariantTypes(LookupEnum(env, ty).value.variants);
            var shape := FieldShape(env, S, ty);
            && shape.Struct? && |shape.fields| == 1 + |types| && shape.fields[0] == Value(1)
            && shape.fields[1 + i] == VariantShape(env, S, types[i])
  {
    VariantShapesAt(env, S, VariantTypes(LookupEnum(env, ty).value.variants), i);
  }

  lemma {:induction false} VariantShapesAt(env: Env, S: set<string>, types: seq<Type>, i: nat)
    requires Acyclic(NestEdges(env)) && AllFitDirect(env, S, types) && i < |types|
    ensures |VariantShapes(env, S, types)| == |types| && VariantShapes(env, S, types)[i] == VariantShape(env, S, types[i])
  {
    var n := |types| - 1;
    if n == 0 {
      assert types[..n] == [];
    } else {
      VariantShapesAt(env, S, types[..n], if i < n then i else 0);
    }
  }

  lemma {:induction false} VariantTypesSnoc(a: seq<EnumVariant>, v: EnumVariant)
    ensures VariantTypes(a + [v]) == VariantTypes(a) + v.fields
  {
    assert (a + [v])[..|a|] == a;
  }

  lemma {:induction false} VariantTypesConcat(a: seq<EnumVariant>, b: seq<EnumVariant>)
    ensures VariantTypes(a + b) == VariantTypes(a) + VariantTypes(b)
    decreases |b|
  {
    if b == [] {
      assert a + b == a;
    } else {
      var front, v := b[..|b| - 1], b[|b| - 1];
      VariantTypesConcat(a, front);
      assert b == front + [v];
      Associative(a, front, [v]);
      VariantTypesSnoc(a + front, v);
      VariantTypesSnoc(front, v);
      Associative(VariantTypes(a), VariantTypes(front), v.fields);
    }
  }

  /** A mapping and a dynamic array take a word. */
  lemma {:induction false} WordItem(env: Env, m: Member)
    requires Acyclic(NestEdges(env)) && m.ty.Generic? && m.ty.name in {"HashMap", "Vec", "array"}
    ensures MemberItem(env, m) == Item(m.name, if m.ty.name == "HashMap" then MappingSlot else ArraySlot, 32, Word)
  {
    TopFits(env, m.ty);
  }

  // ---------- their entries ----------

  lemma {:induction false} MemberListed(e: Entity, members: seq<Member>, i: nat) returns (k: nat)
    requires Acyclic(NestEdges(e.env)) && i < |members| && !members[i].isIdentity
    ensures k < |Items(e, members)| && Items(e, members)[k] == MemberItem(e.env, members[i])
  {
    var n := |members| - 1;
    ItemsParts(e, members);
    if i < n {
      k := MemberListed(e, members[..n], i);
    } else {
      k := |Items(e, members[..n])|;
      FirstItem(e, members[n]);
    }
  }

  lemma {:induction false} ItemsParts(e: Entity, members: seq<Member>)
    requires Acyclic(NestEdges(e.env)) && members != []
    ensures Items(e, members) == Items(e, members[..|members| - 1]) + MemberItems(e, members[|members| - 1])
  {
  }

  lemma FirstItem(e: Entity, m: Member)
    requires Acyclic(NestEdges(e.env)) && !m.isIdentity
    ensures MemberItems(e, m) != [] && MemberItems(e, m)[0] == MemberItem(e.env, m)
  {
  }

  /** The table has an entry for every packed member, `n` bytes from its offset on, that ends inside its word. */
  lemma {:induction false} PackedEntry(e: Entity, deterministic: bool, slots: seq<SlotInfo>, i: nat, n: nat) returns (k: nat)
    requires Acyclic(NestEdges(e.env)) && Refines(slots, AllItems(e, deterministic))
    requires i < |e.members| && !e.members[i].isIdentity && Packed(e.env, e.members[i].ty, n)
    ensures k < |slots| && slots[k].name == e.members[i].name && slots[k].kind == ValueSlot && slots[k].size == n
    ensures slots[k].offset + n <= 32
    ensures var items := AllItems(e, deterministic);
            StartOf(items, k) == 32 * slots[k].slot + slots[k].offset && EndOf(items, k) == StartOf(items, k) + n
  {
    k := MemberListed(e, e.members, i);
    PackedItem(e.env, e.members[i], n);
    ItemsProper(e, e.members);
    EntryIsPlaced(slots, AllItems(e, deterministic), k);
  }
}
