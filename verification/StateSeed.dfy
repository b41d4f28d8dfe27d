/** The storage writes that seed the state of a contract under test
    (`gen_state_init` in cambrian-transpiler/src/codegen/evm_test_codegen.rs). */
module StateSeed {
  import opened Graphs
  import opened Words
  import opened WordUpdate
  import opened StorageLayout
  import opened LayoutFacts

  /** A pinned state field and the 256-bit value of its expression. */
  datatype Pin = Pin(field: string, value: nat, isMapLiteral: bool)

  /** The emitted Solidity: a remark, a full-word store, or a masked read-modify-write. */
  datatype Stmt =
    | Remark
    | StoreWord(slot: nat, value: nat)
    | UpdateField(slot: nat, lowMask: nat, bitOffset: nat, value: nat)

  // ---------- what is emitted ----------

  predicate IsIdentity(members: seq<Member>, name: string) {
    if members == [] then false
    else if members[0].name == name then members[0].isIdentity
    else IsIdentity(members[1..], name)
  }

  datatype Place = Nowhere | At(index: nat)

  /** First entry called `name`. */
  function Lookup(slots: seq<SlotInfo>, name: string): (r: Place)
    ensures r.At? ==> r.index < |slots| && slots[r.index].name == name
  {
    if slots == [] then Nowhere
    else if slots[0].name == name then At(0)
    else match Lookup(slots[1..], name)
         case Nowhere => Nowhere
         case At(k) => At(k + 1)
  }

  /** The first member of that name is an identity. */
  lemma {:induction false} IdentityExact(members: seq<Member>, name: string)
    ensures IsIdentity(members, name) <==> exists i: nat :: FirstMember(members, name, i) && members[i].isIdentity
  {
    if members != [] && members[0].name != name {
      IdentityExact(members[1..], name);
      forall i: nat
        ensures FirstMember(members[1..], name, i) <==> FirstMember(members, name, i + 1)
      {
        FirstBehind(members, name, i);
      }
      assert !FirstMember(members, name, 0);
      if i: nat :| FirstMember(members, name, i) && members[i].isIdentity {
        assert FirstMember(members[1..], name, i - 1);
      }
    } else if members != [] {
      assert FirstMember(members, name, 0);
    }
  }

  ghost predicate FirstMember(members: seq<Member>, name: string, i: nat) {
    i < |members| && members[i].name == name && forall j :: 0 <= j < i ==> members[j].name != name
  }

  lemma FirstBehind(members: seq<Member>, name: string, i: nat)
    requires members != [] && members[0].name != name
    ensures FirstMember(members[1..], name, i) <==> FirstMember(members, name, i + 1)
  {
    assert forall j :: 0 <= j < |members| - 1 ==> members[1..][j] == members[j + 1];
    if FirstMember(members[1..], name, i) {
      assert forall j :: 0 < j < i + 1 ==> members[j] == members[1..][j - 1];
    }
  }

  /** The first entry of that name, if there is one. */
  lemma {:induction false} LookupExact(slots: seq<SlotInfo>, name: string)
    ensures var r := Lookup(slots, name);
            && (r.Nowhere? <==> forall j :: 0 <= j < |slots| ==> slots[j].name != name)
            && (r.At? ==> r.index < |slots| && slots[r.index].name == name && forall j :: 0 <= j < r.index ==> slots[j].name != name)
  {
    if slots != [] && slots[0].name != name {
      LookupExact(slots[1..], name);
      assert forall j :: 0 < j < |slots| ==> slots[j] == slots[1..][j - 1];
    }
  }

  function LowMask(bitSize: nat): nat {
    if bitSize >= 128 then Pow2(128) - 1 else Pow2(bitSize) - 1
  }

  /** Dynamic arrays and mappings are not written. */
  predicate Writable(info: SlotInfo) {
    info.kind != ArraySlot && info.kind != MappingSlot
  }

  /** The entry a pin writes, if it writes one. */
  function Target(e: Entity, slots: seq<SlotInfo>, pin: Pin): (r: Place)
    ensures r.At? ==> r.index < |slots| && Writable(slots[r.index])
  {
    if IsIdentity(e.members, pin.field) then Nowhere
    else match Lookup(slots, pin.field)
         case Nowhere => Nowhere
         case At(k) => if Writable(slots[k]) then At(k) else Nowhere
  }

  function WriteOf(slots: seq<SlotInfo>, info: SlotInfo, value: nat): Stmt {
    if IsExclusive(slots, info) then StoreWord(info.slot, value)
    else UpdateField(info.slot, LowMask(8 * info.size), 8 * info.offset, value)
  }

  function StmtsFor(e: Entity, slots: seq<SlotInfo>, pin: Pin): seq<Stmt> {
    match Target(e, slots, pin)
    case At(k) => [WriteOf(slots, slots[k], pin.value)]
    case Nowhere =>
      var place := Lookup(slots, pin.field);
      if !IsIdentity(e.members, pin.field) && place.At? && slots[place.index].kind == MappingSlot && pin.isMapLiteral
      then [] else [Remark]
  }

  function AllStmts(e: Entity, slots: seq<SlotInfo>, pins: seq<Pin>): seq<Stmt> {
    if pins == [] then [] else AllStmts(e, slots, pins[..|pins| - 1]) + StmtsFor(e, slots, pins[|pins| - 1])
  }

  method GenStateInit(e: Entity, pins: seq<Pin>) returns (out: seq<Stmt>, slots: seq<SlotInfo>)
    requires Acyclic(NestEdges(e.env))
    ensures Refines(slots, AllItems(e, false)) && out == AllStmts(e, slots, pins)
  {
    slots := ComputeLayout(e, false);
    out := [];
    for i := 0 to |pins|
      invariant out == AllStmts(e, slots, pins[..i])
    {
      assert pins[..i + 1][..i] == pins[..i];
      out := out + StmtsFor(e, slots, pins[i]);
    }
    assert pins[..|pins|] == pins;
  }

  // ---------- what it does ----------

  type Storage = map<nat, nat>

  function Load(st: Storage, slot: nat): nat {
    if slot in st then st[slot] else 0
  }

  ghost predicate Words256(st: Storage) {
    forall slot :: slot in st ==> st[slot] < Pow2(WORD_BITS)
  }

  ghost function Exec(st: Storage, s: Stmt): Storage {
    match s
    case Remark => st
    case StoreWord(slot, value) => st[slot := value]
    case UpdateField(slot, lowMask, bitOffset, value) => st[slot := MaskedUpdate(Load(st, slot), lowMask, bitOffset, value)]
  }

  ghost function ExecAll(st: Storage, out: seq<Stmt>): Storage {
    if out == [] then st else Exec(ExecAll(st, out[..|out| - 1]), out[|out| - 1])
  }

  /** The value that Solidity reads for a packed entry. */
  function FieldOf(st: Storage, info: SlotInfo): nat {
    ReadBits(Load(st, info.slot), 8 * info.offset, 8 * info.size)
  }

  /** Entry `j` reads the same: its field, or every word it lies in. */
  ghost predicate Kept(st: Storage, st': Storage, items: seq<Item>, slots: seq<SlotInfo>, j: nat)
    requires j < |items| == |slots|
  {
    if slots[j].kind == ValueSlot then FieldOf(st', slots[j]) == FieldOf(st, slots[j])
    else forall w :: Touches(items, j, w) ==> Load(st', w) == Load(st, w)
  }

  /** A proper table with no empty entries. */
  ghost predicate Table(slots: seq<SlotInfo>, items: seq<Item>) {
    Refines(slots, items) && AllProper(items) && NonEmpty(items)
  }

  lemma TouchesOwnSlot(slots: seq<SlotInfo>, items: seq<Item>, k: nat)
    requires Table(slots, items) && k < |items|
    ensures Touches(items, k, slots[k].slot)
  {
    TouchesByBounds(items, k, slots[k].slot);
  }

  /** A write to the word of an exclusive entry is invisible to every other entry. */
  lemma ExclusiveWriteKeeps(st: Storage, slots: seq<SlotInfo>, items: seq<Item>, k: nat, j: nat, word: nat)
    requires Table(slots, items) && k < |items| && j < |items| && j != k
    requires IsExclusive(slots, slots[k])
    ensures Kept(st, st[slots[k].slot := word], items, slots, j)
  {
    ExclusiveExact(slots, items, k);
    assert !SharesAWord(items, k, j);
    ApartWriteKeeps(st, slots, items, k, j, word);
  }

  lemma ApartWriteKeeps(st: Storage, slots: seq<SlotInfo>, items: seq<Item>, k: nat, j: nat, word: nat)
    requires Table(slots, items) && k < |items| && j < |items| && !SharesAWord(items, k, j)
    ensures Kept(st, st[slots[k].slot := word], items, slots, j)
  {
    TouchesOwnSlot(slots, items, k);
    TouchesOwnSlot(slots, items, j);
  }

  /** Two packed values in one word have disjoint byte ranges. */
  lemma PackedApart(slots: seq<SlotInfo>, items: seq<Item>, k: nat, j: nat)
    requires Table(slots, items) && k < |items| && j < |items| && j != k
    requires slots[k].kind == slots[j].kind == ValueSlot && slots[k].slot == slots[j].slot
    ensures slots[k].offset + slots[k].size <= slots[j].offset || slots[j].offset + slots[j].size <= slots[k].offset
    ensures slots[k].offset + slots[k].size <= 32
  {
    assert Proper(items[k]) && Proper(items[j]);
    if j < k {
      Ordered(items, j, k);
    } else {
      Ordered(items, k, j);
    }
  }

  function MaskBits(size: nat): nat {
    if 8 * size >= 128 then 128 else 8 * size
  }

  /** The emitted mask update replaces the field, or its low 128 bits if it is wider. */
  lemma UpdateIsSetBits(slots: seq<SlotInfo>, items: seq<Item>, k: nat, word: nat, value: nat)
    requires Table(slots, items) && k < |items| && slots[k].kind == ValueSlot && word < Pow2(WORD_BITS)
    ensures var bits := MaskBits(slots[k].size);
            && 8 * slots[k].offset + bits <= 256
            && MaskedUpdate(word, LowMask(8 * slots[k].size), 8 * slots[k].offset, value)
               == SetBits(word, 8 * slots[k].offset, bits, Low(value, bits))
  {
    assert Proper(items[k]);
    MaskedUpdateExact(word, LowMask(8 * slots[k].size), MaskBits(slots[k].size), 8 * slots[k].offset, value);
  }

  /** A masked update of a packed value is invisible to every other entry. */
  lemma PackedWriteKeeps(st: Storage, slots: seq<SlotInfo>, items: seq<Item>, k: nat, j: nat, x: nat)
    requires Table(slots, items) && k < |items| && j < |items| && j != k
    requires slots[k].kind == ValueSlot && x < Pow2(MaskBits(slots[k].size))
    ensures var word := SetBits(Load(st, slots[k].slot), 8 * slots[k].offset, MaskBits(slots[k].size), x);
            Kept(st, st[slots[k].slot := word], items, slots, j)
  {
    var word0 := Load(st, slots[k].slot);
    var bits := MaskBits(slots[k].size);
    var word := SetBits(word0, 8 * slots[k].offset, bits, x);
    if slots[j].kind == ValueSlot {
      if slots[j].slot == slots[k].slot {
        PackedApart(slots, items, k, j);
        if slots[k].offset + slots[k].size <= slots[j].offset {
          ReadAbove(word0, 8 * slots[k].offset, bits, x, 8 * slots[j].offset, 8 * slots[j].size);
        } else {
          ReadBelow(word0, 8 * slots[k].offset, bits, x, 8 * slots[j].offset, 8 * slots[j].size);
        }
      }
    } else {
      forall w | Touches(items, j, w)
        ensures w != slots[k].slot
      {
        WholeWordElsewhere(slots, items, k, j, w);
      }
    }
  }

  lemma NonValueWhole(slots: seq<SlotInfo>, items: seq<Item>, k: nat)
    requires Refines(slots, items) && k < |items| && Proper(items[k]) && slots[k].kind != ValueSlot
    ensures WholeWords(items, k)
  {
    ShapeBounds(Cursor(items[..k]), items[k].shape);
  }

  lemma SharedIsValue(slots: seq<SlotInfo>, items: seq<Item>, k: nat)
    requires Table(slots, items) && k < |items| && Writable(slots[k]) && !IsExclusive(slots, slots[k])
    ensures slots[k].kind == ValueSlot
  {
    assert Proper(items[k]);
  }

  /** An entry that starts inside a word shares it with the entry before it. */
  lemma SharesWithPrevious(slots: seq<SlotInfo>, items: seq<Item>, k: nat)
    requires Table(slots, items) && k < |items| && slots[k].offset > 0
    ensures k > 0 && SharesAWord(items, k, k - 1)
  {
    assert StartOf(items, k) == Cursor(items[..k]);
    CursorStep(items, k - 1);
    TouchesByBounds(items, k - 1, slots[k].slot);
    TouchesOwnSlot(slots, items, k);
  }

  /** An exclusive value sits at the low end of its word, where the full-word store puts it. */
  lemma ExclusiveAtZero(slots: seq<SlotInfo>, items: seq<Item>, k: nat)
    requires Table(slots, items) && k < |items| && IsExclusive(slots, slots[k])
    ensures slots[k].offset == 0
  {
    ExclusiveExact(slots, items, k);
    if slots[k].offset > 0 {
      SharesWithPrevious(slots, items, k);
    }
  }

  /** No word of a struct, mapping or array is the slot of another entry. */
  lemma WholeWordElsewhere(slots: seq<SlotInfo>, items: seq<Item>, k: nat, j: nat, w: nat)
    requires Table(slots, items) && k < |items| && j < |items| && j != k
    requires slots[j].kind != ValueSlot && Touches(items, j, w)
    ensures w != slots[k].slot
  {
    NonValueWhole(slots, items, j);
    TouchesOwnSlot(slots, items, k);
    WholeWordsAlone(items, j, k);
    assert !SharesAWord(items, j, k);
  }

  /** One pin: no other entry changes. */
  lemma WriteKeeps(st: Storage, slots: seq<SlotInfo>, items: seq<Item>, k: nat, j: nat, value: nat)
    requires Table(slots, items) && k < |items| && j < |items| && j != k && Words256(st)
    requires Writable(slots[k])
    ensures Kept(st, Exec(st, WriteOf(slots, slots[k], value)), items, slots, j)
  {
    if IsExclusive(slots, slots[k]) {
      ExclusiveWriteKeeps(st, slots, items, k, j, value);
    } else {
      SharedWrite(st, slots, items, k, value);
      PackedWriteKeeps(st, slots, items, k, j, Low(value, MaskBits(slots[k].size)));
    }
  }

  /** A shared entry is written by replacing its bits, at most 128 of them. */
  lemma SharedWrite(st: Storage, slots: seq<SlotInfo>, items: seq<Item>, k: nat, value: nat)
    requires Table(slots, items) && k < |items| && Words256(st)
    requires Writable(slots[k]) && !IsExclusive(slots, slots[k])
    ensures slots[k].kind == ValueSlot
    ensures var bits := MaskBits(slots[k].size);
            Exec(st, WriteOf(slots, slots[k], value))
            == st[slots[k].slot := SetBits(Load(st, slots[k].slot), 8 * slots[k].offset, bits, Low(value, bits))]
  {
    SharedIsValue(slots, items, k);
    LoadFits(st, slots[k].slot);
    UpdateIsSetBits(slots, items, k, Load(st, slots[k].slot), value);
  }

  lemma LoadFits(st: Storage, slot: nat)
    requires Words256(st)
    ensures Load(st, slot) < Pow2(WORD_BITS)
  {
  }

  lemma WriteFits(st: Storage, slots: seq<SlotInfo>, items: seq<Item>, k: nat, value: nat)
    requires Table(slots, items) && k < |items| && Words256(st) && value < Pow2(WORD_BITS)
    requires Writable(slots[k])
    ensures Words256(Exec(st, WriteOf(slots, slots[k], value)))
  {
    if !IsExclusive(slots, slots[k]) {
      SharedIsValue(slots, items, k);
      UpdateFits(slots, items, k, Load(st, slots[k].slot), value);
    }
  }

  lemma UpdateFits(slots: seq<SlotInfo>, items: seq<Item>, k: nat, word: nat, value: nat)
    requires Table(slots, items) && k < |items| && slots[k].kind == ValueSlot && word < Pow2(WORD_BITS)
    ensures MaskedUpdate(word, LowMask(8 * slots[k].size), 8 * slots[k].offset, value) < Pow2(WORD_BITS)
  {
    var bits := MaskBits(slots[k].size);
    UpdateIsSetBits(slots, items, k, word, value);
    SetBitsFits(word, 8 * slots[k].offset, bits, Low(value, bits));
  }

  lemma ReadFromZero(value: nat, bits: nat)
    ensures ReadBits(value, 0, bits) == Low(value, bits)
  {
    assert Pow2(0) == 1;
  }

  /** What a packed field reads after its masked update. */
  lemma PackedReads(word: nat, o: nat, size: nat, value: nat)
    ensures ReadBits(SetBits(word, o, MaskBits(size), Low(value, MaskBits(size))), o, 8 * size) ==
              if size <= 16 then Low(value, 8 * size)
              else Join(High(ReadBits(word, o, 8 * size), 128), Low(value, 128), 128)
  {
    if size <= 16 {
      ReadOwn(word, o, 8 * size, Low(value, 8 * size));
    } else {
      ReadWider(word, o, 128, Low(value, 128), 8 * size);
    }
  }

  /** One pin of a value: what its field reads afterwards. */
  lemma WriteReads(st: Storage, slots: seq<SlotInfo>, items: seq<Item>, k: nat, value: nat)
    requires Table(slots, items) && k < |items| && slots[k].kind == ValueSlot && Words256(st)
    ensures var info := slots[k];
            var bits := 8 * info.size;
            FieldOf(Exec(st, WriteOf(slots, info, value)), info) ==
              if IsExclusive(slots, info) || info.size <= 16 then Low(value, bits)
              else Join(High(FieldOf(st, info), 128), Low(value, 128), 128)
  {
    var info := slots[k];
    if IsExclusive(slots, info) {
      ExclusiveAtZero(slots, items, k);
      ReadFromZero(value, 8 * info.size);
    } else {
      UpdateIsSetBits(slots, items, k, Load(st, info.slot), value);
      PackedReads(Load(st, info.slot), 8 * info.offset, info.size, value);
    }
  }

  // ---------- sequences of pins ----------

  /** What one pin does. */
  ghost function Step(st: Storage, e: Entity, slots: seq<SlotInfo>, pin: Pin): Storage {
    match Target(e, slots, pin)
    case Nowhere => st
    case At(k) => Exec(st, WriteOf(slots, slots[k], pin.value))
  }

  /** What the pins do, one after the other. */
  ghost function Run(st: Storage, e: Entity, slots: seq<SlotInfo>, pins: seq<Pin>): Storage
    decreases |pins|
  {
    if pins == [] then st else Step(Run(st, e, slots, pins[..|pins| - 1]), e, slots, pins[|pins| - 1])
  }

  lemma {:induction false} ExecOne(st: Storage, before: seq<Stmt>, more: seq<Stmt>)
    requires |more| <= 1
    ensures ExecAll(st, before + more) == if more == [] then ExecAll(st, before) else Exec(ExecAll(st, before), more[0])
  {
    if more == [] {
      assert before + more == before;
    } else {
      assert (before + more)[..|before|] == before;
    }
  }

  /** That is what executing all emitted statements does. */
  lemma {:induction false} RunIsExecution(st: Storage, e: Entity, slots: seq<SlotInfo>, pins: seq<Pin>)
    ensures Run(st, e, slots, pins) == ExecAll(st, AllStmts(e, slots, pins))
    decreases |pins|
  {
    if pins != [] {
      var n := |pins| - 1;
      RunIsExecution(st, e, slots, pins[..n]);
      ExecOne(st, AllStmts(e, slots, pins[..n]), StmtsFor(e, slots, pins[n]));
    }
  }

  lemma {:induction false} RunSnoc(st: Storage, e: Entity, slots: seq<SlotInfo>, pins: seq<Pin>, pin: Pin)
    ensures Run(st, e, slots, pins + [pin]) == Step(Run(st, e, slots, pins), e, slots, pin)
  {
    assert (pins + [pin])[..|pins|] == pins;
  }

  ghost predicate Values256(pins: seq<Pin>) {
    forall i :: 0 <= i < |pins| ==> pins[i].value < Pow2(WORD_BITS)
  }

  lemma StepFits(st: Storage, e: Entity, slots: seq<SlotInfo>, items: seq<Item>, pin: Pin)
    requires Table(slots, items) && Words256(st) && pin.value < Pow2(WORD_BITS)
    ensures Words256(Step(st, e, slots, pin))
  {
    match Target(e, slots, pin)
    case Nowhere =>
    case At(k) => WriteFits(st, slots, items, k, pin.value);
  }

  lemma {:induction false} RunFits(st: Storage, e: Entity, slots: seq<SlotInfo>, items: seq<Item>, pins: seq<Pin>)
    requires Table(slots, items) && Words256(st) && Values256(pins)
    ensures Words256(Run(st, e, slots, pins))
  {
    if pins != [] {
      var n := |pins| - 1;
      RunFits(st, e, slots, items, pins[..n]);
      StepFits(Run(st, e, slots, pins[..n]), e, slots, items, pins[n]);
    }
  }

  lemma StepKeeps(st: Storage, e: Entity, slots: seq<SlotInfo>, items: seq<Item>, pin: Pin, j: nat)
    requires Table(slots, items) && Words256(st) && j < |items| && Target(e, slots, pin) != At(j)
    ensures Kept(st, Step(st, e, slots, pin), items, slots, j)
  {
    match Target(e, slots, pin)
    case Nowhere =>
    case At(k) => WriteKeeps(st, slots, items, k, j, pin.value);
  }

  ghost predicate NotPinned(e: Entity, slots: seq<SlotInfo>, pins: seq<Pin>, j: nat) {
    forall i :: 0 <= i < |pins| ==> Target(e, slots, pins[i]) != At(j)
  }

  /** Every entry that no pin names is unchanged, whatever the pins are. */
  lemma {:induction false} UnpinnedKept(st: Storage, e: Entity, slots: seq<SlotInfo>, items: seq<Item>,
                                        pins: seq<Pin>, j: nat)
    requires Table(slots, items) && Words256(st) && Values256(pins)
    requires j < |items| && NotPinned(e, slots, pins, j)
    ensures Kept(st, Run(st, e, slots, pins), items, slots, j)
  {
    if pins != [] {
      var n := |pins| - 1;
      var before := Run(st, e, slots, pins[..n]);
      UnpinnedKept(st, e, slots, items, pins[..n], j);
      RunFits(st, e, slots, items, pins[..n]);
      StepKeeps(before, e, slots, items, pins[n], j);
      KeptTrans(st, before, Run(st, e, slots, pins), items, slots, j);
    }
  }

  lemma KeptTrans(a: Storage, b: Storage, c: Storage, items: seq<Item>, slots: seq<SlotInfo>, j: nat)
    requires j < |items| == |slots|
    requires Kept(a, b, items, slots, j) && Kept(b, c, items, slots, j)
    ensures Kept(a, c, items, slots, j)
  {
  }

  /** What field `j` reads once `value` was pinned to it and `before` was its upper content. */
  function ReadAfter(slots: seq<SlotInfo>, info: SlotInfo, before: nat, value: nat): nat {
    if IsExclusive(slots, info) || info.size <= 16 then Low(value, 8 * info.size)
    else Join(High(before, 128), Low(value, 128), 128)
  }

  lemma {:induction false} RunConcat(st: Storage, e: Entity, slots: seq<SlotInfo>, first: seq<Pin>, more: seq<Pin>)
    ensures Run(st, e, slots, first + more) == Run(Run(st, e, slots, first), e, slots, more)
    decreases |more|
  {
    if more == [] {
      assert first + more == first;
    } else {
      var n := |more| - 1;
      RunConcat(st, e, slots, first, more[..n]);
      assert first + more == first + more[..n] + [more[n]];
      RunSnoc(st, e, slots, first + more[..n], more[n]);
    }
  }

  /** The run is that of the pins before `i`, pin `i`, and those after it. */
  lemma {:induction false} RunAround(st: Storage, e: Entity, slots: seq<SlotInfo>, pins: seq<Pin>, i: nat)
    requires i < |pins|
    ensures Run(st, e, slots, pins) == Run(Step(Run(st, e, slots, pins[..i]), e, slots, pins[i]), e, slots, pins[i + 1..])
  {
    var first := pins[..i] + [pins[i]];
    assert pins == first + pins[i + 1..];
    RunConcat(st, e, slots, first, pins[i + 1..]);
    RunSnoc(st, e, slots, pins[..i], pins[i]);
  }

  lemma StepReads(st: Storage, e: Entity, slots: seq<SlotInfo>, items: seq<Item>, pin: Pin, j: nat)
    requires Table(slots, items) && Words256(st) && Target(e, slots, pin) == At(j) && j < |items| && slots[j].kind == ValueSlot
    ensures FieldOf(Step(st, e, slots, pin), slots[j]) == ReadAfter(slots, slots[j], FieldOf(st, slots[j]), pin.value)
  {
    WriteReads(st, slots, items, j, pin.value);
  }

  /** After all pins, the field reads what its last pin left in it. */
  lemma {:induction false} LastPinReads(st: Storage, e: Entity, slots: seq<SlotInfo>, items: seq<Item>,
                                        pins: seq<Pin>, i: nat, j: nat)
    requires Table(slots, items) && Words256(st) && Values256(pins)
    requires i < |pins| && Target(e, slots, pins[i]) == At(j) && j < |items| && slots[j].kind == ValueSlot
    requires NotPinned(e, slots, pins[i + 1..], j)
    ensures FieldOf(Run(st, e, slots, pins), slots[j])
            == ReadAfter(slots, slots[j], FieldOf(Run(st, e, slots, pins[..i]), slots[j]), pins[i].value)
  {
    var before := Run(st, e, slots, pins[..i]);
    RunAround(st, e, slots, pins, i);
    RunFits(st, e, slots, items, pins[..i]);
    StepFits(before, e, slots, items, pins[i]);
    StepReads(before, e, slots, items, pins[i], j);
    UnpinnedKept(Step(before, e, slots, pins[i]), e, slots, items, pins[i + 1..], j);
  }

  lemma StepKeepsUpper(st: Storage, e: Entity, slots: seq<SlotInfo>, items: seq<Item>, pin: Pin, j: nat)
    requires Table(slots, items) && Words256(st) && j < |items| && slots[j].kind == ValueSlot
    requires !IsExclusive(slots, slots[j]) && slots[j].size > 16
    ensures High(FieldOf(Step(st, e, slots, pin), slots[j]), 128) == High(FieldOf(st, slots[j]), 128)
  {
    if Target(e, slots, pin) == At(j) {
      StepReads(st, e, slots, items, pin, j);
      JoinSplit(High(FieldOf(st, slots[j]), 128), Low(pin.value, 128), 128);
    } else {
      StepKeeps(st, e, slots, items, pin, j);
    }
  }

  /** No pin changes the bits above the low 128 of a packed field. */
  lemma {:induction false} UpperBitsKept(st: Storage, e: Entity, slots: seq<SlotInfo>, items: seq<Item>,
                                         pins: seq<Pin>, j: nat)
    requires Table(slots, items) && Words256(st) && Values256(pins)
    requires j < |items| && slots[j].kind == ValueSlot && !IsExclusive(slots, slots[j]) && slots[j].size > 16
    ensures High(FieldOf(Run(st, e, slots, pins), slots[j]), 128) == High(FieldOf(st, slots[j]), 128)
  {
    if pins != [] {
      var n := |pins| - 1;
      UpperBitsKept(st, e, slots, items, pins[..n], j);
      RunFits(st, e, slots, items, pins[..n]);
      StepKeepsUpper(Run(st, e, slots, pins[..n]), e, slots, items, pins[n], j);
    }
  }

  /** The last pinned value reads back exactly when the entry is exclusive, or at most 16 bytes wide,
      or the bits above the low 128 that the field had before seeding are those of the value. */
  lemma {:induction false} ReadBackIff(st: Storage, e: Entity, slots: seq<SlotInfo>, items: seq<Item>,
                                       pins: seq<Pin>, i: nat, j: nat)
    requires Table(slots, items) && Words256(st) && Values256(pins)
    requires i < |pins| && Target(e, slots, pins[i]) == At(j) && j < |items| && slots[j].kind == ValueSlot
    requires NotPinned(e, slots, pins[i + 1..], j)
    ensures var info := slots[j];
            FieldOf(Run(st, e, slots, pins), info) == Low(pins[i].value, 8 * info.size) <==>
              || IsExclusive(slots, info)
              || info.size <= 16
              || High(FieldOf(st, info), 128) == High(Low(pins[i].value, 8 * info.size), 128)
  {
    var info := slots[j];
    LastPinReads(st, e, slots, items, pins, i, j);
    if !IsExclusive(slots, info) && info.size > 16 {
      UpperBitsKept(st, e, slots, items, pins[..i], j);
      WideRoundTrip(High(FieldOf(st, info), 128), pins[i].value, 8 * info.size);
    }
  }

  /** Over a field whose upper bits start at zero, a wide packed field reads back the values below 2^128. */
  lemma {:induction false} ReadBackFresh(st: Storage, e: Entity, slots: seq<SlotInfo>, items: seq<Item>,
                                         pins: seq<Pin>, i: nat, j: nat)
    requires Table(slots, items) && Words256(st) && Values256(pins)
    requires i < |pins| && Target(e, slots, pins[i]) == At(j) && j < |items| && slots[j].kind == ValueSlot
    requires NotPinned(e, slots, pins[i + 1..], j)
    requires High(FieldOf(st, slots[j]), 128) == 0
    ensures var info := slots[j];
            FieldOf(Run(st, e, slots, pins), info) == Low(pins[i].value, 8 * info.size) <==>
              IsExclusive(slots, info) || info.size <= 16 || Low(pins[i].value, 8 * info.size) < Pow2(128)
  {
    ReadBackIff(st, e, slots, items, pins, i, j);
    FitsIff(Low(pins[i].value, 8 * slots[j].size), 128);
  }

  lemma WideRoundTrip(upper: nat, value: nat, bits: nat)
    requires bits >= 128
    ensures Join(upper, Low(value, 128), 128) == Low(value, bits) <==> upper == High(Low(value, bits), 128)
  {
    LowLow(value, 128, bits);
    SplitJoin(Low(value, bits), 128);
    JoinSplit(upper, Low(value, 128), 128);
  }

  /** The tables that the layout computes qualify once no record is empty. */
  lemma LayoutIsTable(e: Entity, slots: seq<SlotInfo>)
    requires Acyclic(NestEdges(e.env)) && NoEmptyRecords(e.env)
    requires Refines(slots, AllItems(e, false))
    ensures Table(slots, AllItems(e, false))
  {
    EntriesNonEmpty(e, false);
  }

  /** In fresh storage a wide packed field keeps only the low 128 bits of its pin. */
  lemma FreshWideField(slots: seq<SlotInfo>, items: seq<Item>, k: nat, value: nat)
    requires Table(slots, items) && k < |items| && slots[k].kind == ValueSlot
    requires !IsExclusive(slots, slots[k]) && slots[k].size > 16
    ensures FieldOf(Exec(map[], WriteOf(slots, slots[k], value)), slots[k]) == Low(value, 128)
  {
    WriteReads(map[], slots, items, k, value);
    ZeroField(slots[k]);
    assert Join(0, Low(value, 128), 128) == Low(value, 128);
  }

  lemma ZeroField(info: SlotInfo)
    ensures High(FieldOf(map[], info), 128) == 0
  {
    FitsIff(0, 8 * info.offset);
    LowOfSmall(0, 8 * info.size);
    FitsIff(0, 128);
  }
}
