/** What seeding does to the contract that is deployed. The writer's table has
    neither the `_initialized` flag (evm_test_codegen.rs) nor all the variables that
    the emitter declares behind a mapping (codegen/solidity/evm/entity.rs). */
module DeployedSeed {
  import opened Graphs
  import opened Words
  import opened WordUpdate
  import opened StorageLayout
  import opened LayoutFacts
  import opened Displacement
  import opened DeclaredLayout
  import opened StateSeed

  /** `w` is the writer's table, `d` that of the declared variables. */
  ghost predicate Tables(e: Entity, x: Emitted, w: seq<SlotInfo>, d: seq<SlotInfo>)
    requires Acyclic(NestEdges(e.env))
  {
    NoEmptyRecords(e.env) && Refines(w, AllItems(e, false)) && Refines(d, Variables(e, x))
  }

  // ---------- both are proper tables ----------

  lemma {:induction false} DeclaredElements(blocks: seq<Block>, k: nat)
    requires WordExtras(blocks) && k < |Declared(blocks)|
    ensures Declared(blocks)[k] in Listed(blocks) || (Declared(blocks)[k].shape == Word && Proper(Declared(blocks)[k]))
  {
    var n := |blocks| - 1;
    if k < |Declared(blocks[..n])| {
      DeclaredElements(blocks[..n], k);
    }
  }

  lemma {:induction false} VariablesSolid(e: Entity, x: Emitted, k: nat)
    requires Acyclic(NestEdges(e.env)) && NoEmptyRecords(e.env) && k < |Variables(e, x)|
    ensures Proper(Variables(e, x)[k]) && Solid(Variables(e, x)[k].shape)
  {
    var blocks := Blocks(e, x, e.members);
    BlocksList(e, x, e.members);
    ItemsProper(e, e.members);
    SolidItems(e, e.members);
    if k < |Declared(blocks)| {
      DeclaredElements(blocks, k);
    }
  }

  lemma DeployedTable(e: Entity, x: Emitted, w: seq<SlotInfo>, d: seq<SlotInfo>)
    requires Acyclic(NestEdges(e.env)) && Tables(e, x, w, d)
    ensures Table(w, AllItems(e, false)) && Table(d, Variables(e, x))
  {
    LayoutIsTable(e, w);
    var items := Variables(e, x);
    forall k | 0 <= k < |items|
      ensures Proper(items[k]) && StartOf(items, k) < EndOf(items, k)
    {
      VariablesSolid(e, x, k);
      SolidHasBytes(Cursor(items[..k]), items[k].shape);
    }
  }

  // ---------- where the members are ----------

  /** The position of entry `j` of the writer's table among the declared variables. */
  ghost function Place(e: Entity, x: Emitted, j: nat): nat
    requires Acyclic(NestEdges(e.env)) && j < |AllItems(e, false)|
  {
    BlocksList(e, x, e.members);
    Position(Blocks(e, x, e.members), j)
  }

  /** Some member before that of entry `j` has a variable that the table does not know. */
  ghost predicate Behind(e: Entity, x: Emitted, j: nat)
    requires Acyclic(NestEdges(e.env)) && j < |AllItems(e, false)|
  {
    BlocksList(e, x, e.members);
    !NoExtras(e, x, e.members[..Owner(Blocks(e, x, e.members), j)])
  }

  /** The entries before the first such variable. */
  ghost function InFront(e: Entity, x: Emitted): nat
    requires Acyclic(NestEdges(e.env))
  {
    Undisturbed(Blocks(e, x, e.members))
  }

  lemma {:induction false} BehindIff(e: Entity, x: Emitted, j: nat)
    requires Acyclic(NestEdges(e.env)) && j < |AllItems(e, false)|
    ensures Behind(e, x, j) <==> j >= InFront(e, x)
  {
    BlocksList(e, x, e.members);
    var o := Owner(Blocks(e, x, e.members), j);
    UndisturbedIff(Blocks(e, x, e.members), j);
    BlocksPrefix(e, x, e.members, o);
  }

  lemma {:induction false} Fronts(e: Entity, x: Emitted, w: seq<SlotInfo>, d: seq<SlotInfo>)
    requires Acyclic(NestEdges(e.env)) && Tables(e, x, w, d)
    ensures AgreeUpto(AllItems(e, false), Variables(e, x), InFront(e, x))
    ensures InFront(e, x) <= |w| && InFront(e, x) <= |d|
    ensures if NoExtras(e, x, e.members) then InFront(e, x) == |w| && |d| == |w| + (if e.hasInitParams then 1 else 0)
            else InFront(e, x) < |d| && Variables(e, x)[InFront(e, x)].shape == Word
  {
    var blocks := Blocks(e, x, e.members);
    BlocksList(e, x, e.members);
    BlocksComplete(e, x, e.members);
    UndisturbedPrefix(blocks);
    assert AllItems(e, false) == Listed(blocks);
    LongerAgree(Listed(blocks), Declared(blocks), Undisturbed(blocks), [], if e.hasInitParams then [Flag()] else []);
    assert Listed(blocks) + [] == Listed(blocks);
  }

  lemma {:induction false} SameEntry(slots: seq<SlotInfo>, items: seq<Item>, slots': seq<SlotInfo>, items': seq<Item>, u: nat, j: nat)
    requires Refines(slots, items) && Refines(slots', items') && AgreeUpto(items, items', u) && j < u
    ensures slots[j] == slots'[j] && StartOf(items, j) == StartOf(items', j) && EndOf(items, j) == EndOf(items', j)
  {
    SamePlace(items[..u], items, j);
    SamePlace(items[..u], items', j);
  }

  /** The variable of an entry in front keeps its place; that of an entry behind has a larger slot. */
  lemma {:induction false} MemberPlace(e: Entity, x: Emitted, w: seq<SlotInfo>, d: seq<SlotInfo>, j: nat)
    requires Acyclic(NestEdges(e.env)) && Tables(e, x, w, d) && j < |w|
    ensures var k := Place(e, x, j);
            && k < |d| && Variables(e, x)[k] == AllItems(e, false)[j]
            && (if Behind(e, x, j) then d[k].slot > w[j].slot else k == j && d[j] == w[j])
  {
    var blocks := Blocks(e, x, e.members);
    BlocksList(e, x, e.members);
    assert AllItems(e, false) == Listed(blocks);
    BehindIff(e, x, j);
    Placement(blocks, j);
    var k := Position(blocks, j);
    assert Variables(e, x)[..|Declared(blocks)|] == Declared(blocks);
    SamePlace(Declared(blocks), Variables(e, x), k);
  }

  // ---------- what is kept ----------

  /** The pin writes an entry in front of all unknown variables, if it writes one. */
  ghost predicate PinInFront(e: Entity, x: Emitted, w: seq<SlotInfo>, pin: Pin)
    requires Acyclic(NestEdges(e.env)) && |w| == |AllItems(e, false)|
  {
    match Target(e, w, pin)
    case Nowhere => true
    case At(k) => !Behind(e, x, k)
  }

  /** A word-filling entry keeps what is in front of it and what is behind it in different words. */
  lemma WordBetween(items: seq<Item>, k: nat, u: nat, j: nat)
    requires k < u <= j < |items| && items[u].shape == Word
    ensures !SharesAWord(items, k, j)
  {
    Ordered(items, k, u);
    if u < j {
      Ordered(items, u, j);
    }
    if y :| Touches(items, k, y) && Touches(items, j, y) {
      TouchesByBounds(items, k, y);
      TouchesByBounds(items, j, y);
      WordSplits(EndOf(items, k), StartOf(items, u), StartOf(items, j), y);
    }
  }

  lemma WordSplits(endK: nat, start: nat, startJ: nat, y: nat)
    requires start % 32 == 0 && endK <= start <= startJ
    ensures !(32 * y < endK && startJ < 32 * y + 32)
  {
  }

  /** An entry stored over its whole word shares the word with no declared variable but perhaps the flag. */
  lemma {:induction false} WholeWordApart(e: Entity, x: Emitted, w: seq<SlotInfo>, d: seq<SlotInfo>, k: nat, j: nat)
    requires Acyclic(NestEdges(e.env)) && Tables(e, x, w, d)
    requires k < |w| && j < |d| && j != k && !Behind(e, x, k) && IsExclusive(w, w[k])
    requires j >= |w| ==> w[k].slot != d[j].slot || !NoExtras(e, x, e.members)
    ensures k < |d| && !SharesAWord(Variables(e, x), k, j)
  {
    var items, u := Variables(e, x), InFront(e, x);
    Fronts(e, x, w, d);
    BehindIff(e, x, k);
    DeployedTable(e, x, w, d);
    SameEntry(w, AllItems(e, false), d, items, u, k);
    if j < u {
      ExclusiveExact(w, AllItems(e, false), k);
      SameEntry(w, AllItems(e, false), d, items, u, j);
      SharedInBoth(AllItems(e, false), items, k, j);
    } else if NoExtras(e, x, e.members) {
      if SharesAWord(items, k, j) {
        SharersReportOneSlot(d, items, k, j);
      }
    } else {
      WordBetween(items, k, u, j);
    }
  }

  lemma SharedInBoth(a: seq<Item>, b: seq<Item>, k: nat, j: nat)
    requires k < |a| && k < |b| && j < |a| && j < |b|
    requires StartOf(a, k) == StartOf(b, k) && EndOf(a, k) == EndOf(b, k)
    requires StartOf(a, j) == StartOf(b, j) && EndOf(a, j) == EndOf(b, j)
    ensures SharesAWord(b, k, j) ==> SharesAWord(a, k, j)
  {
    if y :| Touches(b, k, y) && Touches(b, j, y) {
      TouchesByBounds(a, k, y);
      TouchesByBounds(b, k, y);
      TouchesByBounds(a, j, y);
      TouchesByBounds(b, j, y);
    }
  }

  /** The pin is stored over the whole word that holds the flag. */
  predicate Wipes(e: Entity, w: seq<SlotInfo>, flag: SlotInfo, pin: Pin) {
    match Target(e, w, pin)
    case Nowhere => false
    case At(k) => w[k].slot == flag.slot && IsExclusive(w, w[k])
  }

  /** One pin in front: no other variable changes, except perhaps the flag. */
  lemma {:induction false} StepKeepsVariable(st: Storage, e: Entity, x: Emitted, w: seq<SlotInfo>, d: seq<SlotInfo>, pin: Pin, j: nat)
    requires Acyclic(NestEdges(e.env)) && Tables(e, x, w, d) && Words256(st) && j < |d|
    requires PinInFront(e, x, w, pin) && Target(e, w, pin) != At(j)
    requires j >= |w| ==> !NoExtras(e, x, e.members) || !Wipes(e, w, d[j], pin)
    ensures |d| == |Variables(e, x)| && Kept(st, Step(st, e, w, pin), Variables(e, x), d, j)
  {
    match Target(e, w, pin)
    case Nowhere =>
    case At(k) =>
      DeployedTable(e, x, w, d);
      MemberPlace(e, x, w, d, k);
      if IsExclusive(w, w[k]) {
        WholeWordApart(e, x, w, d, k, j);
        ApartWriteKeeps(st, d, Variables(e, x), k, j, pin.value);
      } else {
        SharedWrite(st, w, AllItems(e, false), k, pin.value);
        PackedWriteKeeps(st, d, Variables(e, x), k, j, Low(pin.value, MaskBits(w[k].size)));
      }
  }

  ghost predicate AllInFront(e: Entity, x: Emitted, w: seq<SlotInfo>, pins: seq<Pin>)
    requires Acyclic(NestEdges(e.env)) && |w| == |AllItems(e, false)|
  {
    forall i :: 0 <= i < |pins| ==> PinInFront(e, x, w, pins[i])
  }

  ghost predicate NeverWiped(e: Entity, w: seq<SlotInfo>, flag: SlotInfo, pins: seq<Pin>) {
    forall i :: 0 <= i < |pins| ==> !Wipes(e, w, flag, pins[i])
  }

  /** If no pin writes an entry behind an unknown variable, every declared variable that is not pinned is
      unchanged, the flag included if no pin wipes it. */
  lemma {:induction false} VariablesKept(st: Storage, e: Entity, x: Emitted, w: seq<SlotInfo>, d: seq<SlotInfo>, pins: seq<Pin>, j: nat)
    requires Acyclic(NestEdges(e.env)) && Tables(e, x, w, d) && Words256(st) && Values256(pins) && j < |d|
    requires AllInFront(e, x, w, pins) && NotPinned(e, w, pins, j)
    requires j >= |w| ==> !NoExtras(e, x, e.members) || NeverWiped(e, w, d[j], pins)
    ensures |d| == |Variables(e, x)| && Kept(st, Run(st, e, w, pins), Variables(e, x), d, j)
  {
    if pins != [] {
      var n := |pins| - 1;
      var before := Run(st, e, w, pins[..n]);
      VariablesKept(st, e, x, w, d, pins[..n], j);
      DeployedTable(e, x, w, d);
      RunFits(st, e, w, AllItems(e, false), pins[..n]);
      StepKeepsVariable(before, e, x, w, d, pins[n], j);
      KeptTrans(st, before, Run(st, e, w, pins), Variables(e, x), d, j);
    }
  }

  // ---------- what is read back ----------

  /** The storage in which the lowest bit of a field is set and every other bit is zero. */
  function LowBit(info: SlotInfo): Storage {
    map[info.slot := Pow2(8 * info.offset)]
  }

  lemma {:induction false} BitReads(o: nat, bits: nat)
    requires bits > 0
    ensures ReadBits(Pow2(o), o, bits) == 1
  {
    DivModUnique(Pow2(o), Pow2(o), 1, 0);
    assert Pow2(1) == 2;
    Pow2Monotone(1, bits);
    LowOfSmall(1, bits);
  }

  lemma {:induction false} BitFits(o: nat, bits: nat)
    requires o < bits
    ensures Pow2(o) < Pow2(bits)
  {
    Pow2Monotone(o + 1, bits);
  }

  lemma {:induction false} LowBitReads(info: SlotInfo)
    requires info.size > 0 && info.offset < 32
    ensures Words256(LowBit(info)) && FieldOf(LowBit(info), info) == 1
  {
    BitFits(8 * info.offset, WORD_BITS);
    BitReads(8 * info.offset, 8 * info.size);
  }

  lemma {:induction false} ClearReads(info: SlotInfo)
    ensures Words256(map[]) && FieldOf(map[], info) == 0
  {
    FitsIff(0, 8 * info.offset);
    LowOfSmall(0, 8 * info.size);
  }

  /** A pin of an entry behind an unknown variable does not reach the variable: it reads as before. */
  lemma {:induction false} BehindUnread(st: Storage, e: Entity, x: Emitted, w: seq<SlotInfo>, d: seq<SlotInfo>, pin: Pin, j: nat)
    requires Acyclic(NestEdges(e.env)) && Tables(e, x, w, d)
    requires j < |w| && Target(e, w, pin) == At(j) && Behind(e, x, j)
    ensures Place(e, x, j) < |d| && FieldOf(Step(st, e, w, pin), d[Place(e, x, j)]) == FieldOf(st, d[Place(e, x, j)])
  {
    MemberPlace(e, x, w, d, j);
  }

  /** The pinned variable reads what the writer meant, in every storage. */
  ghost predicate AlwaysRead(e: Entity, w: seq<SlotInfo>, entry: SlotInfo, info: SlotInfo, pin: Pin) {
    forall st: Storage :: Words256(st) ==> FieldOf(Step(st, e, w, pin), info) == ReadAfter(w, entry, FieldOf(st, info), pin.value)
  }

  lemma UpperOfBit(b: nat)
    requires b <= 1
    ensures High(b, 128) == 0
  {
    assert Pow2(1) == 2;
    Pow2Monotone(1, 128);
    FitsIff(b, 128);
  }

  lemma {:induction false} NeverBoth(e: Entity, w: seq<SlotInfo>, entry: SlotInfo, info: SlotInfo, pin: Pin)
    requires info.size > 0 && info.offset < 32
    requires forall st: Storage :: FieldOf(Step(st, e, w, pin), info) == FieldOf(st, info)
    ensures !AlwaysRead(e, w, entry, info, pin)
  {
    LowBitReads(info);
    ClearReads(info);
    UpperOfBit(0);
    UpperOfBit(1);
    assert ReadAfter(w, entry, 0, pin.value) == ReadAfter(w, entry, 1, pin.value);
    assert FieldOf(Step(map[], e, w, pin), info) == 0 && FieldOf(Step(LowBit(info), e, w, pin), info) == 1;
  }

  /** A pinned value variable of the deployed contract reads its pin in every storage, as far as the mask
      reaches, if and only if no earlier member has a variable that the table does not know. */
  lemma {:induction false} PinReadsIff(e: Entity, x: Emitted, w: seq<SlotInfo>, d: seq<SlotInfo>, pin: Pin, j: nat)
    requires Acyclic(NestEdges(e.env)) && Tables(e, x, w, d)
    requires j < |w| && Target(e, w, pin) == At(j) && w[j].kind == ValueSlot
    ensures Place(e, x, j) < |d|
    ensures AlwaysRead(e, w, w[j], d[Place(e, x, j)], pin) <==> !Behind(e, x, j)
  {
    MemberPlace(e, x, w, d, j);
    DeployedTable(e, x, w, d);
    var info := d[Place(e, x, j)];
    if Behind(e, x, j) {
      forall st: Storage
        ensures FieldOf(Step(st, e, w, pin), info) == FieldOf(st, info)
      {
        BehindUnread(st, e, x, w, d, pin, j);
      }
      ValueInWord(d, Variables(e, x), Place(e, x, j));
      NeverBoth(e, w, w[j], info, pin);
    } else {
      forall st: Storage | Words256(st)
        ensures FieldOf(Step(st, e, w, pin), info) == ReadAfter(w, w[j], FieldOf(st, info), pin.value)
      {
        StepReads(st, e, w, AllItems(e, false), pin, j);
      }
    }
  }

  lemma ValueInWord(slots: seq<SlotInfo>, items: seq<Item>, k: nat)
    requires Table(slots, items) && k < |items| && items[k].kind == ValueSlot
    ensures slots[k].size > 0 && slots[k].offset < 32
  {
    assert Proper(items[k]);
  }

  /** After any pins, such a variable reads its last pin back under the condition of the writer's table. */
  lemma {:induction false} DeployedReadBack(st: Storage, e: Entity, x: Emitted, w: seq<SlotInfo>, d: seq<SlotInfo>, pins: seq<Pin>,
                                            i: nat, j: nat)
    requires Acyclic(NestEdges(e.env)) && Tables(e, x, w, d) && Words256(st) && Values256(pins)
    requires i < |pins| && j < |w| && Target(e, w, pins[i]) == At(j) && w[j].kind == ValueSlot
    requires NotPinned(e, w, pins[i + 1..], j) && !Behind(e, x, j)
    ensures Place(e, x, j) < |d|
    ensures var info := d[Place(e, x, j)];
            FieldOf(Run(st, e, w, pins), info) == Low(pins[i].value, 8 * info.size) <==>
              || IsExclusive(w, w[j])
              || info.size <= 16
              || High(FieldOf(st, info), 128) == High(Low(pins[i].value, 8 * info.size), 128)
  {
    MemberPlace(e, x, w, d, j);
    DeployedTable(e, x, w, d);
    ReadBackIff(st, e, w, AllItems(e, false), pins, i, j);
  }

  // ---------- the flag ----------

  lemma StartBelowCursor(items: seq<Item>, k: nat)
    requires k < |items|
    ensures StartOf(items, k) <= Cursor(items)
  {
    if k < |items| - 1 {
      Ordered(items, k, |items| - 1);
    }
    CursorStep(items, |items| - 1);
    assert items[..|items|] == items;
  }

  /** The deployed table ends with the flag. */
  lemma {:induction false} FlagLast(e: Entity, x: Emitted, w: seq<SlotInfo>, d: seq<SlotInfo>)
    requires Acyclic(NestEdges(e.env)) && Tables(e, x, w, d) && e.hasInitParams
    ensures d != [] && var flag := d[|d| - 1];
                       flag.name == "_initialized" && flag.kind == ValueSlot && flag.size == 1
    ensures var items := Variables(e, x);
            StartOf(items, |items| - 1) >= Cursor(Declared(Blocks(e, x, e.members)))
  {
    var declared := Declared(Blocks(e, x, e.members));
    assert Variables(e, x)[..|declared|] == declared;
  }

  /** With an unknown variable anywhere, the flag lies above every word the writer stores to. */
  lemma {:induction false} FlagAbove(e: Entity, x: Emitted, w: seq<SlotInfo>, d: seq<SlotInfo>, k: nat)
    requires Acyclic(NestEdges(e.env)) && Tables(e, x, w, d) && e.hasInitParams && k < |w|
    requires !NoExtras(e, x, e.members)
    ensures d != [] && w[k].slot < d[|d| - 1].slot
  {
    var blocks := Blocks(e, x, e.members);
    FlagLast(e, x, w, d);
    BlocksList(e, x, e.members);
    BlocksComplete(e, x, e.members);
    CursorsShift(blocks);
    assert AllItems(e, false) == Listed(blocks);
    StartBelowCursor(AllItems(e, false), k);
  }

  lemma {:induction false} StepKeepsPackedFlag(st: Storage, e: Entity, x: Emitted, w: seq<SlotInfo>, d: seq<SlotInfo>, pin: Pin)
    requires Acyclic(NestEdges(e.env)) && Tables(e, x, w, d) && e.hasInitParams && Words256(st)
    requires NoExtras(e, x, e.members) && d != [] && !Wipes(e, w, d[|d| - 1], pin)
    ensures FieldOf(Step(st, e, w, pin), d[|d| - 1]) == FieldOf(st, d[|d| - 1])
  {
    FlagLast(e, x, w, d);
    Fronts(e, x, w, d);
    var place := Target(e, w, pin);
    if place.At? {
      BehindIff(e, x, place.index);
    }
    StepKeepsVariable(st, e, x, w, d, pin, |d| - 1);
  }

  lemma {:induction false} StepKeepsFlag(st: Storage, e: Entity, x: Emitted, w: seq<SlotInfo>, d: seq<SlotInfo>, pin: Pin)
    requires Acyclic(NestEdges(e.env)) && Tables(e, x, w, d) && e.hasInitParams && Words256(st)
    requires d != [] && !Wipes(e, w, d[|d| - 1], pin)
    ensures FieldOf(Step(st, e, w, pin), d[|d| - 1]) == FieldOf(st, d[|d| - 1])
  {
    if NoExtras(e, x, e.members) {
      StepKeepsPackedFlag(st, e, x, w, d, pin);
    } else {
      var place := Target(e, w, pin);
      if place.At? {
        FlagAbove(e, x, w, d, place.index);
      }
    }
  }

  lemma {:induction false} FlagKept(st: Storage, e: Entity, x: Emitted, w: seq<SlotInfo>, d: seq<SlotInfo>, pins: seq<Pin>)
    requires Acyclic(NestEdges(e.env)) && Tables(e, x, w, d) && e.hasInitParams && Words256(st) && Values256(pins)
    requires d != [] && NeverWiped(e, w, d[|d| - 1], pins)
    ensures FieldOf(Run(st, e, w, pins), d[|d| - 1]) == FieldOf(st, d[|d| - 1])
  {
    if pins != [] {
      var n := |pins| - 1;
      FlagKept(st, e, x, w, d, pins[..n]);
      DeployedTable(e, x, w, d);
      RunFits(st, e, w, AllItems(e, false), pins[..n]);
      StepKeepsFlag(Run(st, e, w, pins[..n]), e, x, w, d, pins[n]);
    }
  }

  lemma WipingStep(st: Storage, e: Entity, w: seq<SlotInfo>, flag: SlotInfo, pin: Pin)
    requires Wipes(e, w, flag, pin)
    ensures FieldOf(Step(st, e, w, pin), flag) == ReadBits(pin.value, 8 * flag.offset, 8 * flag.size)
  {
  }

  /** Pin `i` is the last that wipes the flag. */
  ghost predicate LastWipe(e: Entity, w: seq<SlotInfo>, flag: SlotInfo, pins: seq<Pin>, i: nat) {
    i < |pins| && Wipes(e, w, flag, pins[i]) && NeverWiped(e, w, flag, pins[i + 1..])
  }

  lemma {:induction false} FindLastWipe(e: Entity, w: seq<SlotInfo>, flag: SlotInfo, pins: seq<Pin>) returns (i: nat)
    requires !NeverWiped(e, w, flag, pins)
    ensures LastWipe(e, w, flag, pins, i)
    decreases |pins|
  {
    var n := |pins| - 1;
    if Wipes(e, w, flag, pins[n]) {
      i := n;
    } else {
      i := FindLastWipe(e, w, flag, pins[..n]);
      assert pins[i + 1..] == pins[..n][i + 1..] + [pins[n]];
    }
  }

  /** After a wiping pin the flag is a part of the pinned value, whatever the storage was. */
  lemma {:induction false} FlagAfterWipe(st: Storage, e: Entity, x: Emitted, w: seq<SlotInfo>, d: seq<SlotInfo>, pins: seq<Pin>, i: nat)
    requires Acyclic(NestEdges(e.env)) && Tables(e, x, w, d) && e.hasInitParams && Words256(st) && Values256(pins)
    requires d != [] && LastWipe(e, w, d[|d| - 1], pins, i)
    ensures var flag := d[|d| - 1];
            FieldOf(Run(st, e, w, pins), flag) == ReadBits(pins[i].value, 8 * flag.offset, 8 * flag.size)
  {
    var before := Run(st, e, w, pins[..i]);
    DeployedTable(e, x, w, d);
    RunAround(st, e, w, pins, i);
    RunFits(st, e, w, AllItems(e, false), pins[..i]);
    StepFits(before, e, w, AllItems(e, false), pins[i]);
    WipingStep(before, e, w, d[|d| - 1], pins[i]);
    FlagKept(Step(before, e, w, pins[i]), e, x, w, d, pins[i + 1..]);
  }

  ghost predicate AlwaysKept(e: Entity, w: seq<SlotInfo>, flag: SlotInfo, pins: seq<Pin>) {
    forall st: Storage :: Words256(st) ==> FieldOf(Run(st, e, w, pins), flag) == FieldOf(st, flag)
  }

  /** The deployed flag survives seeding in every storage if and only if no pin is stored over its whole
      word. With an unknown variable anywhere, no pin is. */
  lemma {:induction false} FlagKeptIff(e: Entity, x: Emitted, w: seq<SlotInfo>, d: seq<SlotInfo>, pins: seq<Pin>)
    requires Acyclic(NestEdges(e.env)) && Tables(e, x, w, d) && e.hasInitParams && Values256(pins)
    ensures d != []
    ensures AlwaysKept(e, w, d[|d| - 1], pins) <==> NeverWiped(e, w, d[|d| - 1], pins)
    ensures !NoExtras(e, x, e.members) ==> NeverWiped(e, w, d[|d| - 1], pins)
  {
    FlagLast(e, x, w, d);
    var flag := d[|d| - 1];
    if NeverWiped(e, w, flag, pins) {
      forall st: Storage | Words256(st)
        ensures FieldOf(Run(st, e, w, pins), flag) == FieldOf(st, flag)
      {
        FlagKept(st, e, x, w, d, pins);
      }
    } else {
      var i := FindLastWipe(e, w, flag, pins);
      WipedWithoutExtras(e, x, w, d, pins[i]);
      DeployedTable(e, x, w, d);
      ValueInWord(d, Variables(e, x), |d| - 1);
      LowBitReads(flag);
      ClearReads(flag);
      FlagAfterWipe(map[], e, x, w, d, pins, i);
      FlagAfterWipe(LowBit(flag), e, x, w, d, pins, i);
    }
  }

  lemma {:induction false} WipedWithoutExtras(e: Entity, x: Emitted, w: seq<SlotInfo>, d: seq<SlotInfo>, pin: Pin)
    requires Acyclic(NestEdges(e.env)) && Tables(e, x, w, d) && e.hasInitParams
    requires d != [] && Wipes(e, w, d[|d| - 1], pin)
    ensures NoExtras(e, x, e.members)
  {
    if !NoExtras(e, x, e.members) {
      FlagAbove(e, x, w, d, Target(e, w, pin).index);
    }
  }

  /** An entry whose pin wipes the flag is a value that ends below it in the word. */
  lemma {:induction false} WipedFromBelow(e: Entity, x: Emitted, w: seq<SlotInfo>, d: seq<SlotInfo>, pin: Pin)
    requires Acyclic(NestEdges(e.env)) && Tables(e, x, w, d) && e.hasInitParams
    requires d != [] && Wipes(e, w, d[|d| - 1], pin)
    ensures var k := Target(e, w, pin).index;
            w[k].kind == ValueSlot && w[k].offset == 0 && w[k].size <= d[|d| - 1].offset
  {
    var k := Target(e, w, pin).index;
    var items := Variables(e, x);
    WipedWithoutExtras(e, x, w, d, pin);
    FlagLast(e, x, w, d);
    Fronts(e, x, w, d);
    BehindIff(e, x, k);
    MemberPlace(e, x, w, d, k);
    DeployedTable(e, x, w, d);
    ExclusiveAtZero(w, AllItems(e, false), k);
    if w[k].kind != ValueSlot {
      TouchesOwnSlot(d, items, k);
      WholeWordElsewhere(d, items, |w|, k, d[k].slot);
    }
    PackedApart(d, items, k, |w|);
  }

  /** A wiping pin whose value fits its field leaves the flag false. */
  lemma {:induction false} FlagCleared(st: Storage, e: Entity, x: Emitted, w: seq<SlotInfo>, d: seq<SlotInfo>, pins: seq<Pin>, i: nat)
    requires Acyclic(NestEdges(e.env)) && Tables(e, x, w, d) && e.hasInitParams && Words256(st) && Values256(pins)
    requires d != [] && LastWipe(e, w, d[|d| - 1], pins, i)
    requires pins[i].value < Pow2(8 * w[Target(e, w, pins[i]).index].size)
    ensures FieldOf(Run(st, e, w, pins), d[|d| - 1]) == 0
  {
    var flag := d[|d| - 1];
    FlagAfterWipe(st, e, x, w, d, pins, i);
    WipedFromBelow(e, x, w, d, pins[i]);
    Pow2Monotone(8 * w[Target(e, w, pins[i]).index].size, 8 * flag.offset);
    FitsIff(pins[i].value, 8 * flag.offset);
    LowOfSmall(0, 8 * flag.size);
  }
}
