/** Concrete contracts on which seeding by storage writes goes wrong. */
module SeedExamples {
  import opened Graphs
  import opened Ast
  import opened Words
  import opened WordUpdate
  import opened StorageLayout
  import opened LayoutFacts
  import opened Displacement
  import opened ExprTree
  import opened ExistsUse
  import opened DeclaredLayout
  import opened StateSeed
  import opened DeployedSeed

  const NO_DECLARATIONS := Env([], [], [], [])

  /** Without records and enums every simple type is one packed value. */
  lemma SimpleItem(m: Member)
    requires m.ty.Simple? && Acyclic(NestEdges(NO_DECLARATIONS))
    ensures var n := SolValueNbytes(m.ty).value;
            MemberItem(NO_DECLARATIONS, m) == Item(m.name, ValueSlot, n, Value(n))
  {
    TopFits(NO_DECLARATIONS, m.ty);
  }

  predicate PlainMember(m: Member) {
    m.ty.Simple? && !m.isIdentity
  }

  lemma PlainItems(e: Entity, m: Member)
    requires Acyclic(NestEdges(e.env)) && PlainMember(m)
    ensures MemberItems(e, m) == [MemberItem(e.env, m)]
  {
  }

  lemma {:induction false} OneMember(e: Entity, m: Member)
    requires Acyclic(NestEdges(e.env)) && PlainMember(m)
    ensures Items(e, [m]) == [MemberItem(e.env, m)]
  {
    PlainItems(e, m);
    assert [m][..0] == [];
  }

  lemma {:induction false} TwoMembers(e: Entity, a: Member, b: Member)
    requires Acyclic(NestEdges(e.env)) && PlainMember(a) && PlainMember(b)
    ensures Items(e, [a, b]) == [MemberItem(e.env, a), MemberItem(e.env, b)]
  {
    PairItems(e, a, b);
    PlainItems(e, a);
    PlainItems(e, b);
  }

  lemma {:induction false} OneValueTable(slots: seq<SlotInfo>, a: Item)
    requires a.shape.Value? && a.shape.size <= 32 && Refines(slots, [a])
    ensures slots == [SlotInfo(a.name, 0, 0, a.size, a.kind)]
  {
    assert [a][..0] == [];
    assert StartOf([a], 0) == 0;
  }

  lemma {:induction false} TwoValueTable(slots: seq<SlotInfo>, a: Item, b: Item)
    requires a.shape.Value? && b.shape.Value? && a.shape.size < 32 && a.shape.size + b.shape.size <= 32
    requires Refines(slots, [a, b])
    ensures slots == [SlotInfo(a.name, 0, 0, a.size, a.kind), SlotInfo(b.name, 0, a.shape.size, b.size, b.kind)]
  {
    SecondStart(a, b);
    assert slots[0] == SlotInfo(a.name, 0, 0, a.size, a.kind);
    assert slots[1] == SlotInfo(b.name, 0, a.shape.size, b.size, b.kind);
  }

  lemma {:induction false} SecondStart(a: Item, b: Item)
    requires a.shape.Value? && b.shape.Value? && a.shape.size < 32 && a.shape.size + b.shape.size <= 32
    ensures StartOf([a, b], 0) == 0 && StartOf([a, b], 1) == a.shape.size
  {
    var items := [a, b];
    assert items[..0] == [] && items[..1] == [a] && [a][..0] == [];
    assert Cursor([a]) == a.shape.size;
  }

  // ---------- a packed address ----------

  const FLAG := Member("flag", Simple("bool"), false)
  const OWNER := Member("owner", Simple("address"), false)

  /** `flag: bool` followed by `owner: address`: both share word 0. */
  function FlagAndOwner(): Entity {
    Entity(NO_DECLARATIONS, [FLAG, OWNER], {}, false)
  }

  lemma FlagItem()
    requires Acyclic(NestEdges(NO_DECLARATIONS))
    ensures MemberItem(NO_DECLARATIONS, FLAG) == Item("flag", ValueSlot, 1, Value(1))
  {
    SimpleItem(FLAG);
  }

  lemma OwnerItem()
    requires Acyclic(NestEdges(NO_DECLARATIONS))
    ensures MemberItem(NO_DECLARATIONS, OWNER) == Item("owner", ValueSlot, 20, Value(20))
  {
    SimpleItem(OWNER);
  }

  lemma {:induction false} FlagAndOwnerTable(slots: seq<SlotInfo>)
    requires Acyclic(NestEdges(NO_DECLARATIONS)) && Refines(slots, AllItems(FlagAndOwner(), false))
    ensures slots == [SlotInfo("flag", 0, 0, 1, ValueSlot), SlotInfo("owner", 0, 1, 20, ValueSlot)]
  {
    FlagItem();
    OwnerItem();
    TwoMembers(FlagAndOwner(), FLAG, OWNER);
    TwoValueTable(slots, Item("flag", ValueSlot, 1, Value(1)), Item("owner", ValueSlot, 20, Value(20)));
  }

  lemma {:induction false} OwnerIsShared(slots: seq<SlotInfo>, pin: Pin)
    requires slots == [SlotInfo("flag", 0, 0, 1, ValueSlot), SlotInfo("owner", 0, 1, 20, ValueSlot)]
    requires pin.field == "owner"
    ensures Target(FlagAndOwner(), slots, pin) == At(1) && !IsExclusive(slots, slots[1])
  {
    var members := FlagAndOwner().members;
    assert members[1..][0] == members[1] && slots[1..][0] == slots[1];
    assert |"flag"| == 4 && |"owner"| == 5;
    assert !IsIdentity(members[1..], "owner");
    assert Lookup(slots[1..], "owner") == At(0);
    CountSlotOne(slots, 1);
    assert slots[0].slot == slots[1].slot;
  }

  /** Pinning that address to 2^128 in fresh storage leaves it reading zero. */
  lemma {:induction false} PackedAddressLoses(slots: seq<SlotInfo>, pin: Pin)
    requires Acyclic(NestEdges(NO_DECLARATIONS)) && Refines(slots, AllItems(FlagAndOwner(), false))
    requires pin.field == "owner" && pin.value == Pow2(U128_BITS)
    ensures |slots| == 2
    ensures FieldOf(Run(map[], FlagAndOwner(), slots, [pin]), slots[1]) == 0
  {
    var e := FlagAndOwner();
    FlagAndOwnerTable(slots);
    LayoutIsTable(e, slots);
    OwnerIsShared(slots, pin);
    FreshPin(e, slots, AllItems(e, false), pin, 1);
    DivModUnique(pin.value, pin.value, 1, 0);
  }

  lemma {:induction false} FreshPin(e: Entity, slots: seq<SlotInfo>, items: seq<Item>, pin: Pin, k: nat)
    requires Table(slots, items) && k < |items| && slots[k].kind == ValueSlot && Target(e, slots, pin) == At(k)
    requires !IsExclusive(slots, slots[k]) && slots[k].size > 16
    ensures FieldOf(Run(map[], e, slots, [pin]), slots[k]) == Low(pin.value, U128_BITS)
  {
    RunSnoc(map[], e, slots, [], pin);
    FreshWideField(slots, items, k, pin.value);
  }

  // ---------- two halves of a word ----------

  const TOTAL := Member("m_total_assets", Simple("u128"), false)
  const BORROWED := Member("m_borrowed", Simple("u128"), false)

  /** The members of contracts/invariant_lending.cam: each takes half of word 0. */
  lemma {:induction false} LendingTable(slots: seq<SlotInfo>)
    requires Acyclic(NestEdges(NO_DECLARATIONS))
    requires Refines(slots, AllItems(Entity(NO_DECLARATIONS, [TOTAL, BORROWED], {}, false), false))
    ensures slots == [SlotInfo("m_total_assets", 0, 0, 16, ValueSlot), SlotInfo("m_borrowed", 0, 16, 16, ValueSlot)]
  {
    TwoHalves(TOTAL, BORROWED, slots);
  }

  lemma {:induction false} TwoHalves(a: Member, b: Member, slots: seq<SlotInfo>)
    requires Acyclic(NestEdges(NO_DECLARATIONS)) && PlainMember(a) && PlainMember(b)
    requires a.ty == Simple("u128") && b.ty == Simple("u128")
    requires Refines(slots, AllItems(Entity(NO_DECLARATIONS, [a, b], {}, false), false))
    ensures slots == [SlotInfo(a.name, 0, 0, 16, ValueSlot), SlotInfo(b.name, 0, 16, 16, ValueSlot)]
  {
    PlainPair(Entity(NO_DECLARATIONS, [a, b], {}, false), a, b);
    HalfItem(a);
    HalfItem(b);
    TwoValueTable(slots, MemberItem(NO_DECLARATIONS, a), MemberItem(NO_DECLARATIONS, b));
  }

  lemma HalfItem(m: Member)
    requires Acyclic(NestEdges(NO_DECLARATIONS)) && m.ty == Simple("u128")
    ensures MemberItem(NO_DECLARATIONS, m) == Item(m.name, ValueSlot, 16, Value(16))
  {
    SimpleItem(m);
  }

  lemma {:induction false} PlainPair(e: Entity, a: Member, b: Member)
    requires Acyclic(NestEdges(e.env)) && PlainMember(a) && PlainMember(b) && e.members == [a, b] && !e.hasInitParams
    ensures AllItems(e, false) == [MemberItem(e.env, a), MemberItem(e.env, b)]
  {
    TwoMembers(e, a, b);
  }

  // ---------- a counter next to the flag ----------

  const COUNT := Member("count", Simple("u64"), false)

  /** `count: u64` and an `init` route with parameters. */
  function Counter(): Entity {
    Entity(NO_DECLARATIONS, [COUNT], {}, true)
  }

  lemma CountItem()
    requires Acyclic(NestEdges(NO_DECLARATIONS))
    ensures MemberItem(NO_DECLARATIONS, COUNT) == Item("count", ValueSlot, 8, Value(8))
  {
    SimpleItem(COUNT);
  }

  lemma {:induction false} CountVariables(x: Emitted)
    requires Acyclic(NestEdges(NO_DECLARATIONS))
    ensures Variables(Counter(), x) == AllItems(Counter(), true)
  {
    var blocks := Blocks(Counter(), x, [COUNT]);
    BlocksList(Counter(), x, [COUNT]);
    BlocksComplete(Counter(), x, [COUNT]);
    DeclaredMore(blocks);
  }

  lemma {:induction false} CounterTables(x: Emitted, w: seq<SlotInfo>, d: seq<SlotInfo>)
    requires Acyclic(NestEdges(NO_DECLARATIONS)) && Tables(Counter(), x, w, d)
    ensures w == [SlotInfo("count", 0, 0, 8, ValueSlot)]
    ensures d == [SlotInfo("count", 0, 0, 8, ValueSlot), SlotInfo("_initialized", 0, 8, 1, ValueSlot)]
  {
    CountItem();
    CountVariables(x);
    OneMember(Counter(), COUNT);
    OneValueTable(w, Item("count", ValueSlot, 8, Value(8)));
    TwoValueTable(d, Item("count", ValueSlot, 8, Value(8)), Item("_initialized", ValueSlot, 1, Value(1)));
  }

  lemma {:induction false} CountWipes(w: seq<SlotInfo>, flag: SlotInfo, pin: Pin)
    requires w == [SlotInfo("count", 0, 0, 8, ValueSlot)] && flag.slot == 0 && pin.field == "count"
    ensures Target(Counter(), w, pin) == At(0) && Wipes(Counter(), w, flag, pin)
  {
    CountSlotOne(w, 0);
  }

  lemma {:induction false} CountWipedLast(w: seq<SlotInfo>, flag: SlotInfo, pin: Pin)
    requires w == [SlotInfo("count", 0, 0, 8, ValueSlot)] && flag.slot == 0 && pin.field == "count"
    ensures Target(Counter(), w, pin) == At(0) && LastWipe(Counter(), w, flag, [pin], 0)
  {
    CountWipes(w, flag, pin);
    assert [pin][1..] == [];
  }

  /** Seeding the counter of an initialized contract clears its flag. */
  lemma {:induction false} CounterLosesFlag(x: Emitted, w: seq<SlotInfo>, d: seq<SlotInfo>, pin: Pin)
    requires Acyclic(NestEdges(NO_DECLARATIONS)) && Tables(Counter(), x, w, d)
    requires pin.field == "count" && pin.value == 7
    ensures |d| == 2 && d[1].name == "_initialized"
    ensures FieldOf(map[0 := Pow2(64)], d[1]) == 1
    ensures FieldOf(Run(map[0 := Pow2(64)], Counter(), w, [pin]), d[1]) == 0
  {
    CounterTables(x, w, d);
    LowBitReads(d[1]);
    assert LowBit(d[1]) == map[0 := Pow2(64)];
    CounterCleared(map[0 := Pow2(64)], x, w, d, pin);
  }

  lemma {:induction false} CounterWiped(x: Emitted, w: seq<SlotInfo>, d: seq<SlotInfo>, pin: Pin)
    requires Acyclic(NestEdges(NO_DECLARATIONS)) && Tables(Counter(), x, w, d)
    requires pin.field == "count" && pin.value == 7
    ensures |d| == 2 && LastWipe(Counter(), w, d[1], [pin], 0) && Values256([pin])
    ensures pin.value < Pow2(8 * w[Target(Counter(), w, pin).index].size)
  {
    CounterTables(x, w, d);
    CountWipedLast(w, d[1], pin);
    SmallValue(pin.value);
  }

  lemma {:induction false} CounterCleared(st: Storage, x: Emitted, w: seq<SlotInfo>, d: seq<SlotInfo>, pin: Pin)
    requires Acyclic(NestEdges(NO_DECLARATIONS)) && Tables(Counter(), x, w, d) && Words256(st)
    requires pin.field == "count" && pin.value == 7
    ensures |d| == 2 && FieldOf(Run(st, Counter(), w, [pin]), d[1]) == 0
  {
    CounterWiped(x, w, d, pin);
    FlagCleared(st, Counter(), x, w, d, [pin], 0);
  }

  lemma {:induction false} SmallValue(value: nat)
    requires value <= 7
    ensures value < Pow2(8 * 8) && value < Pow2(WORD_BITS)
  {
    assert Pow2(3) == 8;
    Pow2Monotone(3, 8 * 8);
    Pow2Monotone(3, WORD_BITS);
  }

  // ---------- behind a mapping with an existence flag ----------

  const VOTERS := Member("voters", Generic("HashMap", [Simple("address"), Simple("U256")]), false)
  const QUOTA := Member("quota", Simple("U256"), false)
  const CAP := Member("cap", Simple("U256"), false)

  /** `voters: HashMap<address, U256>`, `quota: U256`, `cap: U256`; no transform asks `voters.exists(..)`. */
  function Ballot(): Entity {
    Entity(NO_DECLARATIONS, [VOTERS, QUOTA, CAP], {}, false)
  }

  /** One route has the condition `voters.exists(msg::sender)`. */
  function BallotBodies(): Bodies {
    Bodies([], [MethodCall(Ident("voters"), "exists", [Leaf])], [], [], [], [])
  }

  function BallotEmitted(): Emitted {
    Emitted({"voters"}, {}, {}, {})
  }

  lemma {:induction false} NotAsked(m: string, e: ExprTree.Expr)
    requires e == Leaf || e == Ident("voters")
    ensures !Finds(ByEmitter(m, []), e)
  {
    assert !Hit(ByEmitter(m, []), e);
  }

  lemma {:induction false} AskedOnly(m: string)
    ensures Finds(ByEmitter(m, []), MethodCall(Ident("voters"), "exists", [Leaf])) <==> m == "voters"
  {
    var e, w := MethodCall(Ident("voters"), "exists", [Leaf]), ByEmitter(m, []);
    assert Children(e) == [Ident("voters"), Leaf];
    assert Hit(w, e) <==> m == "voters";
    NotAsked(m, Ident("voters"));
    NotAsked(m, Leaf);
  }

  lemma {:induction false} BallotDecided()
    ensures DecidedBy(Ballot(), BallotEmitted(), BallotBodies())
  {
    var b := BallotBodies();
    assert Roots(b) == b.conditions;
    assert b.conditions[0] in b.conditions;
    AskedOnly("voters");
    AskedOnly("quota");
    AskedOnly("cap");
  }

  predicate FillsWord(item: Item) {
    item.shape == Word || item.shape == Value(32)
  }

  function WordAt(item: Item, k: nat): SlotInfo {
    SlotInfo(item.name, k, 0, item.size, item.kind)
  }

  lemma AtWord(k: nat, s: Shape)
    requires s == Word || s == Value(32)
    ensures Start(32 * k, s) == 32 * k && End(32 * k, s) == 32 * k + 32
  {
    assert 32 * k % 32 == 0;
  }

  lemma {:induction false} FilledWord(items: seq<Item>, k: nat)
    requires k < |items| && FillsWord(items[k]) && Cursor(items[..k]) == 32 * k
    ensures StartOf(items, k) == 32 * k && Cursor(items[..k + 1]) == 32 * (k + 1)
  {
    AtWord(k, items[k].shape);
    CursorStep(items, k);
  }

  lemma {:induction false} WordByWord(slots: seq<SlotInfo>, items: seq<Item>, k: nat)
    requires Refines(slots, items) && k < |items| && forall i :: 0 <= i <= k ==> FillsWord(items[i])
    ensures slots[k] == WordAt(items[k], k) && Cursor(items[..k + 1]) == 32 * (k + 1)
  {
    if k == 0 {
      assert items[..0] == [];
    } else {
      WordByWord(slots, items, k - 1);
    }
    FilledWord(items, k);
  }

  lemma {:induction false} ItemsSnoc(e: Entity, members: seq<Member>, m: Member)
    requires Acyclic(NestEdges(e.env))
    ensures Items(e, members + [m]) == Items(e, members) + MemberItems(e, m)
  {
    assert (members + [m])[..|members|] == members;
  }

  lemma {:induction false} ThreeMembers(e: Entity, a: Member, b: Member, c: Member)
    requires Acyclic(NestEdges(e.env))
    ensures Items(e, [a, b, c]) == MemberItems(e, a) + MemberItems(e, b) + MemberItems(e, c)
  {
    PairItems(e, a, b);
    ItemsSnoc(e, [a, b], c);
    assert [a, b] + [c] == [a, b, c];
  }

  lemma {:induction false} PairItems(e: Entity, a: Member, b: Member)
    requires Acyclic(NestEdges(e.env))
    ensures Items(e, [a, b]) == MemberItems(e, a) + MemberItems(e, b)
  {
    ItemsSnoc(e, [], a);
    ItemsSnoc(e, [a], b);
    assert [] + [a] == [a] && [a] + [b] == [a, b];
  }

  /** What is declared for one member. */
  ghost function OwnAndExtra(e: Entity, x: Emitted, m: Member): seq<Item>
    requires Acyclic(NestEdges(e.env))
  {
    MemberItems(e, m) + Extra(e, x, m)
  }

  lemma {:induction false} DeclaredSnoc(e: Entity, x: Emitted, members: seq<Member>, m: Member)
    requires Acyclic(NestEdges(e.env))
    ensures Declared(Blocks(e, x, members + [m])) == Declared(Blocks(e, x, members)) + OwnAndExtra(e, x, m)
  {
    assert (members + [m])[..|members|] == members;
    BlocksLast(e, x, members + [m]);
  }

  lemma {:induction false} OneDeclared(e: Entity, x: Emitted, a: Member)
    requires Acyclic(NestEdges(e.env))
    ensures Declared(Blocks(e, x, [a])) == OwnAndExtra(e, x, a)
  {
    DeclaredSnoc(e, x, [], a);
    assert [] + [a] == [a];
  }

  lemma {:induction false} TwoDeclared(e: Entity, x: Emitted, a: Member, b: Member)
    requires Acyclic(NestEdges(e.env))
    ensures Declared(Blocks(e, x, [a, b])) == OwnAndExtra(e, x, a) + OwnAndExtra(e, x, b)
  {
    OneDeclared(e, x, a);
    DeclaredSnoc(e, x, [a], b);
    assert [a] + [b] == [a, b];
  }

  lemma {:induction false} ThreeDeclared(e: Entity, x: Emitted, a: Member, b: Member, c: Member)
    requires Acyclic(NestEdges(e.env))
    ensures Declared(Blocks(e, x, [a, b, c])) == OwnAndExtra(e, x, a) + OwnAndExtra(e, x, b) + OwnAndExtra(e, x, c)
  {
    TwoDeclared(e, x, a, b);
    DeclaredSnoc(e, x, [a, b], c);
    assert [a, b] + [c] == [a, b, c];
  }

  function VotersItem(): Item {
    Item("voters", MappingSlot, 32, Word)
  }

  function QuotaItem(): Item {
    Item("quota", ValueSlot, 32, Value(32))
  }

  function CapItem(): Item {
    Item("cap", ValueSlot, 32, Value(32))
  }

  lemma {:induction false} BallotMembers()
    requires Acyclic(NestEdges(NO_DECLARATIONS))
    ensures MemberItems(Ballot(), VOTERS) == [VotersItem()]
    ensures MemberItems(Ballot(), QUOTA) == [QuotaItem()]
    ensures MemberItems(Ballot(), CAP) == [CapItem()]
  {
    TopFits(NO_DECLARATIONS, VOTERS.ty);
    SimpleItem(QUOTA);
    SimpleItem(CAP);
  }

  lemma {:induction false} BallotItems()
    requires Acyclic(NestEdges(NO_DECLARATIONS))
    ensures AllItems(Ballot(), false) == [VotersItem(), QuotaItem(), CapItem()]
  {
    BallotMembers();
    ThreeMembers(Ballot(), VOTERS, QUOTA, CAP);
  }

  lemma BallotExtras()
    ensures Extra(Ballot(), BallotEmitted(), VOTERS) == [Shadow("voters_exists")]
    ensures Extra(Ballot(), BallotEmitted(), QUOTA) == [] && Extra(Ballot(), BallotEmitted(), CAP) == []
  {
    assert "voters" + "_exists" == "voters_exists";
  }

  lemma {:induction false} BallotVariables()
    requires Acyclic(NestEdges(NO_DECLARATIONS))
    ensures Variables(Ballot(), BallotEmitted()) == [VotersItem(), Shadow("voters_exists"), QuotaItem(), CapItem()]
  {
    BallotMembers();
    BallotExtras();
    ThreeDeclared(Ballot(), BallotEmitted(), VOTERS, QUOTA, CAP);
  }

  lemma {:induction false} WriterBallot(w: seq<SlotInfo>)
    requires Acyclic(NestEdges(NO_DECLARATIONS)) && Refines(w, AllItems(Ballot(), false))
    ensures w == [WordAt(VotersItem(), 0), WordAt(QuotaItem(), 1), WordAt(CapItem(), 2)]
  {
    BallotItems();
    var items := [VotersItem(), QuotaItem(), CapItem()];
    WordByWord(w, items, 0);
    WordByWord(w, items, 1);
    WordByWord(w, items, 2);
  }

  lemma {:induction false} DeployedBallot(d: seq<SlotInfo>)
    requires Acyclic(NestEdges(NO_DECLARATIONS)) && Refines(d, Variables(Ballot(), BallotEmitted()))
    ensures |d| == 4 && d[2] == WordAt(QuotaItem(), 2) && d[3] == WordAt(CapItem(), 3)
  {
    BallotVariables();
    var items := [VotersItem(), Shadow("voters_exists"), QuotaItem(), CapItem()];
    WordByWord(d, items, 2);
    WordByWord(d, items, 3);
  }

  /** Pinning `cap` to 9 leaves it zero and sets the unpinned `quota` to 9. */
  lemma {:induction false} BallotMisplaced(w: seq<SlotInfo>, d: seq<SlotInfo>, pin: Pin)
    requires Acyclic(NestEdges(NO_DECLARATIONS)) && Tables(Ballot(), BallotEmitted(), w, d)
    requires pin.field == "cap" && pin.value == 9
    ensures DecidedBy(Ballot(), BallotEmitted(), BallotBodies())
    ensures |d| == 4 && d[2].name == "quota" && d[3].name == "cap"
    ensures var st := Run(map[], Ballot(), w, [pin]);
            FieldOf(st, d[2]) == 9 && FieldOf(st, d[3]) == 0
  {
    BallotDecided();
    WriterBallot(w);
    DeployedBallot(d);
    CapStored(w, pin);
    RunSnoc(map[], Ballot(), w, [], pin);
    NineFits();
  }

  lemma {:induction false} CapStored(w: seq<SlotInfo>, pin: Pin)
    requires w == [WordAt(VotersItem(), 0), WordAt(QuotaItem(), 1), WordAt(CapItem(), 2)]
    requires pin.field == "cap"
    ensures Step(map[], Ballot(), w, pin) == map[2 := pin.value]
  {
    var members := Ballot().members;
    assert |"voters"| == 6 && |"quota"| == 5 && |"cap"| == 3;
    assert !IsIdentity(members[2..], "cap") && !IsIdentity(members[1..], "cap");
    assert Lookup(w[2..], "cap") == At(0) && Lookup(w[1..], "cap") == At(1);
  }

  lemma NineFits()
    ensures ReadBits(9, 0, WORD_BITS) == 9 && ReadBits(0, 0, WORD_BITS) == 0
  {
    assert Pow2(4) == 16 && Pow2(0) == 1;
    Pow2Monotone(4, WORD_BITS);
    LowOfSmall(9, WORD_BITS);
    LowOfSmall(0, WORD_BITS);
  }
}
