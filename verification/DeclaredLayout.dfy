/** The state variables that the Solidity emitter declares
    (cambrian-transpiler/src/codegen/solidity/evm/entity.rs), and when the storage
    table of codegen/storage_layout.rs describes them. */
module DeclaredLayout {
  import opened Graphs
  import opened StorageLayout
  import opened Displacement
  import opened ExistsUse

  /** What the emitter decides about the members of an entity: mappings with an existence flag, with one
      for the inner mapping, or iterated somewhere, and identity members of string or array type, which
      cannot be immutable. */
  datatype Emitted = Emitted(existence: set<string>, innerExists: set<string>, iterated: set<string>, storedIdentity: set<string>)

  function Shadow(name: string): Item {
    Item(name, MappingSlot, 32, Word)
  }

  /** The variables declared for a member that the table does not list. */
  function Extra(e: Entity, x: Emitted, m: Member): seq<Item> {
    if m.isIdentity then (if m.name in x.storedIdentity then [Item(m.name, ArraySlot, 32, Word)] else [])
    else if !IsMapping(m.ty) then []
    else (if m.name in x.existence && m.name !in e.existsUsed then [Shadow(m.name + "_exists")] else [])
         + (if m.name in x.innerExists then [Shadow(m.name + "_inner_exists")] else [])
         + (if m.name in x.iterated then [Item(m.name + "_keys", ArraySlot, 32, Word), Shadow(m.name + "_keys_index")] else [])
  }

  /** Member by member, what the table lists and what it does not. */
  ghost function Blocks(e: Entity, x: Emitted, members: seq<Member>): (r: seq<Block>)
    requires Acyclic(NestEdges(e.env))
    ensures |r| == |members|
  {
    if members == [] then []
    else
      var n := |members| - 1;
      Blocks(e, x, members[..n]) + [Block(MemberItems(e, members[n]), Extra(e, x, members[n]))]
  }

  function Flag(): Item {
    Item("_initialized", ValueSlot, 1, Value(1))
  }

  /** The declared variables of the deterministic mode, in order. */
  ghost function Variables(e: Entity, x: Emitted): seq<Item>
    requires Acyclic(NestEdges(e.env))
  {
    Declared(Blocks(e, x, e.members)) + (if e.hasInitParams then [Flag()] else [])
  }

  ghost predicate NoExtras(e: Entity, x: Emitted, members: seq<Member>) {
    forall i :: 0 <= i < |members| ==> Extra(e, x, members[i]) == []
  }

  lemma {:induction false} BlocksLast(e: Entity, x: Emitted, members: seq<Member>)
    requires Acyclic(NestEdges(e.env)) && members != []
    ensures var n := |members| - 1;
            var blocks := Blocks(e, x, members);
            && blocks[..n] == Blocks(e, x, members[..n])
            && blocks[n] == Block(MemberItems(e, members[n]), Extra(e, x, members[n]))
  {
  }

  /** The listed items are those of the table. */
  lemma {:induction false} BlocksList(e: Entity, x: Emitted, members: seq<Member>)
    requires Acyclic(NestEdges(e.env))
    ensures Listed(Blocks(e, x, members)) == Items(e, members)
    ensures WordExtras(Blocks(e, x, members))
  {
    if members != [] {
      BlocksList(e, x, members[..|members| - 1]);
      BlocksLast(e, x, members);
      ExtraWords(e, x, members[|members| - 1]);
    }
  }

  lemma TakeTake<T>(s: seq<T>, n: nat, k: nat)
    requires k <= n <= |s|
    ensures s[..n][..k] == s[..k]
  {
  }

  lemma {:induction false} BlocksTake(e: Entity, x: Emitted, members: seq<Member>, k: nat)
    requires Acyclic(NestEdges(e.env)) && k <= |members|
    ensures Blocks(e, x, members)[..k] == Blocks(e, x, members[..k])
    decreases |members|
  {
    if k < |members| {
      var n := |members| - 1;
      BlocksTake(e, x, members[..n], k);
      BlocksLast(e, x, members);
      TakeTake(members, n, k);
      TakeTake(Blocks(e, x, members), n, k);
    } else {
      assert members[..k] == members && Blocks(e, x, members)[..k] == Blocks(e, x, members);
    }
  }

  lemma {:induction false} BlocksPrefix(e: Entity, x: Emitted, members: seq<Member>, k: nat)
    requires Acyclic(NestEdges(e.env)) && k <= |members|
    ensures Blocks(e, x, members)[..k] == Blocks(e, x, members[..k])
    ensures Complete(Blocks(e, x, members[..k])) <==> NoExtras(e, x, members[..k])
  {
    BlocksTake(e, x, members, k);
    BlocksComplete(e, x, members[..k]);
  }

  lemma {:induction false} BlocksComplete(e: Entity, x: Emitted, members: seq<Member>)
    requires Acyclic(NestEdges(e.env))
    ensures Complete(Blocks(e, x, members)) <==> NoExtras(e, x, members)
  {
    if members != [] {
      var n := |members| - 1;
      BlocksComplete(e, x, members[..n]);
      BlocksLast(e, x, members);
      CompleteLast(Blocks(e, x, members));
      LastExtra(e, x, members);
    }
  }

  lemma LastExtra(e: Entity, x: Emitted, members: seq<Member>)
    requires members != []
    ensures var n := |members| - 1;
            NoExtras(e, x, members) <==> NoExtras(e, x, members[..n]) && Extra(e, x, members[n]) == []
  {
    var n := |members| - 1;
    assert forall i :: 0 <= i < n ==> members[..n][i] == members[i];
  }

  lemma ExtraWords(e: Entity, x: Emitted, m: Member)
    ensures AllWords(Extra(e, x, m))
  {
  }

  /** The table places exactly the declared variables if and only if no member has a variable that the table does not know. */
  lemma {:induction false} TableIsDeclaredIff(e: Entity, x: Emitted, slots: seq<SlotInfo>)
    requires Acyclic(NestEdges(e.env)) && Refines(slots, AllItems(e, true))
    ensures Refines(slots, Variables(e, x)) <==> NoExtras(e, x, e.members)
  {
    BlocksList(e, x, e.members);
    BlocksComplete(e, x, e.members);
    DeclaredMore(Blocks(e, x, e.members));
  }

  // ---------- where the decisions come from ----------

  /** The decisions about existence flags are those of the two walkers over the entity's expressions. */
  ghost predicate DecidedBy(e: Entity, x: Emitted, b: Bodies) {
    forall i :: 0 <= i < |e.members| ==>
                  var name := e.members[i].name;
                  (name in e.existsUsed <==> Counted(b, name)) && (name in x.existence <==> name in x.iterated || Used(b, name))
  }

  /** A shadow mapping that the table lists is declared. */
  lemma ListedIsDeclared(e: Entity, x: Emitted, b: Bodies, m: Member)
    requires DecidedBy(e, x, b) && m in e.members && m.name in e.existsUsed
    ensures m.name in x.existence
  {
    MissedIff(b, m.name);
  }

  /** Every variable of the member is in the table: it is not iterated, and if its existence flag is used at
      all, then somewhere where the table sees it. */
  ghost predicate Described(x: Emitted, b: Bodies, m: Member) {
    if m.isIdentity then m.name !in x.storedIdentity
    else IsMapping(m.ty) ==>
           m.name !in x.iterated && m.name !in x.innerExists && (Used(b, m.name) ==> exists root, p :: Visible(b, m.name, root, p))
  }

  lemma ExtraIff(e: Entity, x: Emitted, b: Bodies, m: Member)
    requires DecidedBy(e, x, b) && m in e.members
    ensures Extra(e, x, m) == [] <==> Described(x, b, m)
  {
    CountedIff(b, m.name);
  }

  /** The table places exactly the declared variables if and only if every member is described. */
  lemma {:induction false} TableFromBodiesIff(e: Entity, x: Emitted, b: Bodies, slots: seq<SlotInfo>)
    requires Acyclic(NestEdges(e.env)) && Refines(slots, AllItems(e, true)) && DecidedBy(e, x, b)
    ensures Refines(slots, Variables(e, x)) <==> forall i :: 0 <= i < |e.members| ==> Described(x, b, e.members[i])
  {
    TableIsDeclaredIff(e, x, slots);
    forall i | 0 <= i < |e.members|
      ensures Extra(e, x, e.members[i]) == [] <==> Described(x, b, e.members[i])
    {
      ExtraIff(e, x, b, e.members[i]);
    }
  }
}
