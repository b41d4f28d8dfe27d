/** Dependency order of type declarations and pure functions
    (cambrian-transpiler/src/analysis/types.rs and pure_order.rs), both by the
    depth-first order over indices. */
module DeclOrder {
  import opened Wrappers
  import opened Ast
  import opened Graphs
  import opened Sequences
  import opened StringOrder
  import opened DfsTopo

  // ---------- ordering declarations by the names they refer to ----------

  ghost predicate IsLast(names: seq<string>, j: nat) {
    j < |names| && forall k :: j < k < |names| ==> names[k] != names[j]
  }

  /** `i` refers to the last declaration of a name in `deps[i]`. */
  ghost function NameEdges(names: seq<string>, deps: seq<seq<string>>): set<(nat, nat)> {
    set i: nat, j: nat | i < |deps| && j < |names| && names[j] in deps[i] && IsLast(names, j) :: (i, j)
  }

  /** Every target is listed before its source, or leads back to it. */
  ghost predicate TargetsFirstOrCyclic(E: set<(nat, nat)>, ordered: seq<nat>) {
    forall k, d :: 0 <= k < |ordered| && (ordered[k], d) in E ==> d in ordered[..k] || Reach(E, d, ordered[k])
  }

  /** `E` relates the indices `0..n` and `ordered` is what a depth-first walk over it gives. */
  ghost predicate GoodOrder(E: set<(nat, nat)>, n: nat, ordered: seq<nat>) {
    && IsPermutation(n, ordered)
    && TargetsFirstOrCyclic(E, ordered)
    && (TargetsFirst(E, ordered) <==> Acyclic(E))
    && ((forall i, d :: (i, d) in E ==> d <= i) ==> ordered == DeclarationOrder(n))
  }

  /** The last indices of the names that have one, in the given order. */
  ghost function Resolved(names: seq<string>, deps: seq<string>): seq<nat> {
    if deps == [] then []
    else
      var n := |deps| - 1;
      Resolved(names, deps[..n]) + (if deps[n] in LastIndex(names) then [LastIndex(names)[deps[n]]] else [])
  }

  /** The order in which a depth-first search over the resolved names lists the indices. */
  ghost function NameListing(names: seq<string>, deps: seq<seq<string>>): seq<nat> {
    Listing(AllResolved(names, deps), Meets(DeclarationOrder(|deps|)), {}, [])
  }

  ghost function AllResolved(names: seq<string>, deps: seq<seq<string>>): (r: seq<seq<nat>>)
    ensures |r| == |deps| && forall i :: 0 <= i < |deps| ==> r[i] == Resolved(names, deps[i])
  {
    seq(|deps|, i requires 0 <= i < |deps| => Resolved(names, deps[i]))
  }

  lemma {:induction false} ResolvedElements(names: seq<string>, deps: seq<string>)
    ensures forall j: nat :: j in Resolved(names, deps) <==> j < |names| && names[j] in deps && IsLast(names, j)
  {
    if deps != [] {
      var n := |deps| - 1;
      ResolvedElements(names, deps[..n]);
      LastIsLast(names, deps[n]);
      assert deps == deps[..n] + [deps[n]];
    }
  }

  lemma {:induction false} ResolvedEdges(names: seq<string>, deps: seq<seq<string>>)
    requires |deps| == |names|
    ensures DepEdges(AllResolved(names, deps)) == NameEdges(names, deps)
  {
    forall i: nat, j: nat
      ensures (i, j) in DepEdges(AllResolved(names, deps)) <==> (i, j) in NameEdges(names, deps)
    {
      if i < |deps| {
        ResolvedElements(names, deps[i]);
      }
    }
  }

  /** Names resolved to indices, in the given order. */
  method Resolve(names: seq<string>, byName: map<string, nat>, deps: seq<string>) returns (idxs: seq<nat>)
    requires byName == LastIndex(names)
    ensures idxs == Resolved(names, deps)
  {
    idxs := [];
    for k := 0 to |deps|
      invariant idxs == Resolved(names, deps[..k])
    {
      assert deps[..k + 1][..k] == deps[..k];
      if deps[k] in byName {
        idxs := idxs + [byName[deps[k]]];
      }
    }
    assert deps[..|deps|] == deps;
  }

  lemma {:induction false} LastIsLast(names: seq<string>, x: string)
    ensures forall j: nat :: j < |names| && names[j] == x && IsLast(names, j) <==> x in LastIndex(names) && j == LastIndex(names)[x]
  {
    var m := LastIndex(names);
    if x in m {
      assert IsLast(names, m[x]);
    }
  }

  method OrderByName(names: seq<string>, deps: seq<seq<string>>) returns (ordered: seq<nat>)
    requires |deps| == |names|
    ensures GoodOrder(NameEdges(names, deps), |names|, ordered)
    ensures ordered == NameListing(names, deps)
  {
    var byName := LastIndex(names);
    var idxs: seq<seq<nat>> := [];
    for i := 0 to |deps|
      invariant |idxs| == i && forall k :: 0 <= k < i ==> idxs[k] == Resolved(names, deps[k])
    {
      var r := Resolve(names, byName, deps[i]);
      idxs := idxs + [r];
    }
    assert idxs == AllResolved(names, deps);
    ResolvedEdges(names, deps);
    ordered := Order(idxs);
    OrderIsGood(idxs, ordered);
  }

  lemma OrderIsGood(deps: seq<seq<nat>>, ordered: seq<nat>)
    requires IsPermutation(|deps|, ordered) && AllPlaced(deps, ordered)
    requires AlreadyOrdered(deps) ==> ordered == DeclarationOrder(|deps|)
    ensures GoodOrder(DepEdges(deps), |deps|, ordered)
  {
    TargetsFirstIffAcyclic(deps, ordered);
    forall k, d | 0 <= k < |ordered| && (ordered[k], d) in DepEdges(deps)
      ensures d in ordered[..k] || Reach(DepEdges(deps), d, ordered[k])
    {
      assert Placed(deps, ordered, k);
    }
  }

  /** The declarations in the order of their indices. */
  function Picked<T>(items: seq<T>, ordered: seq<nat>): (r: seq<T>)
    requires forall k :: 0 <= k < |ordered| ==> ordered[k] < |items|
    ensures |r| == |ordered| && forall k :: 0 <= k < |ordered| ==> r[k] == items[ordered[k]]
  {
    seq(|ordered|, k requires 0 <= k < |ordered| => items[ordered[k]])
  }

  lemma InRange(n: nat, ordered: seq<nat>)
    requires IsPermutation(n, ordered)
    ensures forall k :: 0 <= k < |ordered| ==> ordered[k] < n
  {
    forall k | 0 <= k < |ordered|
      ensures ordered[k] < n
    {
      assert ordered[k] in ordered;
    }
  }

  /** Picking along a permutation loses and repeats nothing. */
  lemma {:induction false} PickedPermutes<T>(items: seq<T>, ordered: seq<nat>)
    requires IsPermutation(|items|, ordered)
    requires forall k :: 0 <= k < |ordered| ==> ordered[k] < |items|
    ensures multiset(Picked(items, ordered)) == multiset(items)
    decreases |items|
  {
    if |items| > 0 {
      var n := |items| - 1;
      var before, after := SplitAt(ordered, n);
      WithoutTop(n, before, after);
      PickedPermutes(items[..n], before + after);
      PickedParts(items, n, before, after);
      assert items == items[..n] + [items[n]];
    } else {
      NonEmptyHas(ordered);
    }
  }

  lemma SplitAt(s: seq<nat>, x: nat) returns (before: seq<nat>, after: seq<nat>)
    requires x in s
    ensures s == before + [x] + after
  {
    var p :| 0 <= p < |s| && s[p] == x;
    before, after := s[..p], s[p + 1..];
  }

  lemma NonEmptyHas<T>(s: seq<T>)
    ensures s == [] || s[0] in s
  {
  }

  lemma PickedParts<T>(items: seq<T>, n: nat, before: seq<nat>, after: seq<nat>)
    requires |items| == n + 1
    requires forall k :: 0 <= k < |before| ==> before[k] < n
    requires forall k :: 0 <= k < |after| ==> after[k] < n
    ensures forall k :: 0 <= k < |before + [n] + after| ==> (before + [n] + after)[k] < n + 1
    ensures forall k :: 0 <= k < |before + after| ==> (before + after)[k] < n
    ensures multiset(Picked(items, before + [n] + after)) == multiset(Picked(items[..n], before + after)) + multiset{items[n]}
  {
    assert Picked(items, before + [n] + after) == Picked(items, before) + [items[n]] + Picked(items, after);
    assert Picked(items[..n], before + after) == Picked(items, before) + Picked(items, after);
  }

  lemma WithoutTop(n: nat, before: seq<nat>, after: seq<nat>)
    requires IsPermutation(n + 1, before + [n] + after)
    ensures IsPermutation(n, before + after)
    ensures forall k :: 0 <= k < |before| ==> before[k] < n
    ensures forall k :: 0 <= k < |after| ==> after[k] < n
    ensures forall k :: 0 <= k < |before + after| ==> (before + after)[k] < n
  {
    ElementsWithout(n, before, after);
    forall i: nat
      ensures i in before + after <==> i < n
    {
      assert i in before + after <==> i in before + [n] + after && i != n;
    }
    forall k | 0 <= k < |before + after|
      ensures (before + after)[k] < n
    {
      assert (before + after)[k] in before + after;
    }
    assert forall k :: 0 <= k < |before| ==> before[k] == (before + after)[k];
    assert forall k :: 0 <= k < |after| ==> after[k] == (before + after)[|before| + k];
  }

  lemma ElementsWithout<T>(x: T, before: seq<T>, after: seq<T>)
    requires Distinct(before + [x] + after)
    ensures Distinct(before + after)
    ensures forall y :: y in before + after <==> y in before + [x] + after && y != x
  {
    var all, rest, b := before + [x] + after, before + after, |before|;
    assert all[b] == x;
    forall k | 0 <= k < |rest|
      ensures rest[k] == all[if k < b then k else k + 1] && rest[k] != x
    {
    }
    forall k | 0 <= k < |all| && k != b
      ensures all[k] == rest[if k < b then k else k - 1]
    {
    }
    forall i, j | 0 <= i < j < |rest|
      ensures rest[i] != rest[j]
    {
      assert all[if i < b then i else i + 1] != all[if j < b then j else j + 1];
    }
  }

  // ---------- records and enums ----------

  datatype TypeItem = RecordItem(record: Record) | EnumItem(decl: EnumDecl) {
    function Name(): string {
      match this
      case RecordItem(r) => r.name
      case EnumItem(e) => e.name
    }

    /** The types of all fields or variant payloads. */
    function Types(): seq<Type> {
      match this
      case RecordItem(r) => FieldTypes(r.fields)
      case EnumItem(e) => VariantTypes(e.variants)
    }
  }

  /** `name` occurs in `ty`, at any depth. */
  ghost predicate Mentions(ty: Type, name: string)
    decreases ty, 0
  {
    match ty
    case Simple(n) => n == name
    case TypedAddress(n) => n == name
    case Generic(n, params) => n == name || AnyMentions(params, name)
    case Tuple(parts) => AnyMentions(parts, name)
  }

  ghost predicate AnyMentions(types: seq<Type>, name: string)
    decreases types, 1
  {
    exists i :: 0 <= i < |types| && Mentions(types[i], name)
  }

  method CollectTypeNames(ty: Type, into: set<string>) returns (out: set<string>)
    ensures forall n :: n in out <==> n in into || Mentions(ty, n)
    decreases ty, 0
  {
    match ty
    case Simple(n) =>
      out := into + {n};
    case TypedAddress(n) =>
      out := into + {n};
    case Generic(n, params) =>
      out := CollectAll(params, into + {n});
    case Tuple(parts) =>
      out := CollectAll(parts, into);
  }

  method CollectAll(types: seq<Type>, into: set<string>) returns (out: set<string>)
    ensures forall n :: n in out <==> n in into || AnyMentions(types, n)
    decreases types, 1
  {
    out := into;
    for i := 0 to |types|
      invariant forall n :: n in out <==> n in into || exists k :: 0 <= k < i && Mentions(types[k], n)
    {
      out := CollectTypeNames(types[i], out);
    }
  }

  method SortedElements(names: set<string>) returns (s: seq<string>)
    ensures Sorted(s) && Distinct(s) && forall n :: n in s <==> n in names
  {
    var rest := names;
    s := [];
    while rest != {}
      invariant rest <= names
      invariant Distinct(s) && forall n :: n in s <==> n in names && n !in rest
    {
      var n :| n in rest;
      s := s + [n];
      rest := rest - {n};
    }
    var t := Sort(s);
    PermutationDistinct(s, t);
    s := t;
  }

  /** Sorting makes the list independent of the order in which the set was walked. */
  lemma {:induction false} SortedUnique(s: seq<string>, t: seq<string>)
    requires Sorted(s) && Distinct(s) && Sorted(t) && Distinct(t) && SameElements(s, t)
    ensures s == t
    decreases |s|
  {
    NonEmptyHas(s);
    NonEmptyHas(t);
    if s != [] {
      var i :| 0 <= i < |t| && t[i] == s[0];
      var j :| 0 <= j < |s| && s[j] == t[0];
      AtMostAntisymmetric(s[0], t[0]);
      TailsSame(s, t);
      SortedUnique(s[1..], t[1..]);
      assert s == [s[0]] + s[1..] && t == [t[0]] + t[1..];
    }
  }

  lemma TailsSame(s: seq<string>, t: seq<string>)
    requires s != [] && t != [] && s[0] == t[0] && Distinct(s) && Distinct(t) && SameElements(s, t)
    ensures SameElements(s[1..], t[1..])
  {
    forall x
      ensures x in s[1..] <==> x in t[1..]
    {
      assert s == [s[0]] + s[1..] && t == [t[0]] + t[1..];
      assert x in s <==> x in t;
    }
  }

  /** The other declared names that the item mentions, sorted. */
  ghost predicate AreDeps(item: TypeItem, universe: set<string>, deps: seq<string>) {
    && Sorted(deps) && Distinct(deps)
    && forall n :: n in deps <==> n in universe && n != item.Name() && AnyMentions(item.Types(), n)
  }

  method Deps(item: TypeItem, universe: set<string>) returns (deps: seq<string>)
    ensures AreDeps(item, universe, deps)
  {
    var acc := CollectAll(item.Types(), {});
    deps := SortedElements(set n | n in acc && n in universe && n != item.Name());
  }

  function ItemNames(items: seq<TypeItem>): (names: seq<string>)
    ensures |names| == |items| && forall i :: 0 <= i < |items| ==> names[i] == items[i].Name()
  {
    seq(|items|, i requires 0 <= i < |items| => items[i].Name())
  }

  /** `i` mentions the name of `j`, the last declaration of that name. */
  ghost function TypeRefs(items: seq<TypeItem>): set<(nat, nat)> {
    set i: nat, j: nat | i < |items| && j < |items| && items[j].Name() != items[i].Name()
                         && AnyMentions(items[i].Types(), items[j].Name()) && IsLast(ItemNames(items), j) :: (i, j)
  }

  function Declared(records: seq<Record>, enums: seq<EnumDecl>): seq<TypeItem> {
    seq(|records|, i requires 0 <= i < |records| => RecordItem(records[i]))
    + seq(|enums|, i requires 0 <= i < |enums| => EnumItem(enums[i]))
  }

  method OrderTypeItems(records: seq<Record>, enums: seq<EnumDecl>)
    returns (out: seq<TypeItem>, ghost ordered: seq<nat>)
    ensures multiset(out) == multiset(Declared(records, enums))
    ensures InTypeOrder(Declared(records, enums), out, ordered)
  {
    out, ordered := OrderItems(Declared(records, enums));
  }

  /** `out` lists every item once, in a good order for the references between the items. */
  ghost predicate InTypeOrder(items: seq<TypeItem>, out: seq<TypeItem>, ordered: seq<nat>) {
    && GoodOrder(TypeRefs(items), |items|, ordered) && ByListing(items, ordered)
    && |out| == |ordered|
    && (forall k :: 0 <= k < |out| ==> ordered[k] < |items| && out[k] == items[ordered[k]])
    && multiset(out) == multiset(items)
  }

  /** `deps` are the sorted sibling names that each item mentions. */
  ghost predicate AllAreDeps(items: seq<TypeItem>, deps: seq<seq<string>>) {
    |deps| == |items| && forall k :: 0 <= k < |items| ==> AreDeps(items[k], (set n | n in ItemNames(items)), deps[k])
  }

  ghost predicate ByListing(items: seq<TypeItem>, ordered: seq<nat>) {
    exists deps :: AllAreDeps(items, deps) && ordered == NameListing(ItemNames(items), deps)
  }

  /** There is only one such order. */
  lemma {:induction false} TypeOrderUnique(items: seq<TypeItem>, a: seq<TypeItem>, b: seq<TypeItem>, first: seq<nat>, second: seq<nat>)
    requires InTypeOrder(items, a, first) && InTypeOrder(items, b, second)
    ensures first == second && a == b
  {
    var deps :| AllAreDeps(items, deps) && first == NameListing(ItemNames(items), deps);
    var deps' :| AllAreDeps(items, deps') && second == NameListing(ItemNames(items), deps');
    forall k | 0 <= k < |items|
      ensures deps[k] == deps'[k]
    {
      DepsUnique(items[k], (set n | n in ItemNames(items)), deps[k], deps'[k]);
    }
    assert deps == deps';
  }

  lemma {:induction false} DepsUnique(item: TypeItem, universe: set<string>, a: seq<string>, b: seq<string>)
    requires AreDeps(item, universe, a) && AreDeps(item, universe, b)
    ensures a == b
  {
    forall n
      ensures n in a <==> n in b
    {
    }
    SortedUnique(a, b);
  }

  method OrderItems(items: seq<TypeItem>) returns (out: seq<TypeItem>, ghost ordered: seq<nat>)
    ensures InTypeOrder(items, out, ordered)
  {
    var names := ItemNames(items);
    var deps := AllDeps(items, set n | n in names);
    TypeEdges(items, deps);
    var order := OrderByName(names, deps);
    ordered := order;
    assert AllAreDeps(items, deps);
    out := TakeEach(items, order);
  }

  method AllDeps(items: seq<TypeItem>, universe: set<string>) returns (deps: seq<seq<string>>)
    ensures |deps| == |items| && forall k :: 0 <= k < |items| ==> AreDeps(items[k], universe, deps[k])
  {
    deps := [];
    for i := 0 to |items|
      invariant |deps| == i && forall k :: 0 <= k < i ==> AreDeps(items[k], universe, deps[k])
    {
      var ds := Deps(items[i], universe);
      deps := deps + [ds];
    }
  }

  lemma TypeEdges(items: seq<TypeItem>, deps: seq<seq<string>>)
    requires |deps| == |items|
    requires forall k :: 0 <= k < |items| ==> AreDeps(items[k], (set n | n in ItemNames(items)), deps[k])
    ensures NameEdges(ItemNames(items), deps) == TypeRefs(items)
  {
    var names := ItemNames(items);
    forall i: nat, j: nat
      ensures (i, j) in NameEdges(names, deps) <==> (i, j) in TypeRefs(items)
    {
      if i < |items| && j < |items| {
        assert AreDeps(items[i], (set n | n in names), deps[i]);
        assert names[j] in names;
      }
    }
  }

  /** Moves every item out once; taking an item that is already gone is impossible. */
  method TakeEach<T>(items: seq<T>, ordered: seq<nat>) returns (out: seq<T>)
    requires IsPermutation(|items|, ordered)
    ensures |out| == |ordered| && forall k :: 0 <= k < |out| ==> ordered[k] < |items| && out[k] == items[ordered[k]]
    ensures multiset(out) == multiset(items)
  {
    InRange(|items|, ordered);
    var src: seq<Option<T>> := seq(|items|, i requires 0 <= i < |items| => Some(items[i]));
    out := [];
    for k := 0 to |ordered|
      invariant |src| == |items| && |out| == k
      invariant forall i :: 0 <= i < |items| ==> src[i] == if i in ordered[..k] then None else Some(items[i])
      invariant forall m :: 0 <= m < k ==> out[m] == items[ordered[m]]
    {
      var idx := ordered[k];
      assert idx !in ordered[..k];
      out := out + [src[idx].value];
      src := src[idx := None];
      assert ordered[..k + 1] == ordered[..k] + [idx];
    }
    PickedPermutes(items, ordered);
    assert out == Picked(items, ordered);
  }

  // ---------- pure functions ----------

  /** `name` is called somewhere in `e`. */
  ghost predicate Calls(e: Expr, name: string)
    decreases e, 0
  {
    match e
    case Call(n, args) => n == name || AnyCalls(args, name)
    case Node(children) => AnyCalls(children, name)
  }

  ghost predicate AnyCalls(es: seq<Expr>, name: string)
    decreases es, 1
  {
    exists i :: 0 <= i < |es| && Calls(es[i], name)
  }

  /** The called names in the order of the calls, a call before those in its arguments. */
  ghost function CallNames(e: Expr): seq<string>
    decreases e, 0
  {
    match e
    case Call(n, args) => [n] + AllCallNames(args)
    case Node(children) => AllCallNames(children)
  }

  ghost function AllCallNames(es: seq<Expr>): seq<string>
    decreases es, 1
  {
    if es == [] then [] else CallNames(es[0]) + AllCallNames(es[1..])
  }

  /** `out`, and then the names of the universe other than `self`, each at its first place. */
  ghost function Added(universe: set<string>, self: string, out: seq<string>, names: seq<string>): seq<string>
    decreases |names|
  {
    if names == [] then out
    else
      var n := names[0];
      Added(universe, self, if n in universe && n != self && n !in out then out + [n] else out, names[1..])
  }

  lemma {:induction false} AddedConcat(universe: set<string>, self: string, out: seq<string>, a: seq<string>, b: seq<string>)
    ensures Added(universe, self, out, a + b) == Added(universe, self, Added(universe, self, out, a), b)
    decreases |a|
  {
    if a == [] {
      assert a + b == b;
    } else {
      TailOfSum(a, b);
      var n := a[0];
      AddedConcat(universe, self, if n in universe && n != self && n !in out then out + [n] else out, a[1..], b);
    }
  }

  lemma AddedOne(universe: set<string>, self: string, out: seq<string>, n: string)
    ensures Added(universe, self, out, [n]) == if n in universe && n != self && n !in out then out + [n] else out
  {
    assert [n][1..] == [];
  }

  /** The list of callees found so far. */
  ghost predicate Extended(out0: seq<string>, out: seq<string>) {
    out0 <= out && (Distinct(out0) ==> Distinct(out))
  }

  method Collect(e: Expr, universe: set<string>, self: string, out0: seq<string>) returns (out: seq<string>)
    ensures Extended(out0, out)
    ensures forall n :: n in out <==> n in out0 || (n in universe && n != self && Calls(e, n))
    ensures out == Added(universe, self, out0, CallNames(e))
    decreases e, 0
  {
    if e.Call? {
      AddedConcat(universe, self, out0, [e.name], AllCallNames(e.args));
      AddedOne(universe, self, out0, e.name);
    }
    out := out0;
    if e.Call? && e.name in universe && e.name != self && e.name !in out {
      out := out + [e.name];
    }
    out := CollectChildren(if e.Call? then e.args else e.children, universe, self, out);
  }

  method CollectChildren(es: seq<Expr>, universe: set<string>, self: string,
                         out0: seq<string>) returns (out: seq<string>)
    ensures Extended(out0, out)
    ensures forall n :: n in out <==> n in out0 || (n in universe && n != self && AnyCalls(es, n))
    ensures out == Added(universe, self, out0, AllCallNames(es))
    decreases es, 1
  {
    out := out0;
    assert es[0..] == es;
    for i := 0 to |es|
      invariant Extended(out0, out)
      invariant Added(universe, self, out0, AllCallNames(es)) == Added(universe, self, out, AllCallNames(es[i..]))
      invariant forall n :: n in out <==> n in out0 || (n in universe && n != self && exists k :: 0 <= k < i && Calls(es[k], n))
    {
      assert es[i..][1..] == es[i + 1..];
      AddedConcat(universe, self, out, CallNames(es[i]), AllCallNames(es[i + 1..]));
      out := Collect(es[i], universe, self, out);
    }
  }

  method PureFnCallees(f: PureFn, universe: set<string>) returns (callees: seq<string>)
    ensures Distinct(callees)
    ensures forall n :: n in callees <==> n in universe && n != f.name && Calls(f.body, n)
    ensures callees == Added(universe, f.name, [], CallNames(f.body))
  {
    callees := Collect(f.body, universe, f.name, []);
  }

  function FnNames(fns: seq<PureFn>): (names: seq<string>)
    ensures |names| == |fns| && forall i :: 0 <= i < |fns| ==> names[i] == fns[i].name
  {
    seq(|fns|, i requires 0 <= i < |fns| => fns[i].name)
  }

  /** `i` calls the name of `j`, the last function of that name. */
  ghost function CallRefs(fns: seq<PureFn>): set<(nat, nat)> {
    set i: nat, j: nat | i < |fns| && j < |fns| && fns[j].name != fns[i].name
                         && Calls(fns[i].body, fns[j].name) && IsLast(FnNames(fns), j) :: (i, j)
  }

  /** What each function calls, in the order of its calls. */
  ghost function AllCallees(fns: seq<PureFn>): seq<seq<string>> {
    seq(|fns|, i requires 0 <= i < |fns| => Added((set n | n in FnNames(fns)), fns[i].name, [], CallNames(fns[i].body)))
  }

  method CalleeLists(fns: seq<PureFn>) returns (callees: seq<seq<string>>)
    ensures callees == AllCallees(fns) && |callees| == |fns|
    ensures forall k :: 0 <= k < |fns| ==> AreCallees(fns, k, callees[k])
  {
    var names := FnNames(fns);
    var universe := set n | n in names;
    callees := [];
    for i := 0 to |fns|
      invariant |callees| == i
      invariant forall k :: 0 <= k < i ==> AreCallees(fns, k, callees[k])
      invariant forall k :: 0 <= k < i ==> callees[k] == Added(universe, fns[k].name, [], CallNames(fns[k].body))
    {
      var cs := PureFnCallees(fns[i], universe);
      callees := callees + [cs];
    }
  }

  ghost predicate AreCallees(fns: seq<PureFn>, k: nat, callees: seq<string>)
    requires k < |fns|
  {
    forall n :: n in callees <==> n in FnNames(fns) && n != fns[k].name && Calls(fns[k].body, n)
  }

  lemma CalleeEdges(fns: seq<PureFn>, callees: seq<seq<string>>)
    requires |callees| == |fns| && forall k :: 0 <= k < |fns| ==> AreCallees(fns, k, callees[k])
    ensures NameEdges(FnNames(fns), callees) == CallRefs(fns)
  {
    var names := FnNames(fns);
    forall i: nat, j: nat
      ensures (i, j) in NameEdges(names, callees) <==> (i, j) in CallRefs(fns)
    {
      if i < |fns| && j < |fns| {
        assert AreCallees(fns, i, callees[i]);
        assert names[j] in names;
      }
    }
  }

  method OrderPureFns(fns: seq<PureFn>) returns (out: seq<PureFn>, ghost ordered: seq<nat>)
    ensures GoodOrder(CallRefs(fns), |fns|, ordered)
    ensures |out| == |ordered| && forall k :: 0 <= k < |out| ==> ordered[k] < |fns| && out[k] == fns[ordered[k]]
    ensures multiset(out) == multiset(fns)
    ensures ordered == NameListing(FnNames(fns), AllCallees(fns))
  {
    var names := FnNames(fns);
    var callees := CalleeLists(fns);
    CalleeEdges(fns, callees);
    var order := OrderByName(names, callees);
    ordered := order;
    out := GetEach(fns, order);
  }

  /** Looks every index up; none is out of range, so none is skipped. */
  method GetEach<T>(items: seq<T>, ordered: seq<nat>) returns (out: seq<T>)
    requires IsPermutation(|items|, ordered)
    ensures |out| == |ordered| && forall k :: 0 <= k < |out| ==> ordered[k] < |items| && out[k] == items[ordered[k]]
    ensures multiset(out) == multiset(items)
  {
    InRange(|items|, ordered);
    out := [];
    for k := 0 to |ordered|
      invariant |out| == k && forall m :: 0 <= m < k ==> out[m] == items[ordered[m]]
    {
      if ordered[k] < |items| {
        out := out + [items[ordered[k]]];
      }
    }
    PickedPermutes(items, ordered);
    assert out == Picked(items, ordered);
  }
}
