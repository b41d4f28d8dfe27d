/** Depth-first declaration order (cambrian-transpiler/src/graph.rs): a node is
    listed after everything it depends on, except where a cycle forbids it. */
module DfsTopo {
  import opened Graphs
  import opened Sequences

  /** `deps[i]` are the indices that `i` depends on; those out of range are ignored. */
  ghost function DepEdges(deps: seq<seq<nat>>): set<(nat, nat)> {
    set i: nat, d: nat | i < |deps| && d in deps[i] && d < |deps| :: (i, d)
  }

  const UNVISITED: nat := 0
  const ON_STACK: nat := 1
  const DONE: nat := 2

  /** Every dependency of `ordered[k]` is listed before it, or depends on it in turn. */
  ghost predicate Placed(deps: seq<seq<nat>>, ordered: seq<nat>, k: nat)
    requires k < |ordered|
  {
    forall d :: (ordered[k], d) in DepEdges(deps) ==> d in ordered[..k] || Reach(DepEdges(deps), d, ordered[k])
  }

  ghost predicate AllPlaced(deps: seq<seq<nat>>, ordered: seq<nat>) {
    forall k :: 0 <= k < |ordered| ==> Placed(deps, ordered, k)
  }

  /** Which indices have which state. */
  ghost predicate States(state: seq<nat>, ordered: seq<nat>, gray: set<nat>) {
    && (forall i :: 0 <= i < |state| ==> state[i] <= DONE)
    && (forall i: nat :: i in gray <==> i < |state| && state[i] == ON_STACK)
    && (forall i: nat :: i in ordered <==> i < |state| && state[i] == DONE)
    && (forall i, j :: 0 <= i < j < |ordered| ==> ordered[i] != ordered[j])
  }

  ghost predicate Grows(old_: seq<nat>, new_: seq<nat>) {
    |old_| == |new_| && forall i :: 0 <= i < |old_| && old_[i] != UNVISITED ==> new_[i] == old_[i]
  }

  ghost function Unvisited(state: seq<nat>): set<nat> {
    set i: nat | i < |state| && state[i] == UNVISITED
  }

  lemma PlaceNext(deps: seq<seq<nat>>, state: seq<nat>, ordered: seq<nat>, gray: set<nat>, idx: nat)
    requires AllPlaced(deps, ordered) && States(state, ordered, gray) && |state| == |deps|
    requires idx < |deps| && idx in gray
    requires forall g :: g in gray ==> Reach(DepEdges(deps), g, idx)
    requires forall d :: d in deps[idx] && d < |deps| ==> state[d] != UNVISITED
    ensures AllPlaced(deps, ordered + [idx])
    ensures States(state[idx := DONE], ordered + [idx], gray - {idx})
  {
    var next := ordered + [idx];
    assert next[..|ordered|] == ordered;
    forall k | 0 <= k < |next|
      ensures Placed(deps, next, k)
    {
      if k < |ordered| {
        assert Placed(deps, ordered, k);
        assert next[..k] == ordered[..k];
      } else {
        forall d | (idx, d) in DepEdges(deps)
          ensures d in ordered || Reach(DepEdges(deps), d, idx)
        {
          assert state[d] == DONE || state[d] == ON_STACK;
        }
      }
    }
  }

  // ---------- the order, step by step ----------

  /** What a depth-first search has ahead of it: nodes to meet, and nodes to list after what they need. */
  datatype Task = Meet(index: nat) | List(index: nat)

  ghost function Meets(ds: seq<nat>): seq<Task> {
    if ds == [] then [] else [Meet(ds[0])] + Meets(ds[1..])
  }

  ghost function Unmet(deps: seq<seq<nat>>, met: set<nat>): set<nat> {
    set i: nat | i < |deps| && i !in met
  }

  /** `out`, and then the nodes in the order in which the search lists them. */
  ghost function Listing(deps: seq<seq<nat>>, todo: seq<Task>, met: set<nat>, out: seq<nat>): seq<nat>
    decreases Unmet(deps, met), |todo|
  {
    if todo == [] then out
    else
      match todo[0]
      case List(i) => Listing(deps, todo[1..], met, out + [i])
      case Meet(i) =>
        if i >= |deps| || i in met then Listing(deps, todo[1..], met, out)
        else
          assert i in Unmet(deps, met) && Unmet(deps, met + {i}) <= Unmet(deps, met);
          Listing(deps, Meets(deps[i]) + ([List(i)] + todo[1..]), met + {i}, out)
  }

  lemma ListingMet(deps: seq<seq<nat>>, i: nat, rest: seq<Task>, met: set<nat>, out: seq<nat>)
    ensures Listing(deps, [Meet(i)] + rest, met, out) ==
              if i >= |deps| || i in met then Listing(deps, rest, met, out)
              else Listing(deps, Meets(deps[i]) + ([List(i)] + rest), met + {i}, out)
  {
    assert ([Meet(i)] + rest)[1..] == rest;
  }

  lemma ListingListed(deps: seq<seq<nat>>, i: nat, rest: seq<Task>, met: set<nat>, out: seq<nat>)
    ensures Listing(deps, [List(i)] + rest, met, out) == Listing(deps, rest, met, out + [i])
  {
    assert ([List(i)] + rest)[1..] == rest;
  }

  /** What is ahead when `j` of the dependencies are done. */
  ghost function Ahead(ds: seq<nat>, j: nat, rest: seq<Task>): seq<Task>
    requires j <= |ds|
  {
    Meets(ds[j..]) + rest
  }

  lemma AheadStep(ds: seq<nat>, j: nat, rest: seq<Task>)
    requires j < |ds|
    ensures Ahead(ds, j, rest) == [Meet(ds[j])] + Ahead(ds, j + 1, rest)
  {
    assert ds[j..][1..] == ds[j + 1..];
  }

  lemma AheadEnds(ds: seq<nat>, rest: seq<Task>)
    ensures Ahead(ds, 0, rest) == Meets(ds) + rest && Ahead(ds, |ds|, rest) == rest
  {
    assert ds[0..] == ds;
  }

  ghost function MetIn(state: seq<nat>): set<nat> {
    set i: nat | i < |state| && state[i] != UNVISITED
  }

  class Search {
    const deps: seq<seq<nat>>
    var state: array<nat>
    var ordered: seq<nat>

    ghost predicate Valid(gray: set<nat>)
      reads this, state
    {
      && state.Length == |deps|
      && States(state[..], ordered, gray)
      && AllPlaced(deps, ordered)
    }

    constructor (deps: seq<seq<nat>>)
      ensures this.deps == deps && ordered == [] && Valid({}) && fresh(state)
      ensures forall i :: 0 <= i < |deps| ==> state[i] == UNVISITED
    {
      this.deps := deps;
      state := new nat[|deps|](_ => UNVISITED);
      ordered := [];
    }

    /** With `rest` behind `idx` the search lists `whole` in all. */
    method Visit(idx: nat, ghost gray: set<nat>, ghost rest: seq<Task>, ghost whole: seq<nat>)
      requires Valid(gray) && idx < |deps|
      requires Listing(deps, [Meet(idx)] + rest, MetIn(state[..]), ordered) == whole
      requires forall g :: g in gray ==> Reach(DepEdges(deps), g, idx)
      modifies this`ordered, state
      ensures Valid(gray) && Grows(old(state[..]), state[..])
      ensures state[idx] != UNVISITED
      ensures Listing(deps, rest, MetIn(state[..]), ordered) == whole
      ensures old(ordered) <= ordered
      decreases Unvisited(state[..]), 0
    {
      ListingMet(deps, idx, rest, MetIn(state[..]), ordered);
      if state[idx] == ON_STACK || state[idx] == DONE {
        return;
      }
      state[idx] := ON_STACK;
      assert MetIn(state[..]) == MetIn(old(state[..])) + {idx};
      assert idx !in Unvisited(state[..]) && idx in Unvisited(old(state[..]));
      ReachRefl(DepEdges(deps), idx);
      VisitDeps(idx, gray + {idx}, [List(idx)] + rest, whole);
      ListingListed(deps, idx, rest, MetIn(state[..]), ordered);
      PlaceNext(deps, state[..], ordered, gray + {idx}, idx);
      assert gray + {idx} - {idx} == gray;
      assert MetIn(state[..][idx := DONE]) == MetIn(state[..]);
      state[idx] := DONE;
      ordered := ordered + [idx];
    }

    method VisitDeps(idx: nat, ghost gray: set<nat>, ghost rest: seq<Task>, ghost whole: seq<nat>)
      requires Valid(gray) && idx < |deps| && idx in gray
      requires forall g :: g in gray ==> Reach(DepEdges(deps), g, idx)
      requires Listing(deps, Meets(deps[idx]) + rest, MetIn(state[..]), ordered) == whole
      modifies this`ordered, state
      ensures Valid(gray) && Grows(old(state[..]), state[..])
      ensures Listing(deps, rest, MetIn(state[..]), ordered) == whole
      ensures forall d :: d in deps[idx] && d < |deps| ==> state[d] != UNVISITED
      ensures old(ordered) <= ordered
      decreases Unvisited(state[..]), 1
    {
      var ds := deps[idx];
      AheadEnds(ds, rest);
      var j := 0;
      while j < |ds|
        invariant 0 <= j <= |ds|
        invariant Listing(deps, Ahead(ds, j, rest), MetIn(state[..]), ordered) == whole
        invariant Valid(gray) && Grows(old(state[..]), state[..])
        invariant forall d :: d in ds[..j] && d < |deps| ==> state[d] != UNVISITED
        invariant old(ordered) <= ordered
      {
        var d := ds[j];
        AheadStep(ds, j, rest);
        ListingMet(deps, d, Ahead(ds, j + 1, rest), MetIn(state[..]), ordered);
        if d < |deps| {
          DepReached(deps, gray, idx, d);
          assert Unvisited(state[..]) <= Unvisited(old(state[..]));
          Visit(d, gray, Ahead(ds, j + 1, rest), whole);
        }
        j := j + 1;
      }
    }
  }

  lemma DepReached(deps: seq<seq<nat>>, gray: set<nat>, idx: nat, d: nat)
    requires idx < |deps| && d in deps[idx] && d < |deps|
    requires forall g :: g in gray ==> Reach(DepEdges(deps), g, idx)
    ensures forall g :: g in gray ==> Reach(DepEdges(deps), g, d)
  {
    forall g | g in gray
      ensures Reach(DepEdges(deps), g, d)
    {
      ReachStep(DepEdges(deps), g, idx, d);
    }
  }

  /** Every dependency points to an earlier declaration. */
  ghost predicate AlreadyOrdered(deps: seq<seq<nat>>) {
    forall i, d :: (i, d) in DepEdges(deps) ==> d <= i
  }

  method Order(deps: seq<seq<nat>>) returns (ordered: seq<nat>)
    ensures IsPermutation(|deps|, ordered)
    ensures AllPlaced(deps, ordered)
    ensures AlreadyOrdered(deps) ==> ordered == DeclarationOrder(|deps|)
    ensures ordered == Listing(deps, Meets(DeclarationOrder(|deps|)), {}, [])
  {
    var search := new Search(deps);
    ghost var all, whole := DeclarationOrder(|deps|), Listing(deps, Meets(DeclarationOrder(|deps|)), {}, []);
    AtStart(search.state[..], all);
    for i := 0 to |deps|
      invariant search.deps == deps && fresh(search) && fresh(search.state)
      invariant search.Valid({})
      invariant Before(i) <= MetIn(search.state[..])
      invariant Listing(deps, Ahead(all, i, []), MetIn(search.state[..]), search.ordered) == whole
    {
      ghost var before := search.state[..];
      AheadStep(all, i, []);
      search.Visit(i, {}, Ahead(all, i + 1, []), whole);
      StillMet(before, search.state[..]);
    }
    ordered := search.ordered;
    EveryStateDone(search.state[..], ordered);
    AheadEnds(all, []);
    AlreadyInPlace(deps);
  }

  lemma AtStart(state: seq<nat>, all: seq<nat>)
    requires forall i :: 0 <= i < |state| ==> state[i] == UNVISITED
    ensures MetIn(state) == {} && Ahead(all, 0, []) == Meets(all)
  {
    AheadEnds(all, []);
  }

  lemma StillMet(before: seq<nat>, after: seq<nat>)
    requires Grows(before, after)
    ensures MetIn(before) <= MetIn(after)
  {
  }

  lemma EveryStateDone(state: seq<nat>, ordered: seq<nat>)
    requires States(state, ordered, {})
    requires Before(|state|) <= MetIn(state)
    ensures IsPermutation(|state|, ordered)
  {
    assert forall j: nat :: j < |state| ==> j in Before(|state|);
    forall i: nat
      ensures i in ordered <==> i < |state|
    {
      assert i < |state| ==> i in Before(|state|) && i in MetIn(state) && state[i] != ON_STACK;
    }
  }

  lemma {:induction false} ListingSkips(deps: seq<seq<nat>>, ds: seq<nat>, rest: seq<Task>, met: set<nat>, out: seq<nat>)
    requires forall d :: d in ds ==> d in met || d >= |deps|
    ensures Listing(deps, Meets(ds) + rest, met, out) == Listing(deps, rest, met, out)
  {
    if ds == [] {
      assert Meets(ds) + rest == rest;
    } else {
      ListingSkips(deps, ds[1..], rest, met, out);
      assert Meets(ds) + rest == [Meet(ds[0])] + (Meets(ds[1..]) + rest);
      ListingMet(deps, ds[0], Meets(ds[1..]) + rest, met, out);
    }
  }

  ghost function Before(i: nat): (r: set<nat>)
    ensures forall j: nat :: j in r <==> j < i
  {
    if i == 0 then {} else Before(i - 1) + {i - 1}
  }

  /** Without forward dependencies the search lists the nodes as they come. */
  lemma {:induction false} ListingInPlace(deps: seq<seq<nat>>, i: nat)
    requires AlreadyOrdered(deps) && i <= |deps|
    ensures Listing(deps, Ahead(DeclarationOrder(|deps|), i, []), Before(i), DeclarationOrder(i)) == DeclarationOrder(|deps|)
    decreases |deps| - i
  {
    var all := DeclarationOrder(|deps|);
    AheadEnds(all, []);
    if i < |deps| {
      var rest := Ahead(all, i + 1, []);
      AheadStep(all, i, []);
      ListingMet(deps, i, rest, Before(i), DeclarationOrder(i));
      assert Before(i) + {i} == Before(i + 1);
      forall d | d in deps[i]
        ensures d in Before(i + 1) || d >= |deps|
      {
        assert d < |deps| ==> (i, d) in DepEdges(deps);
      }
      ListingSkips(deps, deps[i], [List(i)] + rest, Before(i + 1), DeclarationOrder(i));
      ListingListed(deps, i, rest, Before(i + 1), DeclarationOrder(i));
      assert DeclarationOrder(i + 1) == DeclarationOrder(i) + [i];
      ListingInPlace(deps, i + 1);
    }
  }

  lemma {:induction false} AlreadyInPlace(deps: seq<seq<nat>>)
    ensures AlreadyOrdered(deps) ==> Listing(deps, Meets(DeclarationOrder(|deps|)), {}, []) == DeclarationOrder(|deps|)
  {
    if AlreadyOrdered(deps) {
      ListingInPlace(deps, 0);
      AheadEnds(DeclarationOrder(|deps|), []);
      assert Meets(DeclarationOrder(|deps|)) + [] == Meets(DeclarationOrder(|deps|));
      assert Before(0) == {} && DeclarationOrder(0) == [];
    }
  }

  lemma DistinctTail(ds: seq<nat>)
    requires Distinct(ds) && ds != []
    ensures Distinct(ds[1..]) && ds[0] !in ds[1..] && Elems(ds) == {ds[0]} + Elems(ds[1..])
    ensures forall d :: d in ds[1..] ==> d in ds && d != ds[0]
  {
    assert ds == [ds[0]] + ds[1..];
    assert forall i :: 0 <= i < |ds[1..]| ==> ds[1..][i] == ds[i + 1];
  }

  lemma ListingLeaf(deps: seq<seq<nat>>, d: nat, rest: seq<Task>, met: set<nat>, out: seq<nat>)
    requires d < |deps| && deps[d] == [] && d !in met
    ensures Listing(deps, [Meet(d)] + rest, met, out) == Listing(deps, rest, met + {d}, out + [d])
  {
    ListingMet(deps, d, rest, met, out);
    assert Meets([]) + ([List(d)] + rest) == [List(d)] + rest;
    ListingListed(deps, d, rest, met + {d}, out);
  }

  /** Dependencies that need nothing themselves are listed in the order in which they are given. */
  lemma {:induction false} LeavesInOrder(deps: seq<seq<nat>>, ds: seq<nat>, rest: seq<Task>, met: set<nat>, out: seq<nat>)
    requires Distinct(ds) && forall d :: d in ds ==> d < |deps| && deps[d] == [] && d !in met
    ensures Listing(deps, Meets(ds) + rest, met, out) == Listing(deps, rest, met + Elems(ds), out + ds)
  {
    if ds == [] {
      assert Meets(ds) + rest == rest && met + Elems(ds) == met && out + ds == out;
    } else {
      DistinctTail(ds);
      assert Meets(ds) + rest == [Meet(ds[0])] + (Meets(ds[1..]) + rest);
      ListingLeaf(deps, ds[0], Meets(ds[1..]) + rest, met, out);
      LeavesInOrder(deps, ds[1..], rest, met + {ds[0]}, out + [ds[0]]);
      assert met + {ds[0]} + Elems(ds[1..]) == met + Elems(ds);
      assert out + [ds[0]] + ds[1..] == out + ds;
    }
  }

  /** The order lists every dependency first exactly when the graph is acyclic. */
  lemma TargetsFirstIffAcyclic(deps: seq<seq<nat>>, ordered: seq<nat>)
    requires IsPermutation(|deps|, ordered) && AllPlaced(deps, ordered)
    ensures TargetsFirst(DepEdges(deps), ordered) <==> Acyclic(DepEdges(deps))
  {
    var E := DepEdges(deps);
    if TargetsFirst(E, ordered) {
      TargetsFirstAcyclic(E, ordered);
    }
    if Acyclic(E) {
      forall i, d | 0 <= i < |ordered| && (ordered[i], d) in E
        ensures d in ordered[..i]
      {
        assert Placed(deps, ordered, i);
        assert !ReachPlus(E, ordered[i], ordered[i]);
      }
    }
  }
}
