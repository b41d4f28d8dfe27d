/** What `tarjan_sccs` returns, and how the route and entity passes use it
    (cambrian-transpiler/src/graph.rs and analysis/graphs.rs). */
module TarjanResult {
  import opened Graphs
  import opened Sequences
  import opened TarjanState
  import opened Tarjan
  import opened Discovery

  /** `sccs` is the list of mutual-reachability classes of everything reachable from `names`. */
  ghost predicate Decomposes(names: seq<Node>, deps: Deps, sccs: seq<seq<Node>>) {
    && (forall k :: 0 <= k < |sccs| ==> IsScc(Edges(deps), sccs[k]))
    && PairwiseDisjoint(sccs)
    && forall x :: x in Finished(sccs) <==> HasRoot(Edges(deps), Elems(names), x)
  }

  /** No edge points from a component to one emitted before it. */
  ghost predicate CallersFirst(E: set<(Node, Node)>, sccs: seq<seq<Node>>) {
    forall i, j, x, y :: 0 <= i < |sccs| && 0 <= j < |sccs| && x in sccs[i] && y in sccs[j] && (x, y) in E ==> i <= j
  }

  // ---------- the traversal over `names` ----------

  lemma StartInv(E: set<(Node, Node)>, roots: set<Node>)
    ensures Inv(E, roots, {}, State(map[], map[], {}, [], 0, [])) && Met(E, [], State(map[], map[], {}, [], 0, []))
  {
  }

  /** With nothing being explored the stack is empty, so everything visited is in a component. */
  lemma StackEmpty(E: set<(Node, Node)>, roots: set<Node>, s: State)
    requires Inv(E, roots, {}, s)
    ensures s.stack == [] && s.indexOf.Keys == Finished(s.sccs)
  {
    assert s.stack != [] ==> Anchored(E, {}, s.stack, 0);
  }

  lemma AllReached(names: seq<Node>, deps: Deps, s: State)
    requires Inv(Edges(deps), Elems(names), {}, s)
    requires forall n :: n in names ==> n in s.indexOf
    ensures Decomposes(names, deps, s.sccs)
  {
    var E := Edges(deps);
    StackEmpty(E, Elems(names), s);
    forall x
      ensures x in Finished(s.sccs) <==> HasRoot(E, Elems(names), x)
    {
      if HasRoot(E, Elems(names), x) {
        var r :| r in Elems(names) && Reach(E, r, x);
        ClosedReach(E, Finished(s.sccs), r, x);
      }
    }
  }

  /** The components are in the order in which a depth-first search from `names` completes them, and the
      nodes of each in the reverse of the order in which it meets them. */
  ghost predicate AsFound(names: seq<Node>, deps: Deps, sccs: seq<seq<Node>>) {
    CompletedInOrder(Edges(deps), Order(deps, names, []), sccs) && LatestFirst(Order(deps, names, []), sccs)
  }

  /** The names from `i` on. */
  ghost function From(names: seq<Node>, i: nat): seq<Node>
    requires i <= |names|
  {
    names[i..]
  }

  lemma FromStep(names: seq<Node>, i: nat)
    requires i < |names|
    ensures From(names, i) == [names[i]] + From(names, i + 1)
  {
  }

  lemma FromEnds(names: seq<Node>)
    ensures From(names, 0) == names && From(names, |names|) == []
  {
  }

  method Components(names: seq<Node>, deps: Deps) returns (sccs: seq<seq<Node>>)
    ensures Decomposes(names, deps, sccs)
    ensures CalleesFirst(Edges(deps), sccs) && AsFound(names, deps, sccs)
    ensures NameOrder(Edges(deps), names, sccs) && TargetOrder(deps, Order(deps, names, []), sccs)
  {
    ghost var E := Edges(deps);
    ghost var roots := Elems(names);
    ghost var whole := Order(deps, names, []);
    var search := new Search(deps);
    StartInv(E, roots);
    FromEnds(names);
    var i := 0;
    while i < |names|
      invariant 0 <= i <= |names|
      invariant search.deps == deps && fresh(search)
      invariant Inv(E, roots, {}, search.Now())
      invariant forall j :: 0 <= j < i ==> names[j] in search.indexOf
      invariant Met(E, search.order, search.Now())
      invariant Order(deps, From(names, i), search.order) == whole
    {
      FromStep(names, i);
      search.VisitName(names[i], roots, From(names, i + 1), whole);
      i := i + 1;
    }
    sccs := search.sccs;
    Explored(names, deps, search.order, search.Now());
  }

  lemma Explored(names: seq<Node>, deps: Deps, order: seq<Node>, s: State)
    requires Inv(Edges(deps), Elems(names), {}, s) && Met(Edges(deps), order, s)
    requires Order(deps, From(names, |names|), order) == Order(deps, names, [])
    requires forall j :: 0 <= j < |names| ==> names[j] in s.indexOf
    ensures Decomposes(names, deps, s.sccs)
    ensures CalleesFirst(Edges(deps), s.sccs) && AsFound(names, deps, s.sccs)
    ensures NameOrder(Edges(deps), names, s.sccs) && TargetOrder(deps, Order(deps, names, []), s.sccs)
  {
    FromEnds(names);
    AllReached(names, deps, s);
    MetCompleted(Edges(deps), Order(deps, names, []), s);
    InOrder(names, deps, s.sccs);
  }

  lemma InOrder(names: seq<Node>, deps: Deps, sccs: seq<seq<Node>>)
    requires Decomposes(names, deps, sccs) && AsFound(names, deps, sccs)
    ensures NameOrder(Edges(deps), names, sccs) && TargetOrder(deps, Order(deps, names, []), sccs)
  {
    AllMet(names, deps, sccs);
    NamesInOrder(deps, names, sccs);
    TargetsInOrder(deps, names, sccs);
  }

  lemma AllMet(names: seq<Node>, deps: Deps, sccs: seq<seq<Node>>)
    requires Decomposes(names, deps, sccs)
    ensures Finished(sccs) == Elems(Order(deps, names, []))
  {
    forall x
      ensures x in Finished(sccs) <==> x in Elems(Order(deps, names, []))
    {
      OrderExact(deps, names, x);
    }
  }

  // ---------- the post-passes ----------

  const USIZE_MAX: nat := 0xFFFF_FFFF_FFFF_FFFF

  function KeyOf(key: map<Node, nat>, x: Node): nat {
    if x in key then key[x] else USIZE_MAX
  }

  /** The members of `s` with key `c`, in order. */
  ghost function WithKey(key: map<Node, nat>, s: seq<Node>, c: nat): seq<Node> {
    if s == [] then []
    else (if KeyOf(key, s[0]) == c then [s[0]] else []) + WithKey(key, s[1..], c)
  }

  ghost predicate SortedByKey(key: map<Node, nat>, s: seq<Node>) {
    forall i, j :: 0 <= i < j < |s| ==> KeyOf(key, s[i]) <= KeyOf(key, s[j])
  }

  /** Inserts `x` before everything with a greater or equal key. */
  function InsertByKey(key: map<Node, nat>, x: Node, s: seq<Node>): seq<Node> {
    if s == [] || KeyOf(key, x) <= KeyOf(key, s[0]) then [x] + s
    else [s[0]] + InsertByKey(key, x, s[1..])
  }

  /** The stable sort behind `sort_by_key`. */
  function StableSort(key: map<Node, nat>, s: seq<Node>): seq<Node> {
    if s == [] then [] else InsertByKey(key, s[0], StableSort(key, s[1..]))
  }

  lemma {:induction false} InsertKeepsNodes(key: map<Node, nat>, x: Node, s: seq<Node>)
    ensures multiset(InsertByKey(key, x, s)) == multiset{x} + multiset(s)
  {
    if s == [] || KeyOf(key, x) <= KeyOf(key, s[0]) {
    } else {
      InsertKeepsNodes(key, x, s[1..]);
      assert s == [s[0]] + s[1..];
    }
  }

  lemma {:induction false} InsertSorts(key: map<Node, nat>, x: Node, s: seq<Node>)
    requires SortedByKey(key, s)
    ensures SortedByKey(key, InsertByKey(key, x, s))
  {
    if s == [] || KeyOf(key, x) <= KeyOf(key, s[0]) {
    } else {
      InsertSorts(key, x, s[1..]);
      InsertAtLeast(key, x, s[1..], KeyOf(key, s[0]));
      assert forall j :: 0 <= j < |s[1..]| ==> s[1..][j] == s[j + 1];
    }
  }

  lemma {:induction false} InsertAtLeast(key: map<Node, nat>, x: Node, s: seq<Node>, low: nat)
    requires KeyOf(key, x) >= low && forall j :: 0 <= j < |s| ==> KeyOf(key, s[j]) >= low
    ensures forall j :: 0 <= j < |InsertByKey(key, x, s)| ==> KeyOf(key, InsertByKey(key, x, s)[j]) >= low
  {
    if s == [] || KeyOf(key, x) <= KeyOf(key, s[0]) {
    } else {
      InsertAtLeast(key, x, s[1..], low);
    }
  }

  lemma {:induction false} InsertIsStable(key: map<Node, nat>, x: Node, s: seq<Node>, c: nat)
    ensures WithKey(key, InsertByKey(key, x, s), c) == WithKey(key, [x] + s, c)
  {
    assert ([x] + s)[1..] == s;
    if s == [] || KeyOf(key, x) <= KeyOf(key, s[0]) {
    } else {
      var t := InsertByKey(key, x, s[1..]);
      InsertIsStable(key, x, s[1..], c);
      assert InsertByKey(key, x, s)[1..] == t;
      assert ([x] + s[1..])[1..] == s[1..];
      assert WithKey(key, s, c) == (if KeyOf(key, s[0]) == c then [s[0]] else []) + WithKey(key, s[1..], c);
    }
  }

  /** Sorting keeps every node, orders by key, and keeps the order of equal keys. */
  lemma {:induction false} StableSortSorts(key: map<Node, nat>, s: seq<Node>)
    ensures SortedByKey(key, StableSort(key, s))
    ensures multiset(StableSort(key, s)) == multiset(s)
    ensures forall c :: WithKey(key, StableSort(key, s), c) == WithKey(key, s, c)
  {
    if s != [] {
      var t := StableSort(key, s[1..]);
      StableSortSorts(key, s[1..]);
      InsertSorts(key, s[0], t);
      InsertKeepsNodes(key, s[0], t);
      assert s == [s[0]] + s[1..];
    }
    forall c
      ensures WithKey(key, StableSort(key, s), c) == WithKey(key, s, c)
    {
      SortKeepsKey(key, s, c);
    }
  }

  lemma {:induction false} SortKeepsKey(key: map<Node, nat>, s: seq<Node>, c: nat)
    ensures WithKey(key, StableSort(key, s), c) == WithKey(key, s, c)
  {
    if s != [] {
      var t := StableSort(key, s[1..]);
      SortKeepsKey(key, s[1..], c);
      InsertIsStable(key, s[0], t, c);
      ConsWithKey(key, s[0], t, c);
    }
  }

  lemma {:induction false} ConsWithKey(key: map<Node, nat>, x: Node, s: seq<Node>, c: nat)
    ensures WithKey(key, [x] + s, c) == (if KeyOf(key, x) == c then [x] else []) + WithKey(key, s, c)
  {
    assert ([x] + s)[1..] == s;
  }

  method SortComponents(sccs: seq<seq<Node>>, key: map<Node, nat>) returns (r: seq<seq<Node>>)
    ensures |r| == |sccs|
    ensures forall i :: 0 <= i < |sccs| ==> r[i] == StableSort(key, sccs[i])
  {
    r := sccs;
    for i := 0 to |sccs|
      invariant |r| == |sccs|
      invariant forall j :: 0 <= j < i ==> r[j] == StableSort(key, sccs[j])
      invariant forall j :: i <= j < |sccs| ==> r[j] == sccs[j]
    {
      r := r[i := StableSort(key, r[i])];
    }
  }

  function Reversed(sccs: seq<seq<Node>>): (r: seq<seq<Node>>)
    ensures |r| == |sccs| && forall i :: 0 <= i < |r| ==> r[i] == sccs[|sccs| - 1 - i]
  {
    if sccs == [] then [] else Reversed(sccs[1..]) + [sccs[0]]
  }

  /** Two lists of components with the same node sets in the same places. */
  ghost predicate SamePlaces(a: seq<seq<Node>>, b: seq<seq<Node>>) {
    |a| == |b| && forall i :: 0 <= i < |a| ==> Elems(a[i]) == Elems(b[i]) && Distinct(b[i])
  }

  lemma SamePlacesFinished(a: seq<seq<Node>>, b: seq<seq<Node>>)
    requires SamePlaces(a, b)
    ensures Finished(a) == Finished(b)
  {
    forall x
      ensures x in Finished(a) <==> x in Finished(b)
    {
      if i :| 0 <= i < |a| && x in a[i] {
        assert x in Elems(b[i]);
      }
      if i :| 0 <= i < |b| && x in b[i] {
        assert x in Elems(a[i]);
      }
    }
  }

  lemma SamePlacesDecompose(names: seq<Node>, deps: Deps, a: seq<seq<Node>>, b: seq<seq<Node>>)
    requires Decomposes(names, deps, a) && CalleesFirst(Edges(deps), a) && SamePlaces(a, b)
    ensures Decomposes(names, deps, b) && CalleesFirst(Edges(deps), b)
  {
    SamePlacesFinished(a, b);
    assert forall i, x :: 0 <= i < |a| ==> (x in a[i] <==> x in Elems(a[i]));
    assert forall i, x :: 0 <= i < |b| ==> (x in b[i] <==> x in Elems(b[i]));
    forall i | 0 <= i < |b|
      ensures IsScc(Edges(deps), b[i])
    {
      assert IsScc(Edges(deps), a[i]);
      assert a[i][0] in Elems(b[i]);
    }
  }

  lemma {:induction false} ReversedDecomposes(names: seq<Node>, deps: Deps, a: seq<seq<Node>>)
    requires Decomposes(names, deps, a) && CalleesFirst(Edges(deps), a)
    ensures Decomposes(names, deps, Reversed(a)) && CallersFirst(Edges(deps), Reversed(a))
  {
    var r := Reversed(a);
    forall x
      ensures x in Finished(a) <==> x in Finished(r)
    {
      if i :| 0 <= i < |a| && x in a[i] {
        assert x in r[|a| - 1 - i];
      }
      if i :| 0 <= i < |r| && x in r[i] {
        assert x in a[|a| - 1 - i];
      }
    }
  }

  datatype Options = Options(reverseCondensation: bool, sortSccsBySourceOrder: bool)

  /** What the two options do to the components in the order they were found: nothing else. */
  ghost predicate Arranged(names: seq<Node>, opts: Options, found: seq<seq<Node>>, sccs: seq<seq<Node>>) {
    |sccs| == |found| &&
    forall i :: 0 <= i < |sccs| ==>
                  var comp := found[if opts.reverseCondensation then |found| - 1 - i else i];
                  sccs[i] == if opts.sortSccsBySourceOrder then StableSort(LastIndex(names), comp) else comp
  }

  /** `sccs` is arranged from the components as a depth-first search finds them. */
  ghost predicate IsAnswer(names: seq<Node>, deps: Deps, opts: Options, sccs: seq<seq<Node>>) {
    exists found :: IsFound(names, deps, found) && Arranged(names, opts, found, sccs)
  }

  ghost predicate IsFound(names: seq<Node>, deps: Deps, found: seq<seq<Node>>) {
    Decomposes(names, deps, found) && CalleesFirst(Edges(deps), found) && AsFound(names, deps, found)
  }

  /** The order before the reversal. */
  function Straight(opts: Options, sccs: seq<seq<Node>>): seq<seq<Node>> {
    if opts.reverseCondensation then Reversed(sccs) else sccs
  }

  /** What the first names, and the first targets of a node, reach is completed first. */
  ghost predicate SearchOrder(names: seq<Node>, deps: Deps, sccs: seq<seq<Node>>) {
    NameOrder(Edges(deps), names, sccs) && TargetOrder(deps, Order(deps, names, []), sccs)
  }

  method TarjanSccs(names: seq<Node>, deps: Deps, opts: Options) returns (sccs: seq<seq<Node>>)
    ensures IsAnswer(names, deps, opts, sccs)
    ensures Decomposes(names, deps, sccs)
    ensures if opts.reverseCondensation then CallersFirst(Edges(deps), sccs) else CalleesFirst(Edges(deps), sccs)
    ensures opts.sortSccsBySourceOrder ==> forall i :: 0 <= i < |sccs| ==> SortedByKey(LastIndex(names), sccs[i])
    ensures SearchOrder(names, deps, Straight(opts, sccs))
  {
    var found := Components(names, deps);
    sccs := SortPass(names, deps, opts, found);
    ArrangedAnswer(names, deps, opts, found, sccs);
    if opts.reverseCondensation {
      ReversedDecomposes(names, deps, sccs);
      ReversedTwice(sccs);
      sccs := Reversed(sccs);
    }
  }

  method SortPass(names: seq<Node>, ghost deps: Deps, opts: Options, found: seq<seq<Node>>) returns (sccs: seq<seq<Node>>)
    requires IsFound(names, deps, found) && SearchOrder(names, deps, found)
    ensures IsFound(names, deps, found) && Arranged(names, opts.(reverseCondensation := false), found, sccs)
    ensures Decomposes(names, deps, sccs) && CalleesFirst(Edges(deps), sccs) && SearchOrder(names, deps, sccs)
    ensures opts.sortSccsBySourceOrder ==> forall i :: 0 <= i < |sccs| ==> SortedByKey(LastIndex(names), sccs[i])
  {
    sccs := found;
    if opts.sortSccsBySourceOrder {
      sccs := SortComponents(found, LastIndex(names));
      SortedDecompose(names, deps, found, sccs);
    }
  }

  lemma ArrangedAnswer(names: seq<Node>, deps: Deps, opts: Options, found: seq<seq<Node>>, sccs: seq<seq<Node>>)
    requires IsFound(names, deps, found) && Arranged(names, opts.(reverseCondensation := false), found, sccs)
    ensures IsAnswer(names, deps, opts, if opts.reverseCondensation then Reversed(sccs) else sccs)
  {
    if opts.reverseCondensation {
      ArrangedReversed(names, opts, found, sccs);
    } else {
      assert opts.(reverseCondensation := false) == opts;
    }
  }

  lemma ArrangedReversed(names: seq<Node>, opts: Options, found: seq<seq<Node>>, sccs: seq<seq<Node>>)
    requires opts.reverseCondensation && Arranged(names, opts.(reverseCondensation := false), found, sccs)
    ensures Arranged(names, opts, found, Reversed(sccs))
  {
  }

  lemma {:induction false} ReversedTwice(sccs: seq<seq<Node>>)
    ensures Reversed(Reversed(sccs)) == sccs
  {
  }

  lemma SameSearchOrder(names: seq<Node>, deps: Deps, a: seq<seq<Node>>, b: seq<seq<Node>>)
    requires SearchOrder(names, deps, a) && SamePlaces(a, b)
    ensures SearchOrder(names, deps, b)
  {
    assert forall i, x :: 0 <= i < |a| ==> (x in a[i] <==> x in Elems(a[i]));
    assert forall i, x :: 0 <= i < |b| ==> (x in b[i] <==> x in Elems(b[i]));
  }

  lemma {:induction false} SortedDecompose(names: seq<Node>, deps: Deps, found: seq<seq<Node>>, sccs: seq<seq<Node>>)
    requires Decomposes(names, deps, found) && CalleesFirst(Edges(deps), found) && SearchOrder(names, deps, found)
    requires |sccs| == |found| && forall i :: 0 <= i < |found| ==> sccs[i] == StableSort(LastIndex(names), found[i])
    ensures Decomposes(names, deps, sccs) && CalleesFirst(Edges(deps), sccs) && SearchOrder(names, deps, sccs)
    ensures forall i :: 0 <= i < |sccs| ==> SortedByKey(LastIndex(names), sccs[i])
  {
    forall i | 0 <= i < |sccs|
      ensures Elems(found[i]) == Elems(sccs[i]) && Distinct(sccs[i]) && SortedByKey(LastIndex(names), sccs[i])
    {
      StableSortSorts(LastIndex(names), found[i]);
      assert IsScc(Edges(deps), found[i]);
      PermutationDistinct(found[i], sccs[i]);
    }
    SamePlacesDecompose(names, deps, found, sccs);
    SameSearchOrder(names, deps, found, sccs);
  }

  /** The classes do not depend on the traversal: any two decompositions have the same ones. */
  lemma DecompositionUnique(names: seq<Node>, deps: Deps, a: seq<seq<Node>>, b: seq<seq<Node>>, i: nat)
    requires Decomposes(names, deps, a) && Decomposes(names, deps, b) && i < |a|
    ensures exists j :: 0 <= j < |b| && Elems(a[i]) == Elems(b[j])
  {
    var E := Edges(deps);
    assert IsScc(E, a[i]);
    var x := a[i][0];
    assert x in a[i] && x in Finished(a);
    assert x in Finished(b);
    var j :| 0 <= j < |b| && x in b[j];
    assert IsScc(E, b[j]);
    forall y
      ensures y in a[i] <==> y in b[j]
    {
    }
  }

  /** No node reaches a component that is completed later. */
  lemma NoWayForward(names: seq<Node>, deps: Deps, sccs: seq<seq<Node>>, i: nat, j: nat, x: Node, y: Node)
    requires Decomposes(names, deps, sccs) && CalleesFirst(Edges(deps), sccs)
    requires i < j < |sccs| && x in sccs[i] && y in sccs[j]
    ensures !Reach(Edges(deps), x, y)
  {
    var E, done := Edges(deps), Finished(sccs[..i + 1]);
    forall u, w | (u, w) in E && u in done
      ensures w in done
    {
      var t :| 0 <= t <= i && u in sccs[t];
      assert u in Finished(sccs);
      RootStep(E, Elems(names), u, w) by { ReachEdge(E, u, w); }
      assert w in Finished(sccs);
      var t' :| 0 <= t' < |sccs| && w in sccs[t'];
      assert w in sccs[..i + 1][t'];
    }
    assert x in sccs[..i + 1][i];
    NotYet(sccs, i, j, y);
    if Reach(E, x, y) {
      ClosedReach(E, done, x, y);
    }
  }

  lemma NotYet(sccs: seq<seq<Node>>, i: nat, j: nat, y: Node)
    requires PairwiseDisjoint(sccs) && i < j < |sccs| && y in sccs[j]
    ensures y !in Finished(sccs[..i + 1])
  {
  }

  /** `x` is met after `y`. */
  ghost predicate Later(order: seq<Node>, x: Node, y: Node) {
    exists p, q :: 0 <= q < p < |order| && order[p] == x && order[q] == y
  }

  ghost predicate Before(E: set<(Node, Node)>, order: seq<Node>, a: seq<Node>, b: seq<Node>) {
    forall p, q :: 0 <= p < |order| && 0 <= q < |order| && order[p] in a && order[q] in b ==>
                     (p < q || Reach(E, order[q], order[p])) && !Reach(E, order[p], order[q])
  }

  lemma ComponentsRanked(names: seq<Node>, deps: Deps, sccs: seq<seq<Node>>)
    requires Decomposes(names, deps, sccs) && CalleesFirst(Edges(deps), sccs) && AsFound(names, deps, sccs)
    ensures Ranked((a, b) => Before(Edges(deps), Order(deps, names, []), a, b), sccs)
  {
    var E, order := Edges(deps), Order(deps, names, []);
    AllMet(names, deps, sccs);
    forall i, j | 0 <= i < j < |sccs|
      ensures Before(E, order, sccs[i], sccs[j]) && !Before(E, order, sccs[j], sccs[i])
    {
      forall x, y | x in sccs[i] && y in sccs[j]
        ensures !Reach(E, x, y)
      {
        NoWayForward(names, deps, sccs, i, j, x, y);
      }
      NotBefore(E, order, sccs, i, j);
    }
  }

  lemma NotBefore(E: set<(Node, Node)>, order: seq<Node>, sccs: seq<seq<Node>>, i: nat, j: nat)
    requires i < j < |sccs| && sccs[i] != [] && sccs[j] != [] && Finished(sccs) == Elems(order)
    requires Before(E, order, sccs[i], sccs[j])
    ensures !Before(E, order, sccs[j], sccs[i])
  {
    var x, y := sccs[i][0], sccs[j][0];
    assert x in sccs[i] && y in sccs[j];
    assert x in Finished(sccs) && y in Finished(sccs);
    var p :| 0 <= p < |order| && order[p] == x;
    var q :| 0 <= q < |order| && order[q] == y;
  }

  lemma NodesRanked(order: seq<Node>, comp: seq<Node>, sccs: seq<seq<Node>>, k: nat)
    requires Distinct(order) && LatestFirst(order, sccs) && k < |sccs| && comp == sccs[k]
    requires forall x :: x in comp ==> x in order
    ensures Ranked((x, y) => Later(order, x, y), comp)
  {
    forall a, b | 0 <= a < b < |comp|
      ensures Later(order, comp[a], comp[b]) && !Later(order, comp[b], comp[a])
    {
      assert comp[a] in comp && comp[b] in comp;
      var p :| 0 <= p < |order| && order[p] == comp[a];
      var q :| 0 <= q < |order| && order[q] == comp[b];
      assert q < p;
      LaterOnce(order, p, q);
    }
  }

  lemma LaterOnce(order: seq<Node>, p: nat, q: nat)
    requires Distinct(order) && q < p < |order|
    ensures Later(order, order[p], order[q]) && !Later(order, order[q], order[p])
  {
  }

  lemma SameComponent(names: seq<Node>, deps: Deps, a: seq<seq<Node>>, b: seq<seq<Node>>, i: nat)
    requires Decomposes(names, deps, a) && AsFound(names, deps, a) && Decomposes(names, deps, b) && AsFound(names, deps, b)
    requires i < |a|
    ensures a[i] in b
  {
    var order := Order(deps, names, []);
    AllMet(names, deps, a);
    AllMet(names, deps, b);
    OrderExtends(deps, names, []);
    DecompositionUnique(names, deps, a, b, i);
    var j :| 0 <= j < |b| && Elems(a[i]) == Elems(b[j]);
    assert forall x :: x in a[i] ==> x in Finished(a);
    assert forall x :: x in b[j] ==> x in Finished(b);
    NodesRanked(order, a[i], a, i);
    NodesRanked(order, b[j], b, j);
    forall x
      ensures x in a[i] <==> x in b[j]
    {
      assert x in a[i] <==> x in Elems(a[i]);
      assert x in b[j] <==> x in Elems(b[j]);
    }
    RankedUnique((x, y) => Later(order, x, y), a[i], b[j]);
  }

  /** There is only one such list: the names and the lists of callees determine it to the last place. */
  lemma FoundUnique(names: seq<Node>, deps: Deps, a: seq<seq<Node>>, b: seq<seq<Node>>)
    requires IsFound(names, deps, a) && IsFound(names, deps, b)
    ensures a == b
  {
    forall c
      ensures c in a <==> c in b
    {
      if c in a {
        var i :| 0 <= i < |a| && a[i] == c;
        SameComponent(names, deps, a, b, i);
      }
      if c in b {
        var i :| 0 <= i < |b| && b[i] == c;
        SameComponent(names, deps, b, a, i);
      }
    }
    ComponentsRanked(names, deps, a);
    ComponentsRanked(names, deps, b);
    RankedUnique((c, d) => Before(Edges(deps), Order(deps, names, []), c, d), a, b);
  }

  /** So `tarjan_sccs` has one answer. */
  lemma AnswerUnique(names: seq<Node>, deps: Deps, opts: Options, a: seq<seq<Node>>, b: seq<seq<Node>>)
    requires IsAnswer(names, deps, opts, a) && IsAnswer(names, deps, opts, b)
    ensures a == b
  {
    var f :| IsFound(names, deps, f) && Arranged(names, opts, f, a);
    var g :| IsFound(names, deps, g) && Arranged(names, opts, g, b);
    FoundUnique(names, deps, f, g);
    ArrangedUnique(names, opts, f, a, b);
  }

  lemma ArrangedUnique(names: seq<Node>, opts: Options, found: seq<seq<Node>>, a: seq<seq<Node>>, b: seq<seq<Node>>)
    requires Arranged(names, opts, found, a) && Arranged(names, opts, found, b)
    ensures a == b
  {
  }

  // ---------- the two passes that use it ----------

  function Lookup(m: Deps, x: Node): seq<Node> {
    if x in m then m[x] else []
  }

  /** `r` calls `c`, both routes of the entity. */
  ghost function CallEdges(routes: seq<Node>, callees: Deps): set<(Node, Node)> {
    set r, c | r in routes && c in Lookup(callees, r) && c in routes :: (r, c)
  }

  ghost function RouteDeps(routes: seq<Node>, callees: Deps): Deps {
    map r | r in routes :: Lookup(callees, r)
  }

  lemma RouteEdges(routes: seq<Node>, callees: Deps)
    ensures Edges(RouteDeps(routes, callees)) == CallEdges(routes, callees)
    ensures RouteDeps(routes, callees).Keys == Elems(routes)
  {
  }

  /** Route components of one entity: callees first, declaration order inside a component, and otherwise in
      the order in which the routes and their callees lead to them. */
  method RouteSccs(routes: seq<Node>, callees: Deps) returns (sccs: seq<seq<Node>>)
    ensures forall k :: 0 <= k < |sccs| ==> IsScc(CallEdges(routes, callees), sccs[k])
    ensures PairwiseDisjoint(sccs) && Finished(sccs) == Elems(routes)
    ensures CalleesFirst(CallEdges(routes, callees), sccs)
    ensures forall k :: 0 <= k < |sccs| ==> SortedByKey(LastIndex(routes), sccs[k])
    ensures SearchOrder(routes, RouteDeps(routes, callees), sccs)
    ensures IsAnswer(routes, RouteDeps(routes, callees), Options(false, true), sccs)
  {
    var deps: Deps := map[];
    for i := 0 to |routes|
      invariant forall r :: r in deps <==> r in routes[..i]
      invariant forall r :: r in deps ==> deps[r] == Lookup(callees, r)
    {
      deps := deps[routes[i] := Lookup(callees, routes[i])];
    }
    assert routes[..|routes|] == routes;
    RouteEdges(routes, callees);
    assert deps == RouteDeps(routes, callees);
    sccs := TarjanSccs(routes, deps, Options(false, true));
    NamesAreKeys(routes, deps, sccs);
  }

  /** When every name is a key, the components partition exactly the names. */
  lemma NamesAreKeys(names: seq<Node>, deps: Deps, sccs: seq<seq<Node>>)
    requires Decomposes(names, deps, sccs)
    requires deps.Keys == Elems(names)
    ensures Finished(sccs) == Elems(names)
  {
    var E := Edges(deps);
    forall x
      ensures x in Elems(names) <==> x in Finished(sccs)
    {
      if x in names {
        ReachRefl(E, x);
        assert HasRoot(E, Elems(names), x);
      }
      if x in Finished(sccs) {
        var r :| r in Elems(names) && Reach(E, r, x);
        ClosedReach(E, Elems(names), r, x);
      }
    }
  }

  /** A component is reported when it has several nodes or its only node refers to itself. */
  predicate IsCyclic(deps: Deps, scc: seq<Node>) {
    |scc| > 1 || (|scc| == 1 && scc[0] in deps && scc[0] in deps[scc[0]])
  }

  /** `cyclic` holds the components of `done` whose nodes lie on a cycle. */
  ghost predicate Reported(E: set<(Node, Node)>, done: seq<seq<Node>>, cyclic: seq<seq<Node>>) {
    && (forall k :: 0 <= k < |cyclic| ==> IsScc(E, cyclic[k]))
    && PairwiseDisjoint(cyclic)
    && (forall x :: x in Finished(cyclic) <==> x in Finished(done) && ReachPlus(E, x, x))
  }

  lemma ReportStep(deps: Deps, done: seq<seq<Node>>, cyclic: seq<seq<Node>>, scc: seq<Node>)
    requires Reported(Edges(deps), done, cyclic) && IsScc(Edges(deps), scc) && Elems(scc) !! Finished(done)
    ensures Reported(Edges(deps), done + [scc], if IsCyclic(deps, scc) then cyclic + [scc] else cyclic)
  {
    CyclicExactly(deps, scc);
    FinishedSnoc(cyclic, scc);
    FinishedSnoc(done, scc);
    assert Finished(cyclic) <= Finished(done);
    EmitDisjoint(cyclic, scc);
  }

  lemma LaterIsNew(sccs: seq<seq<Node>>, i: nat)
    requires PairwiseDisjoint(sccs) && i < |sccs|
    ensures Elems(sccs[i]) !! Finished(sccs[..i])
  {
  }

  /** The record / alias recursion check: reports the components that lie on cycles. */
  method CyclicComponents(names: seq<Node>, deps: Deps) returns (cyclic: seq<seq<Node>>)
    requires deps.Keys == Elems(names)
    ensures forall k :: 0 <= k < |cyclic| ==> IsScc(Edges(deps), cyclic[k])
    ensures PairwiseDisjoint(cyclic)
    ensures forall x :: x in Finished(cyclic) <==> ReachPlus(Edges(deps), x, x)
    ensures cyclic == [] <==> Acyclic(Edges(deps))
  {
    var sccs := TarjanSccs(names, deps, Options(false, false));
    cyclic := ReportCyclic(deps, sccs);
    ReportComplete(names, deps, sccs, cyclic);
  }

  method ReportCyclic(deps: Deps, sccs: seq<seq<Node>>) returns (cyclic: seq<seq<Node>>)
    requires PairwiseDisjoint(sccs) && forall k :: 0 <= k < |sccs| ==> IsScc(Edges(deps), sccs[k])
    ensures Reported(Edges(deps), sccs, cyclic)
  {
    cyclic := [];
    for i := 0 to |sccs|
      invariant Reported(Edges(deps), sccs[..i], cyclic)
    {
      ReportNext(deps, sccs, i, cyclic);
      if IsCyclic(deps, sccs[i]) {
        cyclic := cyclic + [sccs[i]];
      }
    }
    assert sccs[..|sccs|] == sccs;
  }

  lemma ReportNext(deps: Deps, sccs: seq<seq<Node>>, i: nat, cyclic: seq<seq<Node>>)
    requires PairwiseDisjoint(sccs) && i < |sccs| && IsScc(Edges(deps), sccs[i])
    requires Reported(Edges(deps), sccs[..i], cyclic)
    ensures Reported(Edges(deps), sccs[..i + 1], if IsCyclic(deps, sccs[i]) then cyclic + [sccs[i]] else cyclic)
  {
    LaterIsNew(sccs, i);
    ReportStep(deps, sccs[..i], cyclic, sccs[i]);
    assert sccs[..i + 1] == sccs[..i] + [sccs[i]];
  }

  lemma ReportComplete(names: seq<Node>, deps: Deps, sccs: seq<seq<Node>>, cyclic: seq<seq<Node>>)
    requires deps.Keys == Elems(names) && Decomposes(names, deps, sccs)
    requires Reported(Edges(deps), sccs, cyclic)
    ensures forall x :: x in Finished(cyclic) <==> ReachPlus(Edges(deps), x, x)
    ensures cyclic == [] <==> Acyclic(Edges(deps))
  {
    NamesAreKeys(names, deps, sccs);
    CyclicNodesListed(deps);
    assert cyclic != [] ==> cyclic[0][0] in cyclic[0] && cyclic[0][0] in Finished(cyclic);
  }

  lemma CyclicNodesListed(deps: Deps)
    ensures forall x :: ReachPlus(Edges(deps), x, x) ==> x in deps
  {
  }

  lemma CyclicExactly(deps: Deps, scc: seq<Node>)
    requires IsScc(Edges(deps), scc)
    ensures forall x :: x in scc ==> (IsCyclic(deps, scc) <==> ReachPlus(Edges(deps), x, x))
  {
    var E := Edges(deps);
    forall x | x in scc
      ensures IsCyclic(deps, scc) <==> ReachPlus(E, x, x)
    {
      if |scc| > 1 {
        var y := if scc[0] == x then scc[1] else scc[0];
        assert y in scc && y != x;
        ReachIsReflPlus(E, x, y);
        ReachPlusTrans(E, x, y, x);
      } else {
        if (x, x) in E {
          ReachRefl(E, x);
        }
        if ReachPlus(E, x, x) {
          var y :| (x, y) in E && Reach(E, y, x);
          ReachEdge(E, x, y);
          assert y in scc;
        }
      }
    }
  }

  datatype EntityInfo = EntityInfo(name: Node, hasRoutes: bool)

  function NamesWithRoutes(entities: seq<EntityInfo>): seq<Node> {
    if entities == [] then []
    else (if entities[0].hasRoutes then [entities[0].name] else []) + NamesWithRoutes(entities[1..])
  }

  function Retain(ds: seq<Node>, self: Node, names: seq<Node>): (r: seq<Node>)
    ensures forall d :: d in r <==> d in ds && d != self && d in names
  {
    if ds == [] then []
    else (if ds[0] != self && ds[0] in names then [ds[0]] else []) + Retain(ds[1..], self, names)
  }

  /** Routes of `e` send to the different entity `d`; both have routes. */
  ghost function SendEdges(entities: seq<EntityInfo>, sends: Deps): set<(Node, Node)> {
    var names := NamesWithRoutes(entities);
    set e, d | e in names && d in Lookup(sends, e) && d in names && d != e :: (e, d)
  }

  /** In the order of declaration. */
  lemma {:induction false} WithRoutesConcat(a: seq<EntityInfo>, b: seq<EntityInfo>)
    ensures NamesWithRoutes(a + b) == NamesWithRoutes(a) + NamesWithRoutes(b)
  {
    if a == [] {
      assert a + b == b;
    } else {
      WithRoutesConcat(a[1..], b);
      TailOfSum(a, b);
    }
  }

  /** In the order of the sends. */
  lemma {:induction false} RetainConcat(a: seq<Node>, b: seq<Node>, self: Node, names: seq<Node>)
    ensures Retain(a + b, self, names) == Retain(a, self, names) + Retain(b, self, names)
  {
    if a == [] {
      assert a + b == b;
    } else {
      RetainConcat(a[1..], b, self, names);
      TailOfSum(a, b);
    }
  }

  lemma WithRoutesOne(e: EntityInfo, d: Node, self: Node, names: seq<Node>)
    ensures NamesWithRoutes([e]) == if e.hasRoutes then [e.name] else []
    ensures Retain([d], self, names) == if d != self && d in names then [d] else []
  {
    assert [e][1..] == [] && [d][1..] == [];
  }

  lemma {:induction false} WithRoutesMember(entities: seq<EntityInfo>, x: Node)
    ensures x in NamesWithRoutes(entities) <==> EntityInfo(x, true) in entities
  {
    if entities != [] {
      WithRoutesMember(entities[1..], x);
      assert entities == [entities[0]] + entities[1..];
    }
  }

  ghost function SendDeps(entities: seq<EntityInfo>, sends: Deps): Deps {
    var names := NamesWithRoutes(entities);
    map e | e in names :: Retain(Lookup(sends, e), e, names)
  }

  lemma SendDepsEdges(entities: seq<EntityInfo>, sends: Deps)
    ensures Edges(SendDeps(entities, sends)) == SendEdges(entities, sends)
    ensures SendDeps(entities, sends).Keys == Elems(NamesWithRoutes(entities))
  {
  }

  /** The sends of every entity with routes to the others. */
  method SendLists(entities: seq<EntityInfo>, sends: Deps) returns (deps: Deps)
    ensures deps == SendDeps(entities, sends)
  {
    var names := NamesWithRoutes(entities);
    deps := map[];
    for i := 0 to |entities|
      invariant forall r :: r in deps <==> EntityInfo(r, true) in entities[..i]
      invariant forall r :: r in deps ==> deps[r] == Retain(Lookup(sends, r), r, names)
    {
      var e := entities[i];
      assert entities[..i + 1] == entities[..i] + [e];
      if e.hasRoutes {
        deps := deps[e.name := Retain(Lookup(sends, e.name), e.name, names)];
      }
    }
    assert entities[..|entities|] == entities;
    AllSends(entities, sends, deps);
  }

  lemma AllSends(entities: seq<EntityInfo>, sends: Deps, deps: Deps)
    requires forall r :: r in deps <==> EntityInfo(r, true) in entities
    requires forall r :: r in deps ==> deps[r] == Retain(Lookup(sends, r), r, NamesWithRoutes(entities))
    ensures deps == SendDeps(entities, sends)
  {
    forall x
      ensures x in deps <==> x in NamesWithRoutes(entities)
    {
      WithRoutesMember(entities, x);
    }
  }

  /** Entity components: senders first, and otherwise in the reverse of the order in which the entities and
      their sends lead to them. */
  method EntitySccs(entities: seq<EntityInfo>, sends: Deps) returns (sccs: seq<seq<Node>>)
    ensures forall k :: 0 <= k < |sccs| ==> IsScc(SendEdges(entities, sends), sccs[k])
    ensures PairwiseDisjoint(sccs) && Finished(sccs) == Elems(NamesWithRoutes(entities))
    ensures CallersFirst(SendEdges(entities, sends), sccs)
    ensures SearchOrder(NamesWithRoutes(entities), SendDeps(entities, sends), Reversed(sccs))
    ensures IsAnswer(NamesWithRoutes(entities), SendDeps(entities, sends), Options(true, false), sccs)
  {
    var names := NamesWithRoutes(entities);
    var deps := SendLists(entities, sends);
    SendDepsEdges(entities, sends);
    sccs := TarjanSccs(names, deps, Options(true, false));
    NamesAreKeys(names, deps, sccs);
  }

  /** A callers-first list is also dependees-first exactly when every edge lies on a cycle. */
  lemma DependeesFirstIff(E: set<(Node, Node)>, sccs: seq<seq<Node>>)
    requires forall k :: 0 <= k < |sccs| ==> IsScc(E, sccs[k])
    requires PairwiseDisjoint(sccs) && CallersFirst(E, sccs)
    requires forall x, y :: (x, y) in E ==> x in Finished(sccs) && y in Finished(sccs)
    ensures CalleesFirst(E, sccs) <==> forall x, y :: (x, y) in E ==> Reach(E, y, x)
  {
    forall x, y, i, j | (x, y) in E && 0 <= i < |sccs| && 0 <= j < |sccs| && x in sccs[i] && y in sccs[j]
      ensures i == j <==> Reach(E, y, x)
    {
      ReachEdge(E, x, y);
      assert IsScc(E, sccs[i]);
      assert y in sccs[i] <==> Mutual(E, x, y);
    }
    if CalleesFirst(E, sccs) {
      forall x, y | (x, y) in E
        ensures Reach(E, y, x)
      {
        var i :| 0 <= i < |sccs| && x in sccs[i];
        var j :| 0 <= j < |sccs| && y in sccs[j];
        assert i <= j && j <= i;
      }
    }
  }

  /** Entity `A` sends to `B` and not back: no answer of the entity pass is dependees-first. */
  lemma EntityOrderIsNotDependeesFirst(sccs: seq<seq<Node>>)
    requires var E := SendEdges([EntityInfo("A", true), EntityInfo("B", true)], map["A" := ["B"]]);
             && (forall k :: 0 <= k < |sccs| ==> IsScc(E, sccs[k]))
             && PairwiseDisjoint(sccs)
             && Finished(sccs) == {"A", "B"}
             && CallersFirst(E, sccs)
    ensures !CalleesFirst(SendEdges([EntityInfo("A", true), EntityInfo("B", true)], map["A" := ["B"]]), sccs)
  {
    var entities := [EntityInfo("A", true), EntityInfo("B", true)];
    assert entities[1..][1..] == [];
    assert NamesWithRoutes(entities) == ["A", "B"];
    var E := SendEdges(entities, map["A" := ["B"]]);
    assert E == {("A", "B")};
    if Reach(E, "B", "A") {
      ClosedReach(E, {"B"}, "B", "A");
    }
    assert ("A", "B") in E;
    DependeesFirstIff(E, sccs);
  }
}
