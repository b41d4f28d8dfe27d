/** The order in which a depth-first search meets the nodes, and what it says about
    the order in which their components are completed. */
module Discovery {
  import opened Graphs
  import opened Sequences
  import opened TarjanState

  /** Those of `ws` that are keys. */
  ghost function Keyed(deps: Deps, ws: seq<Node>): seq<Node> {
    if ws == [] then [] else (if ws[0] in deps then [ws[0]] else []) + Keyed(deps, ws[1..])
  }

  /** Where the edges of `v` lead, in order. */
  ghost function Targets(deps: Deps, v: Node): seq<Node> {
    if v in deps then Keyed(deps, deps[v]) else []
  }

  lemma {:induction false} KeyedElems(deps: Deps, ws: seq<Node>, w: Node)
    ensures w in Keyed(deps, ws) <==> w in ws && w in deps
  {
    if ws != [] {
      KeyedElems(deps, ws[1..], w);
      assert ws == [ws[0]] + ws[1..];
    }
  }

  lemma TargetsEdges(deps: Deps, v: Node, w: Node)
    ensures w in Targets(deps, v) <==> (v, w) in Edges(deps)
  {
    if v in deps {
      KeyedElems(deps, deps[v], w);
    }
  }

  lemma {:induction false} KeyedFrom(deps: Deps, ws: seq<Node>, i: nat)
    requires i < |ws|
    ensures Keyed(deps, ws[i..]) == Keyed(deps, [ws[i]]) + Keyed(deps, ws[i + 1..])
  {
    assert ws[i..][1..] == ws[i + 1..] && [ws[i]][1..] == [];
  }

  /** What is ahead when `i` of the names in `ws` are done. */
  ghost function Ahead(deps: Deps, ws: seq<Node>, i: nat, rest: seq<Node>): seq<Node>
    requires i <= |ws|
  {
    Keyed(deps, ws[i..]) + rest
  }

  lemma AheadStep(deps: Deps, ws: seq<Node>, i: nat, rest: seq<Node>)
    requires i < |ws|
    ensures Ahead(deps, ws, i, rest) == Keyed(deps, [ws[i]]) + Ahead(deps, ws, i + 1, rest)
  {
    KeyedFrom(deps, ws, i);
  }

  lemma AheadEnds(deps: Deps, v: Node, rest: seq<Node>)
    requires v in deps
    ensures Ahead(deps, deps[v], 0, rest) == Targets(deps, v) + rest && Ahead(deps, deps[v], |deps[v]|, rest) == rest
  {
    assert deps[v][0..] == deps[v];
  }

  lemma KeyedOne(deps: Deps, w: Node, rest: seq<Node>)
    ensures Keyed(deps, [w]) + rest == if w in deps then [w] + rest else rest
  {
    assert [w][1..] == [];
  }

  ghost function Unseen(deps: Deps, todo: seq<Node>, seen: seq<Node>): set<Node> {
    (deps.Keys + Elems(todo)) - Elems(seen)
  }

  /** `seen`, and then the nodes that a depth-first search still meets which has `todo` ahead of it. */
  ghost function Order(deps: Deps, todo: seq<Node>, seen: seq<Node>): seq<Node>
    decreases Unseen(deps, todo, seen), |todo|
  {
    if todo == [] then seen
    else if todo[0] in seen then SkipSmaller(deps, todo, seen); Order(deps, todo[1..], seen)
    else ExpandSmaller(deps, todo, seen); Order(deps, Targets(deps, todo[0]) + todo[1..], seen + [todo[0]])
  }

  lemma SkipSmaller(deps: Deps, todo: seq<Node>, seen: seq<Node>)
    requires todo != []
    ensures Unseen(deps, todo[1..], seen) <= Unseen(deps, todo, seen)
  {
  }

  lemma ExpandSmaller(deps: Deps, todo: seq<Node>, seen: seq<Node>)
    requires todo != [] && todo[0] !in seen
    ensures Unseen(deps, Targets(deps, todo[0]) + todo[1..], seen + [todo[0]]) < Unseen(deps, todo, seen)
  {
    var next := Unseen(deps, Targets(deps, todo[0]) + todo[1..], seen + [todo[0]]);
    forall x | x in next
      ensures x in Unseen(deps, todo, seen) && x != todo[0]
    {
      if x in Targets(deps, todo[0]) {
        TargetsEdges(deps, todo[0], x);
      }
    }
    assert todo[0] in Unseen(deps, todo, seen);
  }

  lemma OrderSkip(deps: Deps, w: Node, rest: seq<Node>, seen: seq<Node>)
    requires w in seen
    ensures Order(deps, [w] + rest, seen) == Order(deps, rest, seen)
  {
    assert ([w] + rest)[1..] == rest;
  }

  lemma OrderEnter(deps: Deps, v: Node, rest: seq<Node>, seen: seq<Node>)
    requires v !in seen
    ensures Order(deps, [v] + rest, seen) == Order(deps, Targets(deps, v) + rest, seen + [v])
  {
    assert ([v] + rest)[1..] == rest;
  }

  // ---------- what is met ----------

  lemma {:induction false} OrderExtends(deps: Deps, todo: seq<Node>, seen: seq<Node>)
    ensures seen <= Order(deps, todo, seen)
    ensures Distinct(seen) ==> Distinct(Order(deps, todo, seen))
    decreases Unseen(deps, todo, seen), |todo|
  {
    if todo != [] {
      if todo[0] in seen {
        SkipSmaller(deps, todo, seen);
        OrderExtends(deps, todo[1..], seen);
      } else {
        ExpandSmaller(deps, todo, seen);
        OrderExtends(deps, Targets(deps, todo[0]) + todo[1..], seen + [todo[0]]);
      }
    }
  }

  lemma {:induction false} OrderSplit(deps: Deps, a: seq<Node>, b: seq<Node>, seen: seq<Node>)
    ensures Order(deps, a + b, seen) == Order(deps, b, Order(deps, a, seen))
    decreases Unseen(deps, a, seen), |a|
  {
    if a == [] {
      assert a + b == b;
    } else {
      TailOfSum(a, b);
      if a[0] in seen {
        SkipSmaller(deps, a, seen);
        OrderSplit(deps, a[1..], b, seen);
      } else {
        ExpandSmaller(deps, a, seen);
        OrderSplit(deps, Targets(deps, a[0]) + a[1..], b, seen + [a[0]]);
        Associative(Targets(deps, a[0]), a[1..], b);
      }
    }
  }

  /** Only seen nodes and what `todo` reaches are met. */
  lemma {:induction false} OrderRooted(deps: Deps, todo: seq<Node>, seen: seq<Node>, x: Node)
    requires x in Order(deps, todo, seen)
    ensures x in seen || HasRoot(Edges(deps), Elems(todo), x)
    decreases Unseen(deps, todo, seen), |todo|
  {
    if todo != [] {
      var E := Edges(deps);
      if todo[0] in seen {
        SkipSmaller(deps, todo, seen);
        OrderRooted(deps, todo[1..], seen, x);
        RootMono(E, Elems(todo[1..]), Elems(todo), x);
      } else {
        ExpandSmaller(deps, todo, seen);
        OrderRooted(deps, Targets(deps, todo[0]) + todo[1..], seen + [todo[0]], x);
        if x !in seen {
          RootThrough(deps, todo, x);
        }
      }
    }
  }

  lemma RootMono(E: set<(Node, Node)>, A: set<Node>, B: set<Node>, x: Node)
    requires A <= B
    ensures HasRoot(E, A, x) ==> HasRoot(E, B, x)
  {
  }

  lemma RootThrough(deps: Deps, todo: seq<Node>, x: Node)
    requires todo != []
    requires x == todo[0] || HasRoot(Edges(deps), Elems(Targets(deps, todo[0]) + todo[1..]), x)
    ensures HasRoot(Edges(deps), Elems(todo), x)
  {
    var E := Edges(deps);
    if x == todo[0] {
      ReachRefl(E, x);
    } else {
      var r :| r in Elems(Targets(deps, todo[0]) + todo[1..]) && Reach(E, r, x);
      if r in Targets(deps, todo[0]) {
        TargetsEdges(deps, todo[0], r);
        ReachEdge(E, todo[0], r);
        ReachTrans(E, todo[0], r, x);
        assert todo[0] in Elems(todo);
      } else {
        assert r in Elems(todo);
      }
    }
  }

  /** Edges from seen nodes lead to seen nodes and to `todo`, except those from `open`. */
  ghost predicate Pending(deps: Deps, todo: seq<Node>, seen: seq<Node>, open: set<Node>) {
    forall x, y :: (x, y) in Edges(deps) && x in seen && x !in open ==> y in seen || y in todo
  }

  /** Everything ahead is met, and everything newly met has all its targets among the met. */
  lemma {:induction false} OrderClosed(deps: Deps, todo: seq<Node>, seen: seq<Node>, open: set<Node>)
    requires Pending(deps, todo, seen, open) && open <= Elems(seen)
    ensures var r := Order(deps, todo, seen);
            (forall x :: x in todo ==> x in r) && Pending(deps, [], r, open)
    decreases Unseen(deps, todo, seen), |todo|
  {
    if todo != [] {
      assert todo == [todo[0]] + todo[1..];
      if todo[0] in seen {
        SkipSmaller(deps, todo, seen);
        OrderExtends(deps, todo[1..], seen);
        OrderClosed(deps, todo[1..], seen, open);
      } else {
        ExpandSmaller(deps, todo, seen);
        var next := Targets(deps, todo[0]) + todo[1..];
        PendingStep(deps, todo, seen, open);
        OrderExtends(deps, next, seen + [todo[0]]);
        OrderClosed(deps, next, seen + [todo[0]], open);
        assert Order(deps, next, seen + [todo[0]])[|seen|] == todo[0];
        assert forall x :: x in todo[1..] ==> x in next;
      }
    }
  }

  lemma PendingStep(deps: Deps, todo: seq<Node>, seen: seq<Node>, open: set<Node>)
    requires Pending(deps, todo, seen, open) && todo != []
    ensures Pending(deps, Targets(deps, todo[0]) + todo[1..], seen + [todo[0]], open)
  {
    forall x, y | (x, y) in Edges(deps) && x in seen + [todo[0]] && x !in open
      ensures y in seen + [todo[0]] || y in Targets(deps, todo[0]) + todo[1..]
    {
      TargetsEdges(deps, todo[0], y);
      if x != todo[0] && y in todo {
        assert todo == [todo[0]] + todo[1..];
      }
    }
  }

  /** From the start exactly the nodes that `names` reach are met. */
  lemma {:induction false} OrderExact(deps: Deps, names: seq<Node>, x: Node)
    ensures x in Order(deps, names, []) <==> HasRoot(Edges(deps), Elems(names), x)
  {
    var E, r := Edges(deps), Order(deps, names, []);
    OrderClosed(deps, names, [], {});
    if x in r {
      OrderRooted(deps, names, [], x);
    }
    if a :| a in Elems(names) && Reach(E, a, x) {
      ClosedReach(E, Elems(r), a, x);
    }
  }

  // ---------- the order of the components ----------

  /** A component is completed before another one if its nodes are met first, unless the other reaches it. */
  ghost predicate CompletedInOrder(E: set<(Node, Node)>, order: seq<Node>, sccs: seq<seq<Node>>) {
    forall i, j, p, q :: 0 <= i < j < |sccs| && 0 <= p < |order| && 0 <= q < |order| && order[p] in sccs[i] && order[q] in sccs[j] ==>
                           p < q || Reach(E, order[q], order[p])
  }

  /** Inside a component the nodes met last come first. */
  ghost predicate LatestFirst(order: seq<Node>, sccs: seq<seq<Node>>) {
    forall k, a, b, p, q ::
      (0 <= k < |sccs| && 0 <= a < b < |sccs[k]| && 0 <= p < |order| && 0 <= q < |order|
       && order[p] == sccs[k][a] && order[q] == sccs[k][b]) ==> q < p
  }

  /** What the first names reach is completed before everything else. */
  ghost predicate NameOrder(E: set<(Node, Node)>, names: seq<Node>, sccs: seq<seq<Node>>) {
    forall k, i, j, x, y ::
      (0 <= k <= |names| && 0 <= i < j < |sccs| && x in sccs[i] && y in sccs[j] && HasRoot(E, Elems(names[..k]), y)) ==>
        HasRoot(E, Elems(names[..k]), x)
  }

  /** Of what a node reaches and is met after it, what its first targets reach is completed before everything else. */
  ghost predicate TargetOrder(deps: Deps, order: seq<Node>, sccs: seq<seq<Node>>) {
    forall p, k, i, j, x, y ::
      (0 <= p < |order| && 0 <= k <= |Targets(deps, order[p])| && 0 <= i < j < |sccs| && x in sccs[i] && y in sccs[j]
       && x !in order[..p + 1] && Reach(Edges(deps), order[p], x)
       && HasRoot(Edges(deps), Elems(Targets(deps, order[p])[..k]), y)) ==>
        HasRoot(Edges(deps), Elems(Targets(deps, order[p])[..k]), x)
  }

  lemma MetBefore(E: set<(Node, Node)>, order: seq<Node>, front: seq<Node>, sccs: seq<seq<Node>>, i: nat, j: nat, x: Node, y: Node)
    requires CompletedInOrder(E, order, sccs) && front <= order
    requires i < j < |sccs| && x in sccs[i] && y in sccs[j] && x in order && y in front && x !in front
    ensures Reach(E, y, x)
  {
    var q :| 0 <= q < |front| && front[q] == y;
    var p :| 0 <= p < |order| && order[p] == x;
    assert forall l :: 0 <= l < |front| ==> front[l] == order[l];
    assert order[q] == y;
  }

  lemma RootStep(E: set<(Node, Node)>, A: set<Node>, y: Node, x: Node)
    requires HasRoot(E, A, y) && Reach(E, y, x)
    ensures HasRoot(E, A, x)
  {
    var r :| r in A && Reach(E, r, y);
    ReachTrans(E, r, y, x);
  }

  lemma NamesInOrder(deps: Deps, names: seq<Node>, sccs: seq<seq<Node>>)
    requires CompletedInOrder(Edges(deps), Order(deps, names, []), sccs) && Finished(sccs) <= Elems(Order(deps, names, []))
    ensures NameOrder(Edges(deps), names, sccs)
  {
    var E, order := Edges(deps), Order(deps, names, []);
    forall k, i, j, x, y | 0 <= k <= |names| && 0 <= i < j < |sccs| && x in sccs[i] && y in sccs[j]
                           && HasRoot(E, Elems(names[..k]), y)
      ensures HasRoot(E, Elems(names[..k]), x)
    {
      var front := Order(deps, names[..k], []);
      assert names == names[..k] + names[k..];
      OrderSplit(deps, names[..k], names[k..], []);
      OrderExtends(deps, names[k..], front);
      OrderExact(deps, names[..k], x);
      OrderExact(deps, names[..k], y);
      assert x in Finished(sccs);
      if x !in front {
        MetBefore(E, order, front, sccs, i, j, x, y);
        RootStep(E, Elems(names[..k]), y, x);
      }
    }
  }

  // ---------- the nodes that wait ----------

  ghost predicate WaitsAt(E: set<(Node, Node)>, todo: seq<Node>, z: Node, y: Node, m: nat) {
    m < |todo| && todo[m] == y && forall l :: 0 <= l <= m ==> Reach(E, z, todo[l])
  }

  /** A target that is not met yet waits behind nodes that its source reaches. */
  ghost predicate Waiting(deps: Deps, todo: seq<Node>, seen: seq<Node>) {
    forall z, y :: (z, y) in Edges(deps) && z in seen && y !in seen ==> exists m: nat :: WaitsAt(Edges(deps), todo, z, y, m)
  }

  lemma WaitSkip(deps: Deps, todo: seq<Node>, seen: seq<Node>)
    requires todo != [] && todo[0] in seen && Waiting(deps, todo, seen)
    ensures Waiting(deps, todo[1..], seen)
  {
    forall z, y | (z, y) in Edges(deps) && z in seen && y !in seen
      ensures exists m: nat :: WaitsAt(Edges(deps), todo[1..], z, y, m)
    {
      var m: nat :| WaitsAt(Edges(deps), todo, z, y, m);
      assert WaitsAt(Edges(deps), todo[1..], z, y, m - 1);
    }
  }

  lemma WaitEnter(deps: Deps, todo: seq<Node>, seen: seq<Node>)
    requires todo != [] && todo[0] !in seen && Waiting(deps, todo, seen)
    ensures Waiting(deps, Targets(deps, todo[0]) + todo[1..], seen + [todo[0]])
  {
    var E, v, ts := Edges(deps), todo[0], Targets(deps, todo[0]);
    forall w | w in ts
      ensures Reach(E, v, w)
    {
      TargetsEdges(deps, v, w);
      ReachEdge(E, v, w);
    }
    forall z, y | (z, y) in E && z in seen + [v] && y !in seen + [v]
      ensures exists m: nat :: WaitsAt(E, ts + todo[1..], z, y, m)
    {
      if z in seen {
        var m: nat :| WaitsAt(E, todo, z, y, m);
        WaitBehind(E, todo, ts, z, y, m);
      } else {
        TargetsEdges(deps, v, y);
        var m :| 0 <= m < |ts| && ts[m] == y;
        assert WaitsAt(E, ts + todo[1..], z, y, m);
      }
    }
  }

  lemma WaitBehind(E: set<(Node, Node)>, todo: seq<Node>, ts: seq<Node>, z: Node, y: Node, m: nat)
    requires WaitsAt(E, todo, z, y, m) && m > 0 && forall w :: w in ts ==> Reach(E, todo[0], w)
    ensures WaitsAt(E, ts + todo[1..], z, y, |ts| + m - 1)
  {
    var next := ts + todo[1..];
    forall l | 0 <= l <= |ts| + m - 1
      ensures Reach(E, z, next[l])
    {
      if l < |ts| {
        ReachTrans(E, z, todo[0], ts[l]);
      } else {
        assert next[l] == todo[l - |ts| + 1];
      }
    }
  }

  /** When the node at `p` is met, the nodes before it are the seen ones. */
  lemma {:induction false} StateAt(deps: Deps, todo: seq<Node>, seen: seq<Node>, p: nat) returns (rest: seq<Node>)
    requires Waiting(deps, todo, seen) && |seen| <= p < |Order(deps, todo, seen)|
    ensures var order := Order(deps, todo, seen);
            && order[p] !in order[..p] && Waiting(deps, [order[p]] + rest, order[..p])
            && Order(deps, [order[p]] + rest, order[..p]) == order
    decreases Unseen(deps, todo, seen), |todo|
  {
    if todo[0] in seen {
      SkipSmaller(deps, todo, seen);
      WaitSkip(deps, todo, seen);
      rest := StateAt(deps, todo[1..], seen, p);
    } else {
      ExpandSmaller(deps, todo, seen);
      OrderExtends(deps, Targets(deps, todo[0]) + todo[1..], seen + [todo[0]]);
      if p == |seen| {
        rest := todo[1..];
        assert [todo[0]] + rest == todo;
        assert Order(deps, todo, seen)[p] == todo[0] && Order(deps, todo, seen)[..p] == seen;
      } else {
        WaitEnter(deps, todo, seen);
        rest := StateAt(deps, Targets(deps, todo[0]) + todo[1..], seen + [todo[0]], p);
      }
    }
  }

  /** A walk that leaves a set does so by some edge. */
  lemma {:induction false} LeavingEdge(E: set<(Node, Node)>, C: set<Node>, a: Node, p: seq<Node>, b: Node) returns (z: Node, y: Node)
    requires a in C && b !in C && Walk(E, a, p, b)
    ensures (z, y) in E && z in C && y !in C && Reach(E, a, z)
    decreases |p|
  {
    if p[0] in C {
      z, y := LeavingEdge(E, C, p[0], p[1..], b);
      ReachEdge(E, a, p[0]);
      ReachTrans(E, a, p[0], z);
    } else {
      ReachRefl(E, a);
      z, y := a, p[0];
    }
  }

  /** What the first targets of `v` reach is met by the time they are done, unless they lead back to `v`. */
  lemma {:induction false} TargetsMet(deps: Deps, v: Node, rest: seq<Node>, seen: seq<Node>, k: nat, y: Node)
    requires v !in seen && Waiting(deps, [v] + rest, seen) && k <= |Targets(deps, v)|
    requires HasRoot(Edges(deps), Elems(Targets(deps, v)[..k]), y)
    ensures y in Order(deps, Targets(deps, v)[..k], seen + [v]) || HasRoot(Edges(deps), Elems(Targets(deps, v)[..k]), v)
  {
    var E, ts := Edges(deps), Targets(deps, v)[..k];
    var met := Order(deps, ts, seen + [v]);
    OrderExtends(deps, ts, seen + [v]);
    OrderClosed(deps, ts, seen + [v], Elems(seen + [v]));
    if y !in met {
      var r :| r in Elems(ts) && Reach(E, r, y);
      var path :| Walk(E, r, path, y);
      var z, z' := LeavingEdge(E, Elems(met), r, path, y);
      NotMet(met, seen + [v], z');
      LeadsBack(deps, v, rest, seen, z, z');
      ReachTrans(E, r, z, v);
    }
  }

  lemma LeadsBack(deps: Deps, v: Node, rest: seq<Node>, seen: seq<Node>, z: Node, y: Node)
    requires Waiting(deps, [v] + rest, seen) && (z, y) in Edges(deps) && z in seen + [v] && y !in seen + [v]
    ensures Reach(Edges(deps), z, v)
  {
    if z in seen {
      var m: nat :| WaitsAt(Edges(deps), [v] + rest, z, y, m);
      assert Reach(Edges(deps), z, ([v] + rest)[0]);
    } else {
      ReachRefl(Edges(deps), v);
    }
  }

  lemma NotMet(met: seq<Node>, seen: seq<Node>, y: Node)
    requires seen <= met && y !in met
    ensures y !in seen
  {
    assert forall i :: 0 <= i < |seen| ==> met[i] == seen[i];
  }

  lemma {:induction false} TargetsInOrder(deps: Deps, names: seq<Node>, sccs: seq<seq<Node>>)
    requires CompletedInOrder(Edges(deps), Order(deps, names, []), sccs) && Finished(sccs) <= Elems(Order(deps, names, []))
    ensures TargetOrder(deps, Order(deps, names, []), sccs)
  {
    var E, order := Edges(deps), Order(deps, names, []);
    forall p, k, i, j, x, y | 0 <= p < |order| && 0 <= k <= |Targets(deps, order[p])| && 0 <= i < j < |sccs|
                              && x in sccs[i] && y in sccs[j] && x !in order[..p + 1]
                              && Reach(Edges(deps), order[p], x)
                              && HasRoot(Edges(deps), Elems(Targets(deps, order[p])[..k]), y)
      ensures HasRoot(Edges(deps), Elems(Targets(deps, order[p])[..k]), x)
    {
      assert x in Finished(sccs);
      TargetsInOrderAt(deps, names, sccs, p, k, i, j, x, y);
    }
  }

  lemma {:induction false} TargetsInOrderAt(deps: Deps, names: seq<Node>, sccs: seq<seq<Node>>, p: nat, k: nat, i: nat, j: nat, x: Node, y: Node)
    requires CompletedInOrder(Edges(deps), Order(deps, names, []), sccs)
    requires p < |Order(deps, names, [])| && i < j < |sccs| && x in sccs[i] && y in sccs[j]
    requires var order := Order(deps, names, []);
             && k <= |Targets(deps, order[p])| && x in order && x !in order[..p + 1]
             && Reach(Edges(deps), order[p], x) && HasRoot(Edges(deps), Elems(Targets(deps, order[p])[..k]), y)
    ensures HasRoot(Edges(deps), Elems(Targets(deps, Order(deps, names, [])[p])[..k]), x)
  {
    var order := Order(deps, names, []);
    var rest := StateAt(deps, names, [], p);
    assert order[..p + 1] == order[..p] + [order[p]];
    MetFirst(deps, order[p], rest, order[..p], k);
    FirstTargetsFirst(deps, order, order[p], rest, order[..p], sccs, k, i, j, x, y);
  }

  /** The nodes met by the time that the first targets of `v` are done. */
  lemma {:induction false} MetFirst(deps: Deps, v: Node, rest: seq<Node>, seen: seq<Node>, k: nat)
    requires v !in seen && k <= |Targets(deps, v)|
    ensures Order(deps, Targets(deps, v)[..k], seen + [v]) <= Order(deps, [v] + rest, seen)
  {
    var ts := Targets(deps, v);
    OrderEnter(deps, v, rest, seen);
    assert ts + rest == ts[..k] + (ts[k..] + rest);
    OrderSplit(deps, ts[..k], ts[k..] + rest, seen + [v]);
    OrderExtends(deps, ts[k..] + rest, Order(deps, ts[..k], seen + [v]));
  }

  lemma {:induction false} FirstTargetsFirst(deps: Deps, order: seq<Node>, v: Node, rest: seq<Node>, seen: seq<Node>,
                                             sccs: seq<seq<Node>>, k: nat, i: nat, j: nat, x: Node, y: Node)
    requires v !in seen && Waiting(deps, [v] + rest, seen) && k <= |Targets(deps, v)|
    requires CompletedInOrder(Edges(deps), order, sccs) && Order(deps, Targets(deps, v)[..k], seen + [v]) <= order
    requires i < j < |sccs| && x in sccs[i] && y in sccs[j] && x in order && x !in seen + [v] && Reach(Edges(deps), v, x)
    requires HasRoot(Edges(deps), Elems(Targets(deps, v)[..k]), y)
    ensures HasRoot(Edges(deps), Elems(Targets(deps, v)[..k]), x)
  {
    var E, ts := Edges(deps), Targets(deps, v)[..k];
    var met := Order(deps, ts, seen + [v]);
    TargetsMet(deps, v, rest, seen, k, y);
    if x in met {
      OrderRooted(deps, ts, seen + [v], x);
    } else if y in met {
      MetBefore(E, order, met, sccs, i, j, x, y);
      RootStep(E, Elems(ts), y, x);
    } else {
      RootStep(E, Elems(ts), v, x);
    }
  }

  // ---------- the order in the tables of the search ----------

  /** `order` lists the visited nodes by index. */
  ghost predicate Indexed(order: seq<Node>, s: State) {
    && |order| == s.index
    && (forall x :: x in s.indexOf ==> s.indexOf[x] < |order| && order[s.indexOf[x]] == x)
    && (forall p :: 0 <= p < |order| ==> order[p] in s.indexOf && s.indexOf[order[p]] == p)
  }

  /** The nodes of `a` were met before those of `b`, unless these reach them. */
  ghost predicate Precedes(E: set<(Node, Node)>, indexOf: map<Node, nat>, a: seq<Node>, b: seq<Node>) {
    forall x, y :: x in a && y in b ==> x in indexOf && y in indexOf && (indexOf[x] < indexOf[y] || Reach(E, y, x))
  }

  ghost predicate EmittedInOrder(E: set<(Node, Node)>, s: State) {
    forall i, j :: 0 <= i < j < |s.sccs| ==> Precedes(E, s.indexOf, s.sccs[i], s.sccs[j])
  }

  /** The nodes are listed by falling index. */
  ghost predicate Falling(indexOf: map<Node, nat>, comp: seq<Node>) {
    forall a, b {:trigger comp[a], comp[b]} :: 0 <= a < b < |comp| ==> comp[a] in indexOf && comp[b] in indexOf && indexOf[comp[b]] < indexOf[comp[a]]
  }

  ghost predicate AllFalling(s: State) {
    forall k :: 0 <= k < |s.sccs| ==> Falling(s.indexOf, s.sccs[k])
  }

  ghost predicate Met(E: set<(Node, Node)>, order: seq<Node>, s: State) {
    Indexed(order, s) && EmittedInOrder(E, s) && AllFalling(s)
  }

  /** `v` reaches everything visited since `s0`. */
  ghost predicate ReachedSince(E: set<(Node, Node)>, s0: State, s: State, v: Node) {
    forall x :: x in s.indexOf && x !in s0.indexOf ==> Reach(E, v, x)
  }

  lemma MetPush(E: set<(Node, Node)>, order: seq<Node>, s: State, v: Node)
    requires Met(E, order, s) && v !in s.indexOf
    ensures Met(E, order + [v], Push(s, v)) && ReachedSince(E, s, Push(s, v), v)
  {
    ReachRefl(E, v);
    IndexedPush(order, s, v);
    forall i, j | 0 <= i < j < |s.sccs|
      ensures Precedes(E, Push(s, v).indexOf, s.sccs[i], s.sccs[j])
    {
      PrecedesPush(E, s.indexOf, s.sccs[i], s.sccs[j], v, s.index);
    }
    forall k | 0 <= k < |s.sccs|
      ensures Falling(Push(s, v).indexOf, s.sccs[k])
    {
      FallingPush(s.indexOf, s.sccs[k], v, s.index);
    }
  }

  lemma PrecedesPush(E: set<(Node, Node)>, indexOf: map<Node, nat>, a: seq<Node>, b: seq<Node>, v: Node, n: nat)
    requires Precedes(E, indexOf, a, b) && v !in indexOf
    ensures Precedes(E, indexOf[v := n], a, b)
  {
    forall x, y | x in a && y in b
      ensures x in indexOf && y in indexOf && x != v && y != v
    {
    }
  }

  lemma FallingPush(indexOf: map<Node, nat>, comp: seq<Node>, v: Node, n: nat)
    requires Falling(indexOf, comp) && v !in indexOf
    ensures Falling(indexOf[v := n], comp)
  {
  }

  lemma IndexedPush(order: seq<Node>, s: State, v: Node)
    requires Indexed(order, s) && v !in s.indexOf
    ensures Indexed(order + [v], Push(s, v))
  {
  }

  lemma ReachedThrough(E: set<(Node, Node)>, s0: State, s: State, s1: State, v: Node, w: Node)
    requires ReachedSince(E, s0, s, v) && ReachedSince(E, s, s1, w) && (v, w) in E
    ensures ReachedSince(E, s0, s1, v)
  {
    ReachEdge(E, v, w);
    forall x | x in s1.indexOf && x !in s0.indexOf
      ensures Reach(E, v, x)
    {
      if x !in s.indexOf {
        ReachTrans(E, v, w, x);
      }
    }
  }

  lemma EmittedIsScc(E: set<(Node, Node)>, s: State, k: nat)
    requires k <= |s.stack| && SccInv(E, Emit(s, k).sccs)
    ensures IsScc(E, Popped(s.stack, k))
  {
    assert Emit(s, k).sccs[|s.sccs|] == Popped(s.stack, k);
  }

  lemma MetEmit(E: set<(Node, Node)>, order: seq<Node>, s0: State, s: State, v: Node)
    requires Met(E, order, s) && ReachedSince(E, s0, s, v) && Exploring(s0, s, v) && Extends(s0, s)
    requires ShapeInv(s) && ShapeInv(s0) && IsScc(E, Popped(s.stack, |s0.stack|))
    ensures Met(E, order, Emit(s, |s0.stack|))
  {
    var comp := Popped(s.stack, |s0.stack|);
    assert comp[|comp| - 1] == v;
    forall i | 0 <= i < |s.sccs|
      ensures Precedes(E, s.indexOf, s.sccs[i], comp)
    {
      EmittedPrecede(E, s0, s, v, comp, i);
    }
    FallingPopped(s, |s0.stack|);
    OneMoreEmitted(E, s, comp, Emit(s, |s0.stack|));
  }

  lemma OneMoreEmitted(E: set<(Node, Node)>, s: State, comp: seq<Node>, t: State)
    requires EmittedInOrder(E, s) && AllFalling(s) && t.indexOf == s.indexOf && t.sccs == s.sccs + [comp]
    requires Falling(s.indexOf, comp) && forall i :: 0 <= i < |s.sccs| ==> Precedes(E, s.indexOf, s.sccs[i], comp)
    ensures EmittedInOrder(E, t) && AllFalling(t)
  {
  }

  lemma EmittedPrecede(E: set<(Node, Node)>, s0: State, s: State, v: Node, comp: seq<Node>, k: nat)
    requires ReachedSince(E, s0, s, v) && Exploring(s0, s, v) && Extends(s0, s) && ShapeInv(s) && ShapeInv(s0)
    requires comp == Popped(s.stack, |s0.stack|) && IsScc(E, comp) && v in comp && k < |s.sccs|
    ensures Precedes(E, s.indexOf, s.sccs[k], comp)
  {
    forall x, y | x in s.sccs[k] && y in comp
      ensures x in s.indexOf && y in s.indexOf && (s.indexOf[x] < s.indexOf[y] || Reach(E, y, x))
    {
      assert x in Finished(s.sccs) && Mutual(E, y, v);
      OnPopped(s0, s, v, comp, y);
      LaterOrReached(E, s0, s, v, x, y);
    }
  }

  lemma OnPopped(s0: State, s: State, v: Node, comp: seq<Node>, y: Node)
    requires ShapeInv(s) && Exploring(s0, s, v) && comp == Popped(s.stack, |s0.stack|) && y in comp
    ensures y in s.indexOf && s.indexOf[y] >= s0.index
  {
    var i :| 0 <= i < |comp| && comp[i] == y;
    OnSegment(s0, s, v, |s.stack| - 1 - i);
  }

  lemma LaterOrReached(E: set<(Node, Node)>, s0: State, s: State, v: Node, x: Node, y: Node)
    requires ReachedSince(E, s0, s, v) && Extends(s0, s) && ShapeInv(s0) && Reach(E, y, v)
    requires x in s.indexOf && y in s.indexOf && s.indexOf[y] >= s0.index
    ensures s.indexOf[x] < s.indexOf[y] || Reach(E, y, x)
  {
    if x !in s0.indexOf {
      ReachTrans(E, y, v, x);
    }
  }

  lemma OnSegment(s0: State, s: State, v: Node, i: nat)
    requires ShapeInv(s) && Exploring(s0, s, v) && |s0.stack| <= i < |s.stack|
    ensures s.stack[i] in s.indexOf && s.indexOf[s.stack[i]] >= s0.index
  {
    assert s.stack[i] in s.onStack;
  }

  lemma FallingPopped(s: State, k: nat)
    requires ShapeInv(s) && k <= |s.stack|
    ensures Falling(s.indexOf, Popped(s.stack, k))
  {
    forall i | 0 <= i < |s.stack|
      ensures s.stack[i] in s.indexOf
    {
      assert s.stack[i] in s.onStack;
    }
  }

  lemma MetCompleted(E: set<(Node, Node)>, order: seq<Node>, s: State)
    requires Met(E, order, s)
    ensures CompletedInOrder(E, order, s.sccs) && LatestFirst(order, s.sccs) && Distinct(order)
  {
    forall k | 0 <= k < |s.sccs|
      ensures Falling(s.indexOf, s.sccs[k])
    {
    }
  }
}
