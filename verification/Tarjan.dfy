/** Strongly connected components (cambrian-transpiler/src/graph.rs): the
    recursive traversal over shared mutable tables, the two post-passes, and
    what the returned list of components means. */
module Tarjan {
  import opened Graphs
  import opened Sequences
  import opened TarjanState
  import opened Discovery

  class Search {
    const deps: Deps
    var indexOf: map<Node, nat>
    var lowlink: map<Node, nat>
    var onStack: set<Node>
    var stack: seq<Node>
    var index: nat
    var sccs: seq<seq<Node>>
    /** The visited nodes in the order in which they were met. */
    ghost var order: seq<Node>

    ghost function Now(): State
      reads this
    {
      State(indexOf, lowlink, onStack, stack, index, sccs)
    }

    constructor (deps: Deps)
      ensures this.deps == deps && Now() == State(map[], map[], {}, [], 0, []) && order == []
    {
      this.deps := deps;
      indexOf, lowlink, onStack, stack, index, sccs := map[], map[], {}, [], 0, [];
      order := [];
    }

    /** `rest` is what the search has ahead of it behind `v`. */
    method StrongConnect(v: Node, ghost roots: set<Node>, ghost gray: set<Node>, ghost universe: set<Node>, ghost rest: seq<Node>, ghost whole: seq<Node>)
      requires Inv(Edges(deps), roots, gray, Now())
      requires v !in indexOf && v in universe && deps.Keys <= universe
      requires forall g :: g in gray ==> Reach(Edges(deps), g, v)
      requires HasRoot(Edges(deps), roots, v) && Met(Edges(deps), order, Now())
      requires Order(deps, [v] + rest, order) == whole
      modifies this
      ensures Inv(Edges(deps), roots, gray, Now())
      ensures CallPost(Edges(deps), old(Now()), Now(), v)
      ensures Met(Edges(deps), order, Now()) && ReachedSince(Edges(deps), old(Now()), Now(), v)
      ensures Order(deps, rest, order) == whole
      decreases universe - indexOf.Keys, 0
    {
      ghost var E := Edges(deps);
      ghost var s0 := Now();
      PushStep(E, roots, gray, s0, v);
      MetPush(E, order, s0, v);
      OrderEnter(deps, v, rest, order);
      Enter(v);
      ghost var handled := if v in deps then Elems(deps[v]) else {};
      if v in deps {
        VisitCallees(v, s0, roots, gray, universe, rest, whole);
      } else {
        assert Targets(deps, v) + rest == rest;
      }
      assert forall y :: (v, y) in E ==> y in handled;
      Leave(v, s0, roots, gray, handled);
    }

    method Enter(v: Node)
      modifies this
      ensures Now() == Push(old(Now()), v) && order == old(order) + [v]
    {
      indexOf := indexOf[v := index];
      lowlink := lowlink[v := index];
      index := index + 1;
      stack := stack + [v];
      onStack := onStack + {v};
      order := order + [v];
    }

    /** Emits the component of `v`, or leaves `v` on the stack. */
    method Leave(v: Node, ghost s0: State, ghost roots: set<Node>, ghost gray: set<Node>, ghost handled: set<Node>)
      requires LoopInv(Edges(deps), roots, gray, s0, Now(), v, handled) && gray <= Elems(s0.stack)
      requires forall y :: (v, y) in Edges(deps) ==> y in handled
      requires Met(Edges(deps), order, Now()) && ReachedSince(Edges(deps), s0, Now(), v) && ShapeInv(s0)
      modifies this
      ensures Inv(Edges(deps), roots, gray, Now())
      ensures CallPost(Edges(deps), s0, Now(), v)
      ensures Met(Edges(deps), order, Now()) && ReachedSince(Edges(deps), s0, Now(), v)
      ensures order == old(order)
    {
      ghost var s := Now();
      assert v in s.indexOf && v in s.lowlink;
      if lowlink[v] == indexOf[v] {
        EmitStep(Edges(deps), roots, gray, s0, s, v, handled);
        StackDistinct(s);
        EmittedIsScc(Edges(deps), s, |s0.stack|);
        MetEmit(Edges(deps), order, s0, s, v);
        PopComponent(v, |s0.stack|);
      } else {
        KeepStep(Edges(deps), roots, gray, s0, s, v, handled);
      }
    }

    /** One step of the traversal over the given names. */
    method VisitName(n: Node, ghost roots: set<Node>, ghost rest: seq<Node>, ghost whole: seq<Node>)
      requires Inv(Edges(deps), roots, {}, Now()) && n in roots && Met(Edges(deps), order, Now())
      requires Order(deps, [n] + rest, order) == whole
      modifies this
      ensures Inv(Edges(deps), roots, {}, Now()) && Met(Edges(deps), order, Now())
      ensures Order(deps, rest, order) == whole
      ensures n in indexOf && old(indexOf.Keys) <= indexOf.Keys
    {
      if n !in indexOf {
        ReachRefl(Edges(deps), n);
        assert HasRoot(Edges(deps), roots, n);
        StrongConnect(n, roots, {}, roots + deps.Keys, rest, whole);
      } else {
        OrderSkip(deps, n, rest, order);
      }
    }

    /** The loop over the callees of `v`. */
    method VisitCallees(v: Node, ghost s0: State, ghost roots: set<Node>, ghost gray: set<Node>,
                        ghost universe: set<Node>, ghost rest: seq<Node>, ghost whole: seq<Node>)
      requires LoopInv(Edges(deps), roots, gray, s0, Now(), v, {})
      requires v in deps && v !in s0.indexOf && v in universe && deps.Keys <= universe
      requires forall g :: g in gray ==> Reach(Edges(deps), g, v)
      requires HasRoot(Edges(deps), roots, v)
      requires Met(Edges(deps), order, Now()) && ReachedSince(Edges(deps), s0, Now(), v)
      requires Order(deps, Targets(deps, v) + rest, order) == whole
      modifies this
      ensures LoopInv(Edges(deps), roots, gray, s0, Now(), v, Elems(deps[v]))
      ensures Met(Edges(deps), order, Now()) && ReachedSince(Edges(deps), s0, Now(), v)
      ensures Order(deps, rest, order) == whole
      decreases universe - indexOf.Keys, 4
    {
      var callees := deps[v];
      HandledEnds(callees);
      AheadEnds(deps, v, rest);
      var i := 0;
      while i < |callees|
        invariant 0 <= i <= |callees|
        invariant LoopInv(Edges(deps), roots, gray, s0, Now(), v, Handled(callees, i))
        invariant old(indexOf).Keys <= indexOf.Keys
        invariant Met(Edges(deps), order, Now()) && ReachedSince(Edges(deps), s0, Now(), v)
        invariant Order(deps, Ahead(deps, callees, i, rest), order) == whole
      {
        VisitNext(v, i, s0, roots, gray, universe, rest, whole);
        i := i + 1;
      }
    }

    method VisitNext(v: Node, i: nat, ghost s0: State, ghost roots: set<Node>, ghost gray: set<Node>,
                     ghost universe: set<Node>, ghost rest: seq<Node>, ghost whole: seq<Node>)
      requires v in deps && i < |deps[v]| && v !in s0.indexOf && v in universe && deps.Keys <= universe
      requires LoopInv(Edges(deps), roots, gray, s0, Now(), v, Handled(deps[v], i))
      requires forall g :: g in gray ==> Reach(Edges(deps), g, v)
      requires HasRoot(Edges(deps), roots, v)
      requires Met(Edges(deps), order, Now()) && ReachedSince(Edges(deps), s0, Now(), v)
      requires Order(deps, Ahead(deps, deps[v], i, rest), order) == whole
      modifies this
      ensures LoopInv(Edges(deps), roots, gray, s0, Now(), v, Handled(deps[v], i + 1))
      ensures old(indexOf).Keys <= indexOf.Keys
      ensures Met(Edges(deps), order, Now()) && ReachedSince(Edges(deps), s0, Now(), v)
      ensures Order(deps, Ahead(deps, deps[v], i + 1, rest), order) == whole
      decreases universe - indexOf.Keys, 3
    {
      HandledStep(deps[v], i);
      AheadStep(deps, deps[v], i, rest);
      VisitCallee(v, deps[v][i], s0, roots, gray, universe, Handled(deps[v], i), Ahead(deps, deps[v], i + 1, rest), whole);
    }

    method VisitCallee(v: Node, w: Node, ghost s0: State, ghost roots: set<Node>, ghost gray: set<Node>,
                       ghost universe: set<Node>, ghost handled: set<Node>, ghost rest: seq<Node>, ghost whole: seq<Node>)
      requires LoopInv(Edges(deps), roots, gray, s0, Now(), v, handled)
      requires v in deps && w in deps[v] && v !in s0.indexOf && v in universe && deps.Keys <= universe
      requires forall g :: g in gray ==> Reach(Edges(deps), g, v)
      requires HasRoot(Edges(deps), roots, v)
      requires Met(Edges(deps), order, Now()) && ReachedSince(Edges(deps), s0, Now(), v)
      requires Order(deps, Keyed(deps, [w]) + rest, order) == whole
      modifies this
      ensures LoopInv(Edges(deps), roots, gray, s0, Now(), v, handled + {w})
      ensures old(indexOf).Keys <= indexOf.Keys
      ensures Met(Edges(deps), order, Now()) && ReachedSince(Edges(deps), s0, Now(), v)
      ensures Order(deps, rest, order) == whole
      decreases universe - indexOf.Keys, 2
    {
      ghost var E := Edges(deps);
      ghost var s := Now();
      KeyedOne(deps, w, rest);
      if w !in deps {
        SkipStep(E, roots, gray, s0, s, v, handled, w);
      } else {
        assert (v, w) in E;
        if w !in indexOf {
          Descend(v, w, s0, roots, gray, universe, handled, rest, whole);
        } else if w in onStack {
          OnStackStep(E, roots, gray, s0, s, v, handled, w);
          OrderSkip(deps, w, rest, order);
          Lower(v, indexOf[w]);
        } else {
          OrderSkip(deps, w, rest, order);
          SkipStep(E, roots, gray, s0, s, v, handled, w);
        }
      }
    }

    method Descend(v: Node, w: Node, ghost s0: State, ghost roots: set<Node>, ghost gray: set<Node>,
                   ghost universe: set<Node>, ghost handled: set<Node>, ghost rest: seq<Node>, ghost whole: seq<Node>)
      requires LoopInv(Edges(deps), roots, gray, s0, Now(), v, handled)
      requires (v, w) in Edges(deps) && w !in indexOf && v !in s0.indexOf && v in universe && deps.Keys <= universe
      requires forall g :: g in gray ==> Reach(Edges(deps), g, v)
      requires HasRoot(Edges(deps), roots, v)
      requires Met(Edges(deps), order, Now()) && ReachedSince(Edges(deps), s0, Now(), v)
      requires Order(deps, [w] + rest, order) == whole
      modifies this
      ensures LoopInv(Edges(deps), roots, gray, s0, Now(), v, handled + {w})
      ensures old(indexOf).Keys <= indexOf.Keys
      ensures Met(Edges(deps), order, Now()) && ReachedSince(Edges(deps), s0, Now(), v)
      ensures Order(deps, rest, order) == whole
      decreases universe - indexOf.Keys, 1
    {
      ghost var s := Now();
      TargetReached(Edges(deps), roots, gray, v, w);
      StrongConnect(w, roots, gray + {v}, universe, rest, whole);
      ghost var s1 := Now();
      CallStep(Edges(deps), roots, gray, s0, s, s1, v, handled, w);
      ReachedThrough(Edges(deps), s0, s, s1, v, w);
      Lower(v, lowlink[w]);
    }

    method Lower(v: Node, low: nat)
      requires v in lowlink
      modifies this
      ensures Now() == LowerTo(old(Now()), v, low) && order == old(order)
    {
      lowlink := lowlink[v := Min(lowlink[v], low)];
    }

    /** Pops the stack down to and including `v`. */
    method PopComponent(v: Node, ghost k: nat)
      requires Distinct(stack) && k < |stack| && stack[k] == v
      modifies this
      ensures Now() == Emit(old(Now()), k) && order == old(order)
    {
      ghost var s := Now();
      var comp: seq<Node> := [];
      PopNone(s);
      while true
        invariant k < |stack| <= |s.stack|
        invariant Popping(s, Now(), comp, |stack|) && order == old(order)
        decreases |stack|
      {
        var w := stack[|stack| - 1];
        PopOne(s, Now(), comp);
        stack := stack[..|stack| - 1];
        onStack := onStack - {w};
        comp := comp + [w];
        if w == v {
          break;
        }
      }
      sccs := sccs + [comp];
    }
  }

  /** The first `i` of the callees. */
  ghost function Handled(callees: seq<Node>, i: nat): set<Node>
    requires i <= |callees|
  {
    Elems(callees[..i])
  }

  lemma HandledEnds(callees: seq<Node>)
    ensures Handled(callees, 0) == {} && Handled(callees, |callees|) == Elems(callees)
  {
    assert callees[..|callees|] == callees;
  }

  lemma HandledStep(callees: seq<Node>, i: nat)
    requires i < |callees|
    ensures Handled(callees, i + 1) == Handled(callees, i) + {callees[i]}
  {
    assert callees[..i + 1] == callees[..i] + [callees[i]];
  }

  lemma TargetReached(E: set<(Node, Node)>, roots: set<Node>, gray: set<Node>, v: Node, w: Node)
    requires (v, w) in E && HasRoot(E, roots, v)
    requires forall g :: g in gray ==> Reach(E, g, v)
    ensures HasRoot(E, roots, w)
    ensures forall g :: g in gray + {v} ==> Reach(E, g, w)
  {
    var r :| r in roots && Reach(E, r, v);
    ReachStep(E, r, v, w);
    forall g | g in gray + {v}
      ensures Reach(E, g, w)
    {
      if g == v {
        ReachEdge(E, v, w);
      } else {
        ReachStep(E, g, v, w);
      }
    }
  }

  /** The pop loop, entered in `s`, has left `m` nodes on the stack. */
  ghost predicate Popping(s: State, t: State, comp: seq<Node>, m: nat) {
    && m <= |s.stack|
    && comp == Popped(s.stack, m)
    && t == s.(stack := s.stack[..m], onStack := s.onStack - Segment(s, m))
  }

  lemma PopNone(s: State)
    ensures Popping(s, s, [], |s.stack|)
  {
    assert s.stack[..|s.stack|] == s.stack;
  }

  lemma PopOne(s: State, t: State, comp: seq<Node>)
    requires 0 < |t.stack| && Popping(s, t, comp, |t.stack|)
    ensures var m := |t.stack| - 1;
            Popping(s, t.(stack := t.stack[..m], onStack := t.onStack - {t.stack[m]}), comp + [t.stack[m]], m)
  {
    var m := |t.stack| - 1;
    assert s.stack[m..] == [s.stack[m]] + s.stack[m + 1..];
    assert s.stack[..m + 1][..m] == s.stack[..m];
  }
}
