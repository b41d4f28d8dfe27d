/** Which routes can fail, following same-entity `call` edges
    (cambrian-transpiler/src/analysis/route_facts.rs). */
module FailClosure {
  import opened Graphs

  /** Entity name and route name. */
  type Key = (string, string)

  datatype RouteFacts = RouteFacts(localFailSurface: bool, callCallees: seq<string>)

  datatype FailPropagation = FailPropagation(sameEntityCalls: bool, crossEntitySends: bool, rescueCuts: bool)

  type Facts = map<Key, RouteFacts>

  ghost function CallEdges(facts: Facts): set<(Key, Key)> {
    set k, t | k in facts && t in facts && t.0 == k.0 && t.1 in facts[k].callCallees :: (k, t)
  }

  /** A chain of calls leads from `k` to a route that fails on its own. */
  ghost predicate CanFail(facts: Facts, k: Key) {
    exists t :: t in facts && facts[t].localFailSurface && Reach(CallEdges(facts), k, t)
  }

  ghost function Local(facts: Facts): set<Key> {
    set k | k in facts && facts[k].localFailSurface
  }

  ghost function Failing(facts: Facts): set<Key> {
    set k | k in facts && CanFail(facts, k)
  }

  ghost predicate IsFixpoint(facts: Facts, F: set<Key>) {
    && Local(facts) <= F
    && (forall k, t :: (k, t) in CallEdges(facts) && t in F ==> k in F)
  }

  /** `CanFail` is contained in every set closed under the propagation rule. */
  lemma LeastFixpoint(facts: Facts, F: set<Key>, k: Key)
    requires IsFixpoint(facts, F) && k in facts && CanFail(facts, k)
    ensures k in F
  {
    var t :| t in facts && facts[t].localFailSurface && Reach(CallEdges(facts), k, t);
    if k !in F {
      ClosedReach(CallEdges(facts), facts.Keys - F, k, t);
    }
  }

  lemma CanFailIsFixpoint(facts: Facts)
    ensures IsFixpoint(facts, Failing(facts))
  {
    forall k | k in facts && facts[k].localFailSurface
      ensures CanFail(facts, k)
    {
      ReachRefl(CallEdges(facts), k);
    }
    forall k, t | (k, t) in CallEdges(facts) && CanFail(facts, t)
      ensures CanFail(facts, k)
    {
      PropagateSound(facts, k, t);
    }
  }

  lemma PropagateSound(facts: Facts, k: Key, t: Key)
    requires (k, t) in CallEdges(facts) && CanFail(facts, t)
    ensures CanFail(facts, k)
  {
    var u :| u in facts && facts[u].localFailSurface && Reach(CallEdges(facts), t, u);
    ReachEdge(CallEdges(facts), k, t);
    ReachTrans(CallEdges(facts), k, t, u);
  }

  predicate Propagates(facts: Facts, canFail: map<Key, bool>, k: Key)
    requires k in facts
  {
    exists c :: c in facts[k].callCallees && (k.0, c) in canFail && canFail[(k.0, c)]
  }

  ghost function Marked(canFail: map<Key, bool>): set<Key> {
    set k | k in canFail && canFail[k]
  }

  /** The table is between the local surfaces and the closure. */
  ghost predicate Table(facts: Facts, canFail: map<Key, bool>) {
    canFail.Keys == facts.Keys && Local(facts) <= Marked(canFail) <= Failing(facts)
  }

  ghost predicate Settled(facts: Facts, canFail: map<Key, bool>, ks: set<Key>) {
    forall k :: k in ks && k in facts && k in canFail && !canFail[k] ==> !Propagates(facts, canFail, k)
  }

  /** Nothing left to propagate: the table is the closure. */
  lemma SettledIsExact(facts: Facts, canFail: map<Key, bool>)
    requires Table(facts, canFail)
    requires Settled(facts, canFail, facts.Keys)
    ensures forall k :: k in facts ==> (canFail[k] <==> CanFail(facts, k))
  {
    var F := Marked(canFail);
    forall k, t | (k, t) in CallEdges(facts) && t in F
      ensures k in F
    {
      assert t == (k.0, t.1);
    }
    forall k | k in facts
      ensures canFail[k] <==> CanFail(facts, k)
    {
      assert canFail[k] <==> k in F;
      if CanFail(facts, k) {
        LeastFixpoint(facts, F, k);
      }
    }
  }

  lemma MarkStep(facts: Facts, canFail: map<Key, bool>, k: Key)
    requires Table(facts, canFail) && k in facts && !canFail[k] && Propagates(facts, canFail, k)
    ensures Table(facts, canFail[k := true])
    ensures Marked(canFail) < Marked(canFail[k := true])
  {
    var c :| c in facts[k].callCallees && (k.0, c) in canFail && canFail[(k.0, c)];
    assert (k, (k.0, c)) in CallEdges(facts) && (k.0, c) in Marked(canFail);
    PropagateSound(facts, k, (k.0, c));
    assert Marked(canFail[k := true]) == Marked(canFail) + {k};
    assert k in Marked(canFail[k := true]) && k !in Marked(canFail);
  }

  /** One sweep over all routes, in any order. */
  method Sweep(facts: Facts, canFail0: map<Key, bool>) returns (canFail: map<Key, bool>, changed: bool)
    requires Table(facts, canFail0)
    ensures Table(facts, canFail)
    ensures if changed then Marked(canFail0) < Marked(canFail) else canFail == canFail0
    ensures !changed ==> Settled(facts, canFail, facts.Keys)
  {
    canFail, changed := canFail0, false;
    var rest := facts.Keys;
    while rest != {}
      invariant rest <= facts.Keys && Table(facts, canFail)
      invariant if changed then Marked(canFail0) < Marked(canFail) else canFail == canFail0
      invariant !changed ==> Settled(facts, canFail, facts.Keys - rest)
    {
      var k :| k in rest;
      rest := rest - {k};
      if !canFail[k] && Propagates(facts, canFail, k) {
        MarkStep(facts, canFail, k);
        canFail, changed := canFail[k := true], true;
      }
    }
  }

  method FailClosure(facts: Facts, policy: FailPropagation) returns (canFail: map<Key, bool>)
    ensures canFail.Keys == facts.Keys
    ensures forall k :: k in facts ==>
                          canFail[k] == if policy.sameEntityCalls then CanFail(facts, k) else facts[k].localFailSurface
  {
    canFail := map k | k in facts :: facts[k].localFailSurface;
    if !policy.sameEntityCalls {
      return;
    }
    forall k | k in facts && canFail[k]
      ensures CanFail(facts, k)
    {
      ReachRefl(CallEdges(facts), k);
    }
    var changed := true;
    while changed
      invariant Table(facts, canFail)
      invariant !changed ==> Settled(facts, canFail, facts.Keys)
      decreases facts.Keys - Marked(canFail), changed
    {
      ghost var before := canFail;
      canFail, changed := Sweep(facts, canFail);
      assert changed ==> facts.Keys - Marked(canFail) < facts.Keys - Marked(before);
    }
    SettledIsExact(facts, canFail);
  }
}
