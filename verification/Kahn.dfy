/** What any run of Kahn's algorithm computes, whatever it picks next: shared by
    the temporal order of members and the deployment order of instances. */
module Kahn {
  import opened Graphs
  import opened Sequences

  /** An edge `(x, d)` says that `x` needs `d`. `x` is ready when all it needs is done. */
  ghost predicate Ready<N(!new)>(E: set<(N, N)>, nodes: set<N>, done: seq<N>, x: N) {
    x in nodes && x !in done && forall d :: (x, d) in E ==> d in done
  }

  ghost predicate Within<N(!new)>(E: set<(N, N)>, nodes: set<N>) {
    forall x, d :: (x, d) in E ==> x in nodes && d in nodes
  }

  ghost predicate Run<N(!new)>(E: set<(N, N)>, nodes: set<N>, order: seq<N>) {
    Distinct(order) && (forall x :: x in order ==> x in nodes) && TargetsFirst(E, order)
  }

  ghost predicate Stuck<N(!new)>(E: set<(N, N)>, nodes: set<N>, order: seq<N>) {
    forall x :: !Ready(E, nodes, order, x)
  }

  ghost predicate NeedsCycle<N(!new)>(E: set<(N, N)>, x: N) {
    exists c :: Reach(E, x, c) && ReachPlus(E, c, c)
  }

  lemma RunStep<N(!new)>(E: set<(N, N)>, nodes: set<N>, order: seq<N>, x: N)
    requires Run(E, nodes, order) && Ready(E, nodes, order, x)
    ensures Run(E, nodes, order + [x])
  {
    var next := order + [x];
    forall i, d | 0 <= i < |next| && (next[i], d) in E
      ensures d in next[..i]
    {
      assert i < |order| ==> next[..i] == order[..i];
      assert i == |order| ==> next[..i] == order;
    }
  }

  ghost function Beyond<N(!new)>(E: set<(N, N)>, rest: set<N>, x: N): set<N> {
    set y | y in rest && ReachPlus(E, x, y)
  }

  lemma BeyondShrinks<N(!new)>(E: set<(N, N)>, rest: set<N>, x: N, y: N)
    requires (x, y) in E && y in rest && !ReachPlus(E, y, y)
    ensures Beyond(E, rest, y) < Beyond(E, rest, x)
  {
    ReachRefl(E, y);
    assert y in Beyond(E, rest, x) && y !in Beyond(E, rest, y);
    forall z | ReachPlus(E, y, z)
      ensures ReachPlus(E, x, z)
    {
      ReachIsReflPlus(E, y, z);
    }
  }

  ghost predicate NeedsOneOf<N>(E: set<(N, N)>, rest: set<N>, x: N) {
    exists z :: z in rest && (x, z) in E
  }

  /** Following needs inside a set where everything needs something leads to a cycle. */
  lemma {:induction false} LeadsToCycle<N(!new)>(E: set<(N, N)>, rest: set<N>, x: N)
    requires x in rest && forall y {:trigger NeedsOneOf(E, rest, y)} :: y in rest ==> NeedsOneOf(E, rest, y)
    ensures NeedsCycle(E, x)
    decreases Beyond(E, rest, x)
  {
    if ReachPlus(E, x, x) {
      ReachRefl(E, x);
    } else {
      assert NeedsOneOf(E, rest, x);
      var y :| y in rest && (x, y) in E;
      ReachEdge(E, x, y);
      if !ReachPlus(E, y, y) {
        BeyondShrinks(E, rest, x, y);
        LeadsToCycle(E, rest, y);
        var c :| Reach(E, y, c) && ReachPlus(E, c, c);
        ReachTrans(E, x, y, c);
      }
    }
  }

  lemma RunAvoidsCycles<N(!new)>(E: set<(N, N)>, nodes: set<N>, order: seq<N>, x: N)
    requires Run(E, nodes, order) && x in order
    ensures !NeedsCycle(E, x)
  {
    if c :| Reach(E, x, c) && ReachPlus(E, c, c) {
      assert order[..|order|] == order;
      PrefixClosed(E, order, |order|);
      ClosedReach(E, (set z | z in order), x, c);
      var y :| (c, y) in E && Reach(E, y, c);
      var i :| 0 <= i < |order| && order[i] == c;
      PrefixClosed(E, order, i);
      ClosedReach(E, (set z | z in order[..i]), y, c);
      assert false;
    }
  }

  /** A run that cannot go on lists exactly the nodes that do not depend on a cycle. */
  lemma StuckRun<N(!new)>(E: set<(N, N)>, nodes: set<N>, order: seq<N>)
    requires Within(E, nodes) && Run(E, nodes, order) && Stuck(E, nodes, order)
    ensures forall x :: x in nodes ==> (x in order <==> !NeedsCycle(E, x))
    ensures |order| == |nodes| <==> Acyclic(E)
  {
    forall x | x in nodes
      ensures x in order <==> !NeedsCycle(E, x)
    {
      if x in order {
        RunAvoidsCycles(E, nodes, order, x);
      } else {
        var rest := set y | y in nodes && y !in order;
        forall y | y in rest
          ensures NeedsOneOf(E, rest, y)
        {
          assert !Ready(E, nodes, order, y);
        }
        LeadsToCycle(E, rest, x);
      }
    }
    DistinctLength(order, nodes);
    AcyclicIff(E, nodes);
  }

  lemma AcyclicIff<N(!new)>(E: set<(N, N)>, nodes: set<N>)
    requires Within(E, nodes)
    ensures Acyclic(E) <==> forall x :: x in nodes ==> !NeedsCycle(E, x)
  {
    forall x
      ensures ReachPlus(E, x, x) ==> x in nodes && NeedsCycle(E, x)
    {
      if ReachPlus(E, x, x) {
        ReachRefl(E, x);
      }
    }
  }

  // ---------- counting unmet dependencies ----------

  /** How many entries of `s` are in `S`. */
  ghost function CountIn<N>(s: seq<N>, S: set<N>): nat {
    if s == [] then 0 else (if s[|s| - 1] in S then 1 else 0) + CountIn(s[..|s| - 1], S)
  }

  /** How often `x` is listed in `s`. */
  ghost function Times<N>(s: seq<N>, x: N): nat {
    if s == [] then 0 else (if s[|s| - 1] == x then 1 else 0) + Times(s[..|s| - 1], x)
  }

  lemma {:induction false} Snoc<N(!new)>(s: seq<N>, y: N)
    ensures forall x :: Times(s + [y], x) == Times(s, x) + (if x == y then 1 else 0)
    ensures forall S :: CountIn(s + [y], S) == CountIn(s, S) + (if y in S then 1 else 0)
  {
    assert (s + [y])[..|s|] == s;
  }

  lemma {:induction false} CountRemove<N>(s: seq<N>, S: set<N>, d: N)
    requires d in S
    ensures CountIn(s, S) == CountIn(s, S - {d}) + Times(s, d)
  {
    if s != [] {
      CountRemove(s[..|s| - 1], S, d);
    }
  }

  lemma {:induction false} CountZero<N(!new)>(s: seq<N>, S: set<N>)
    ensures CountIn(s, S) == 0 <==> forall x :: x in s ==> x !in S
  {
    if s != [] {
      CountZero(s[..|s| - 1], S);
      assert s == s[..|s| - 1] + [s[|s| - 1]];
    }
  }

  /** A node is ready when it is not done and nothing it lists is missing. */
  lemma NoneMissing<N(!new)>(E: set<(N, N)>, nodes: set<N>, done: seq<N>, x: N, need: seq<N>)
    requires x in nodes && forall d :: (x, d) in E <==> d in need && d in nodes
    ensures x !in done && CountIn(need, nodes - Elems(done)) == 0 <==> Ready(E, nodes, done, x)
  {
    CountZero(need, nodes - Elems(done));
  }

  /** While the dependents of `d` are updated one after the other, `left` is what is still
      counted for a node `x`: the unmet entries of `need`, less the first `k` updates. */
  ghost predicate Counted<N>(need: seq<N>, unmet: set<N>, neighbors: seq<N>, k: nat, x: N, left: int) {
    k <= |neighbors| && left + Times(neighbors[..k], x) == CountIn(need, unmet)
  }

  lemma CountedAll<N>(need: seq<N>, unmet: set<N>, d: N, neighbors: seq<N>, x: N, left: int)
    requires d in unmet && Times(neighbors, x) == Times(need, d)
    requires Counted(need, unmet, neighbors, |neighbors|, x, left)
    ensures left == CountIn(need, unmet - {d})
  {
    assert neighbors[..|neighbors|] == neighbors;
    CountRemove(need, unmet, d);
  }

  /** A dependent that is still to be updated has an entry left. */
  lemma CountedNext<N(!new)>(need: seq<N>, unmet: set<N>, d: N, neighbors: seq<N>, k: nat, x: N, left: int)
    requires d in unmet && Times(neighbors, x) == Times(need, d) && k < |neighbors|
    requires Counted(need, unmet, neighbors, k, x, left)
    ensures Counted(need, unmet, neighbors, k + 1, x, left - (if x == neighbors[k] then 1 else 0))
    ensures x == neighbors[k] ==> left > 0
  {
    NeighborLeft(neighbors, k);
    CountRemove(need, unmet, d);
    Snoc(neighbors[..k], neighbors[k]);
  }

  lemma {:induction false} NeighborLeft<N>(neighbors: seq<N>, i: nat)
    requires i < |neighbors|
    ensures neighbors[..i + 1] == neighbors[..i] + [neighbors[i]]
    ensures Times(neighbors[..i], neighbors[i]) < Times(neighbors, neighbors[i])
    decreases |neighbors|
  {
    var n := |neighbors| - 1;
    if i < n {
      NeighborLeft(neighbors[..n], i);
      assert neighbors[..n][..i] == neighbors[..i];
    }
  }
}
