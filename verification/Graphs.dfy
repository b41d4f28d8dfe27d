/** Finite directed graphs given by their edge sets, and reachability in them.
    Every ordering pass of the transpiler is specified in these terms. */
module Graphs {

  /** `p` lists, in order, the nodes visited after `a` on a walk that ends in `b`. */
  ghost predicate Walk<N>(E: set<(N, N)>, a: N, p: seq<N>, b: N)
    decreases |p|
  {
    if p == [] then a == b else (a, p[0]) in E && Walk(E, p[0], p[1..], b)
  }

  ghost predicate Reach<N(!new)>(E: set<(N, N)>, a: N, b: N) {
    exists p: seq<N> :: Walk(E, a, p, b)
  }

  /** Reachability by at least one edge. */
  ghost predicate ReachPlus<N(!new)>(E: set<(N, N)>, a: N, b: N) {
    exists c :: (a, c) in E && Reach(E, c, b)
  }

  /** Some node of `roots` reaches `x`. */
  ghost predicate HasRoot<N(!new)>(E: set<(N, N)>, roots: set<N>, x: N) {
    exists r :: r in roots && Reach(E, r, x)
  }

  ghost predicate Mutual<N(!new)>(E: set<(N, N)>, a: N, b: N) {
    Reach(E, a, b) && Reach(E, b, a)
  }

  ghost predicate Acyclic<N(!new)>(E: set<(N, N)>) {
    forall x :: !ReachPlus(E, x, x)
  }

  ghost predicate Closed<N(!new)>(E: set<(N, N)>, C: set<N>) {
    forall x, y :: (x, y) in E && x in C ==> y in C
  }

  lemma {:induction false} WalkConcat<N(!new)>(E: set<(N, N)>, a: N, p: seq<N>, b: N, q: seq<N>, c: N)
    requires Walk(E, a, p, b) && Walk(E, b, q, c)
    ensures Walk(E, a, p + q, c)
    decreases |p|
  {
    if p == [] {
      assert p + q == q;
    } else {
      WalkConcat(E, p[0], p[1..], b, q, c);
      assert (p + q)[1..] == p[1..] + q;
    }
  }

  lemma ReachRefl<N(!new)>(E: set<(N, N)>, a: N)
    ensures Reach(E, a, a)
  {
    assert Walk(E, a, [], a);
  }

  lemma ReachEdge<N(!new)>(E: set<(N, N)>, a: N, b: N)
    requires (a, b) in E
    ensures Reach(E, a, b)
  {
    assert Walk(E, b, [], b);
    assert [b][1..] == [];
    assert Walk(E, a, [b], b);
  }

  lemma ReachTrans<N(!new)>(E: set<(N, N)>, a: N, b: N, c: N)
    requires Reach(E, a, b) && Reach(E, b, c)
    ensures Reach(E, a, c)
  {
    var p :| Walk(E, a, p, b);
    var q :| Walk(E, b, q, c);
    WalkConcat(E, a, p, b, q, c);
  }

  lemma ReachStep<N(!new)>(E: set<(N, N)>, a: N, b: N, c: N)
    requires Reach(E, a, b) && (b, c) in E
    ensures Reach(E, a, c)
  {
    ReachEdge(E, b, c);
    ReachTrans(E, a, b, c);
  }

  /** No walk leaves a set that no edge leaves. */
  lemma {:induction false} ClosedWalk<N(!new)>(E: set<(N, N)>, C: set<N>, a: N, p: seq<N>, b: N)
    requires Closed(E, C) && a in C && Walk(E, a, p, b)
    ensures b in C
    decreases |p|
  {
    if p != [] {
      ClosedWalk(E, C, p[0], p[1..], b);
    }
  }

  lemma ClosedReach<N(!new)>(E: set<(N, N)>, C: set<N>, a: N, b: N)
    requires Closed(E, C) && a in C && Reach(E, a, b)
    ensures b in C
  {
    var p :| Walk(E, a, p, b);
    ClosedWalk(E, C, a, p, b);
  }

  lemma ReachPlusTrans<N(!new)>(E: set<(N, N)>, a: N, b: N, c: N)
    requires ReachPlus(E, a, b) && Reach(E, b, c)
    ensures ReachPlus(E, a, c)
  {
    var d :| (a, d) in E && Reach(E, d, b);
    ReachTrans(E, d, b, c);
  }

  lemma ReachIsReflPlus<N(!new)>(E: set<(N, N)>, a: N, b: N)
    ensures Reach(E, a, b) <==> a == b || ReachPlus(E, a, b)
  {
    if Reach(E, a, b) {
      var p :| Walk(E, a, p, b);
      if p != [] {
        assert Walk(E, p[0], p[1..], b);
        assert Reach(E, p[0], b);
      }
    }
    if a == b {
      ReachRefl(E, a);
    }
    if ReachPlus(E, a, b) {
      var c :| (a, c) in E && Reach(E, c, b);
      ReachEdge(E, a, c);
      ReachTrans(E, a, c, b);
    }
  }

  /** Every target of a listed node is listed before it. */
  ghost predicate TargetsFirst<N(!new)>(E: set<(N, N)>, order: seq<N>) {
    forall i, b :: 0 <= i < |order| && (order[i], b) in E ==> b in order[..i]
  }

  ghost predicate AllListed<N(!new)>(E: set<(N, N)>, order: seq<N>) {
    forall a, b :: (a, b) in E ==> a in order
  }

  lemma PrefixClosed<N(!new)>(E: set<(N, N)>, order: seq<N>, k: nat)
    requires TargetsFirst(E, order) && k <= |order|
    requires forall i, j :: 0 <= i < j < |order| ==> order[i] != order[j]
    ensures Closed(E, set x | x in order[..k])
  {
    forall a, b | (a, b) in E && a in order[..k]
      ensures b in order[..k]
    {
      var i :| 0 <= i < k && order[i] == a;
      assert b in order[..i];
      assert order[..i] == order[..k][..i];
    }
  }

  /** Only an acyclic graph has an order that lists targets first. */
  lemma TargetsFirstAcyclic<N(!new)>(E: set<(N, N)>, order: seq<N>)
    requires TargetsFirst(E, order) && AllListed(E, order)
    requires forall i, j :: 0 <= i < j < |order| ==> order[i] != order[j]
    ensures Acyclic(E)
  {
    forall x: N
      ensures !ReachPlus(E, x, x)
    {
      if ReachPlus(E, x, x) {
        var y :| (x, y) in E && Reach(E, y, x);
        var i :| 0 <= i < |order| && order[i] == x;
        PrefixClosed(E, order, i);
        ClosedReach(E, (set z | z in order[..i]), y, x);
        assert false;
      }
    }
  }
}
