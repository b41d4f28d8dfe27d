/** The variables of Tarjan's algorithm as one value, the invariant that every
    step of the recursion keeps, and one lemma per kind of step. */
module TarjanState {
  import opened Graphs
  import opened Sequences

  type Node = string
  type Deps = map<Node, seq<Node>>

  datatype State = State(
    indexOf: map<Node, nat>,
    lowlink: map<Node, nat>,
    onStack: set<Node>,
    stack: seq<Node>,
    index: nat,
    sccs: seq<seq<Node>>)

  /** Edges to names outside the key set of `deps` are ignored. */
  ghost function Edges(deps: Deps): set<(Node, Node)> {
    set v, w | v in deps && w in deps[v] && w in deps :: (v, w)
  }

  /** All nodes of the components in `sccs`. */
  ghost function Finished(sccs: seq<seq<Node>>): set<Node> {
    set k, x | 0 <= k < |sccs| && x in sccs[k] :: x
  }

  /** `comp` lists, once each, the nodes of one mutual-reachability class. */
  ghost predicate IsScc(E: set<(Node, Node)>, comp: seq<Node>) {
    && comp != []
    && Distinct(comp)
    && forall x, y :: x in comp ==> (y in comp <==> Mutual(E, x, y))
  }

  /** No edge points from a component to one emitted after it. */
  ghost predicate CalleesFirst(E: set<(Node, Node)>, sccs: seq<seq<Node>>) {
    forall i, j, x, y :: 0 <= i < |sccs| && 0 <= j < |sccs| && x in sccs[i] && y in sccs[j] && (x, y) in E ==> j <= i
  }

  ghost predicate PairwiseDisjoint(sccs: seq<seq<Node>>) {
    forall i, j, x :: 0 <= i < j < |sccs| && x in sccs[i] ==> x !in sccs[j]
  }

  // ---------- the invariant ----------

  ghost predicate ShapeInv(s: State) {
    && s.lowlink.Keys == s.indexOf.Keys
    && s.onStack == Elems(s.stack)
    && s.onStack !! Finished(s.sccs)
    && s.indexOf.Keys == s.onStack + Finished(s.sccs)
    && (forall x :: x in s.indexOf ==> s.indexOf[x] < s.index)
    && (forall i, j :: 0 <= i < j < |s.stack| ==> s.indexOf[s.stack[i]] < s.indexOf[s.stack[j]])
  }

  /** From `stack[i]` there is a way back to a node, at or below it, that is still being explored. */
  ghost predicate Anchored(E: set<(Node, Node)>, gray: set<Node>, stack: seq<Node>, i: nat) {
    exists j :: 0 <= j <= i < |stack| && stack[j] in gray && Reach(E, stack[i], stack[j])
  }

  ghost predicate GraphInv(E: set<(Node, Node)>, roots: set<Node>, gray: set<Node>, s: State) {
    && gray <= s.onStack
    && (forall x, y :: (x, y) in E && x in s.indexOf && x !in gray ==> y in s.indexOf)
    && (forall i, j {:trigger Reach(E, s.stack[i], s.stack[j])} :: 0 <= i <= j < |s.stack| ==> Reach(E, s.stack[i], s.stack[j]))
    && (forall i :: 0 <= i < |s.stack| ==> Anchored(E, gray, s.stack, i))
    && (forall x {:trigger HasRoot(E, roots, x)} :: x in s.indexOf ==> HasRoot(E, roots, x))
  }

  ghost predicate SccInv(E: set<(Node, Node)>, sccs: seq<seq<Node>>) {
    && (forall k :: 0 <= k < |sccs| ==> IsScc(E, sccs[k]))
    && PairwiseDisjoint(sccs)
    && CalleesFirst(E, sccs)
    && Closed(E, Finished(sccs))
  }

  ghost predicate Inv(E: set<(Node, Node)>, roots: set<Node>, gray: set<Node>, s: State) {
    ShapeInv(s) && GraphInv(E, roots, gray, s) && SccInv(E, s.sccs)
  }

  /** What no step ever undoes. */
  ghost predicate Extends(s0: State, s1: State) {
    && s0.indexOf.Keys <= s1.indexOf.Keys
    && (forall x :: x in s0.indexOf ==> s1.indexOf[x] == s0.indexOf[x])
    && s0.stack <= s1.stack
    && s0.sccs <= s1.sccs
    && s0.index <= s1.index
  }

  ghost predicate LowlinksKept(s0: State, s1: State) {
    s0.indexOf.Keys <= s0.lowlink.Keys * s1.lowlink.Keys
    && forall x :: x in s0.indexOf ==> s1.lowlink[x] == s0.lowlink[x]
  }

  /** Some node of `stack[..k]` that `v` reaches has index `low`. */
  ghost predicate Witness(E: set<(Node, Node)>, s: State, k: nat, v: Node, low: nat) {
    exists j :: 0 <= j < k && j < |s.stack| && s.stack[j] in s.indexOf && s.indexOf[s.stack[j]] == low && Reach(E, v, s.stack[j])
  }

  function Min(a: nat, b: nat): nat {
    if a < b then a else b
  }

  /** `low` bounds the index of every node below height `k` that an edge enters from height `from` or above. */
  ghost predicate Bounds(E: set<(Node, Node)>, s: State, from: nat, k: nat, low: nat) {
    forall i, j :: from <= i < |s.stack| && 0 <= j < k && j < |s.stack| && (s.stack[i], s.stack[j]) in E ==>
                     s.stack[j] in s.indexOf && low <= s.indexOf[s.stack[j]]
  }

  /** What one call `strongconnect(v)` has achieved when it returns. */
  ghost predicate CallPost(E: set<(Node, Node)>, s0: State, s1: State, v: Node) {
    && Extends(s0, s1)
    && LowlinksKept(s0, s1)
    && v in s1.indexOf && v in s1.lowlink
    && Bounds(E, s1, |s0.stack|, |s0.stack|, s1.lowlink[v])
    && (if v in s1.onStack
        then |s0.stack| < |s1.stack| && s1.stack[|s0.stack|] == v && Witness(E, s1, |s0.stack|, v, s1.lowlink[v])
        else s1.stack == s0.stack && s1.lowlink[v] >= s0.index)
  }

  /** Every handled target of `v` has been visited, and `low` bounds the index of those below height `k`. */
  ghost predicate TargetBounds(E: set<(Node, Node)>, s: State, k: nat, v: Node, handled: set<Node>, low: nat) {
    && (forall y :: y in handled && (v, y) in E ==> y in s.indexOf)
    && (forall j :: 0 <= j < k && j < |s.stack| && s.stack[j] in handled && (v, s.stack[j]) in E ==>
                      s.stack[j] in s.indexOf && low <= s.indexOf[s.stack[j]])
  }

  /** `v` is being explored at stack height `k`. */
  ghost predicate Exploring(s0: State, s: State, v: Node) {
    && |s0.stack| < |s.stack| && s.stack[|s0.stack|] == v
    && v in s.indexOf && v in s.lowlink && s.indexOf[v] == s0.index
    && s.lowlink[v] <= s.indexOf[v]
  }

  /** What holds while `strongconnect(v)`, started in `s0`, has handled the
      set `handled` of the targets of `v`. */
  ghost predicate LoopInv(E: set<(Node, Node)>, roots: set<Node>, gray: set<Node>,
                          s0: State, s: State, v: Node, handled: set<Node>) {
    && Inv(E, roots, gray + {v}, s)
    && Extends(s0, s)
    && LowlinksKept(s0, s)
    && Exploring(s0, s, v)
    && Witness(E, s, |s0.stack| + 1, v, s.lowlink[v])
    && Bounds(E, s, |s0.stack| + 1, |s0.stack|, s.lowlink[v])
    && TargetBounds(E, s, |s0.stack|, v, handled, s.lowlink[v])
  }

  // ---------- entering a node ----------

  function Push(s: State, v: Node): State {
    State(s.indexOf[v := s.index], s.lowlink[v := s.index], s.onStack + {v}, s.stack + [v], s.index + 1, s.sccs)
  }

  lemma StackReachesNew(E: set<(Node, Node)>, roots: set<Node>, gray: set<Node>, s: State, v: Node, i: nat)
    requires GraphInv(E, roots, gray, s) && i < |s.stack|
    requires forall g :: g in gray ==> Reach(E, g, v)
    ensures Reach(E, s.stack[i], v)
  {
    assert Anchored(E, gray, s.stack, i);
    var j :| 0 <= j <= i && s.stack[j] in gray && Reach(E, s.stack[i], s.stack[j]);
    ReachTrans(E, s.stack[i], s.stack[j], v);
  }

  lemma AnchoredMono(E: set<(Node, Node)>, gray: set<Node>, stack: seq<Node>, gray': set<Node>,
                     stack': seq<Node>, i: nat)
    requires Anchored(E, gray, stack, i) && gray <= gray' && stack <= stack'
    ensures Anchored(E, gray', stack', i)
  {
    var j :| 0 <= j <= i < |stack| && stack[j] in gray && Reach(E, stack[i], stack[j]);
    assert stack'[j] == stack[j] && stack'[i] == stack[i];
  }

  lemma PushShape(s: State, v: Node)
    requires ShapeInv(s) && v !in s.indexOf
    ensures ShapeInv(Push(s, v))
  {
    var t := Push(s, v);
    assert t.indexOf.Keys == s.indexOf.Keys + {v};
    forall i | 0 <= i < |s.stack|
      ensures s.stack[i] in s.indexOf && s.stack[i] != v
    {
      assert s.stack[i] in s.onStack;
    }
  }

  lemma PushGraph(E: set<(Node, Node)>, roots: set<Node>, gray: set<Node>, s: State, v: Node)
    requires ShapeInv(s) && GraphInv(E, roots, gray, s) && v !in s.indexOf
    requires forall g :: g in gray ==> Reach(E, g, v)
    requires HasRoot(E, roots, v)
    ensures GraphInv(E, roots, gray + {v}, Push(s, v))
  {
    var t := Push(s, v);
    assert t.indexOf.Keys == s.indexOf.Keys + {v};
    forall i, j | 0 <= i <= j < |t.stack|
      ensures Reach(E, t.stack[i], t.stack[j])
    {
      if i == |s.stack| {
        ReachRefl(E, v);
      } else if j == |s.stack| {
        StackReachesNew(E, roots, gray, s, v, i);
      }
    }
    forall i | 0 <= i < |t.stack|
      ensures Anchored(E, gray + {v}, t.stack, i)
    {
      if i < |s.stack| {
        AnchoredMono(E, gray, s.stack, gray + {v}, t.stack, i);
      } else {
        ReachRefl(E, v);
        assert t.stack[i] == v;
      }
    }
  }

  lemma PushStep(E: set<(Node, Node)>, roots: set<Node>, gray: set<Node>, s: State, v: Node)
    requires Inv(E, roots, gray, s) && v !in s.indexOf
    requires forall g :: g in gray ==> Reach(E, g, v)
    requires HasRoot(E, roots, v)
    ensures LoopInv(E, roots, gray, s, Push(s, v), v, {})
  {
    PushShape(s, v);
    PushGraph(E, roots, gray, s, v);
    ReachRefl(E, v);
    var t := Push(s, v);
    assert t.stack[|s.stack|] == v;
  }

  // ---------- one target of the current node ----------

  function LowerTo(s: State, v: Node, low: nat): State
    requires v in s.lowlink
  {
    s.(lowlink := s.lowlink[v := Min(s.lowlink[v], low)])
  }

  lemma LowerKeepsInv(E: set<(Node, Node)>, roots: set<Node>, gray: set<Node>, s: State, v: Node, low: nat)
    requires Inv(E, roots, gray, s) && v in s.lowlink
    ensures Inv(E, roots, gray, LowerTo(s, v, low))
  {
    var t := LowerTo(s, v, low);
    assert t.lowlink.Keys == s.lowlink.Keys;
  }

  /** A target outside the key set, or one whose component is already emitted, changes nothing. */
  lemma SkipStep(E: set<(Node, Node)>, roots: set<Node>, gray: set<Node>, s0: State, s: State, v: Node,
                 handled: set<Node>, w: Node)
    requires LoopInv(E, roots, gray, s0, s, v, handled)
    requires (v, w) in E ==> w in s.indexOf && w !in s.onStack
    ensures LoopInv(E, roots, gray, s0, s, v, handled + {w})
  {
    if (v, w) in E {
      assert w !in s.stack;
    }
  }

  lemma OnStackStep(E: set<(Node, Node)>, roots: set<Node>, gray: set<Node>, s0: State, s: State, v: Node,
                    handled: set<Node>, w: Node)
    requires LoopInv(E, roots, gray, s0, s, v, handled)
    requires (v, w) in E && w in s.indexOf && w in s.onStack && v !in s0.indexOf
    ensures LoopInv(E, roots, gray, s0, LowerTo(s, v, s.indexOf[w]), v, handled + {w})
  {
    var k := |s0.stack|;
    var t := LowerTo(s, v, s.indexOf[w]);
    LowerKeepsInv(E, roots, gray + {v}, s, v, s.indexOf[w]);
    LowerTargets(E, s, t, k, v, handled, w);
    OnStackWitness(E, s0, s, v, w);
  }

  lemma OnStackWitness(E: set<(Node, Node)>, s0: State, s: State, v: Node, w: Node)
    requires ShapeInv(s) && Exploring(s0, s, v) && (v, w) in E && w in s.indexOf && w in s.onStack
    requires Witness(E, s, |s0.stack| + 1, v, s.lowlink[v])
    ensures var t := LowerTo(s, v, s.indexOf[w]);
            Witness(E, t, |s0.stack| + 1, v, t.lowlink[v])
  {
    var k := |s0.stack|;
    var t := LowerTo(s, v, s.indexOf[w]);
    if s.indexOf[w] < s.lowlink[v] {
      var j := BelowIndex(s, k, w);
      ReachEdge(E, v, w);
      assert t.stack[j] == w;
    } else {
      WitnessKept(E, s, t, k + 1, v, s.lowlink[v]);
    }
  }

  lemma LowerTargets(E: set<(Node, Node)>, s: State, t: State, k: nat, v: Node, handled: set<Node>, w: Node)
    requires w in s.indexOf && v in s.lowlink && t == LowerTo(s, v, s.indexOf[w])
    requires TargetBounds(E, s, k, v, handled, s.lowlink[v])
    requires Bounds(E, s, k + 1, k, s.lowlink[v])
    ensures TargetBounds(E, t, k, v, handled + {w}, t.lowlink[v])
    ensures Bounds(E, t, k + 1, k, t.lowlink[v])
  {
  }

  /** Stack nodes with a smaller index than `stack[k]` are below it. */
  lemma BelowIndex(s: State, k: nat, w: Node) returns (j: nat)
    requires ShapeInv(s) && k < |s.stack| && w in s.onStack && s.stack[k] in s.indexOf
    requires w in s.indexOf && s.indexOf[w] < s.indexOf[s.stack[k]]
    ensures j < k && s.stack[j] == w
  {
    j :| 0 <= j < |s.stack| && s.stack[j] == w;
    if j > k {
      assert false;
    }
  }

  lemma WitnessKept(E: set<(Node, Node)>, s: State, t: State, k: nat, v: Node, low: nat)
    requires Witness(E, s, k, v, low)
    requires k <= |s.stack| && s.stack <= t.stack && s.indexOf.Keys <= t.indexOf.Keys
    requires forall x :: x in s.indexOf ==> t.indexOf[x] == s.indexOf[x]
    ensures Witness(E, t, k, v, low)
  {
    var j :| 0 <= j < k && j < |s.stack| && s.stack[j] in s.indexOf && s.indexOf[s.stack[j]] == low && Reach(E, v, s.stack[j]);
    assert t.stack[j] == s.stack[j];
  }

  lemma ExtendsTrans(s0: State, s1: State, s2: State)
    requires Extends(s0, s1) && Extends(s1, s2)
    ensures Extends(s0, s2)
  {
    assert s2.stack[..|s0.stack|] == s1.stack[..|s0.stack|] == s0.stack;
    assert s2.sccs[..|s0.sccs|] == s1.sccs[..|s0.sccs|] == s0.sccs;
  }

  /** The recursive call on `w` lowers the witness of `v` only to a node that `v` reaches. */
  lemma CallWitness(E: set<(Node, Node)>, s0: State, s: State, s1: State, v: Node, w: Node)
    requires ShapeInv(s) && Exploring(s0, s, v) && w in s1.lowlink
    requires Witness(E, s, |s0.stack| + 1, v, s.lowlink[v])
    requires (v, w) in E && CallPost(E, s, s1, w)
    ensures Witness(E, s1, |s0.stack| + 1, v, Min(s.lowlink[v], s1.lowlink[w]))
  {
    var k := |s0.stack|;
    if s1.lowlink[w] < s.lowlink[v] {
      LowerWitness(E, s0, s, s1, v, w);
    } else {
      WitnessKept(E, s, s1, k + 1, v, s.lowlink[v]);
    }
  }

  lemma LowerWitness(E: set<(Node, Node)>, s0: State, s: State, s1: State, v: Node, w: Node)
    requires ShapeInv(s) && Exploring(s0, s, v) && w in s1.lowlink && Extends(s, s1)
    requires (v, w) in E && Witness(E, s1, |s.stack|, w, s1.lowlink[w]) && s1.lowlink[w] < s.lowlink[v]
    ensures Witness(E, s1, |s0.stack| + 1, v, s1.lowlink[w])
  {
    var j :| 0 <= j < |s.stack| && s1.stack[j] in s1.indexOf && s1.indexOf[s1.stack[j]] == s1.lowlink[w] && Reach(E, w, s1.stack[j]);
    assert s1.stack[j] == s.stack[j];
    assert s.stack[j] in s.onStack;
    var i := BelowIndex(s, |s0.stack|, s.stack[j]);
    ReachEdge(E, v, w);
    ReachTrans(E, v, w, s.stack[j]);
    assert s1.stack[i] == s.stack[i];
  }

  lemma CallBounds(E: set<(Node, Node)>, s: State, s1: State, k: nat, v: Node, w: Node)
    requires ShapeInv(s) && k < |s.stack| && v in s.lowlink && w in s1.lowlink
    requires Bounds(E, s, k + 1, k, s.lowlink[v])
    requires CallPost(E, s, s1, w)
    ensures Bounds(E, s1, k + 1, k, Min(s.lowlink[v], s1.lowlink[w]))
  {
    forall i, j | k + 1 <= i < |s1.stack| && 0 <= j < k && (s1.stack[i], s1.stack[j]) in E
      ensures s1.stack[j] in s1.indexOf && Min(s.lowlink[v], s1.lowlink[w]) <= s1.indexOf[s1.stack[j]]
    {
      assert s1.stack[j] == s.stack[j];
      assert s.stack[j] in s.onStack;
      if i < |s.stack| {
        assert s1.stack[i] == s.stack[i];
      }
    }
  }

  lemma CallTargets(E: set<(Node, Node)>, s: State, s1: State, k: nat, v: Node, w: Node, handled: set<Node>)
    requires ShapeInv(s) && k < |s.stack| && v in s.lowlink && w in s1.lowlink
    requires TargetBounds(E, s, k, v, handled, s.lowlink[v])
    requires CallPost(E, s, s1, w) && w !in s.indexOf
    ensures TargetBounds(E, s1, k, v, handled + {w}, Min(s.lowlink[v], s1.lowlink[w]))
  {
    forall j | 0 <= j < k
      ensures s1.stack[j] == s.stack[j] && s.stack[j] in s.indexOf
    {
      assert s.stack[j] in s.onStack;
    }
  }

  lemma CallStep(E: set<(Node, Node)>, roots: set<Node>, gray: set<Node>, s0: State, s: State, s1: State,
                 v: Node, handled: set<Node>, w: Node)
    requires LoopInv(E, roots, gray, s0, s, v, handled)
    requires (v, w) in E && w !in s.indexOf && v !in s0.indexOf
    requires Inv(E, roots, gray + {v}, s1) && CallPost(E, s, s1, w)
    ensures v in s1.lowlink && w in s1.lowlink
    ensures LoopInv(E, roots, gray, s0, LowerTo(s1, v, s1.lowlink[w]), v, handled + {w})
  {
    var k := |s0.stack|;
    var t := LowerTo(s1, v, s1.lowlink[w]);
    LowerKeepsInv(E, roots, gray + {v}, s1, v, s1.lowlink[w]);
    ExtendsTrans(s0, s, s1);
    CallWitness(E, s0, s, s1, v, w);
    CallBounds(E, s, s1, k, v, w);
    CallTargets(E, s, s1, k, v, w, handled);
    WitnessKept(E, s1, t, k + 1, v, t.lowlink[v]);
    SameGraphPart(E, s1, t, k, v, handled + {w}, t.lowlink[v]);
    KeptThrough(s0, s, s1, v);
  }

  lemma SameGraphPart(E: set<(Node, Node)>, s: State, t: State, k: nat, v: Node, handled: set<Node>, low: nat)
    requires t == s.(lowlink := t.lowlink)
    requires Bounds(E, s, k + 1, k, low) && TargetBounds(E, s, k, v, handled, low)
    ensures Bounds(E, t, k + 1, k, low) && TargetBounds(E, t, k, v, handled, low)
  {
  }

  lemma KeptThrough(s0: State, s: State, s1: State, v: Node)
    requires Extends(s0, s) && LowlinksKept(s0, s) && LowlinksKept(s, s1) && v !in s0.indexOf
    ensures LowlinksKept(s0, s1)
    ensures v in s1.lowlink ==> forall low :: LowlinksKept(s0, LowerTo(s1, v, low))
  {
  }

  // ---------- leaving a node ----------

  /** All targets of everything from `v` upwards have been visited, and `low` bounds those below. */
  lemma SegmentBounds(E: set<(Node, Node)>, roots: set<Node>, gray: set<Node>, s0: State, s: State, v: Node,
                      handled: set<Node>)
    requires LoopInv(E, roots, gray, s0, s, v, handled)
    requires forall y :: (v, y) in E ==> y in handled
    ensures Bounds(E, s, |s0.stack|, |s0.stack|, s.lowlink[v])
  {
  }

  /** The index says where a stack node is. */
  lemma StackInjective(s: State, i: nat, j: nat)
    requires ShapeInv(s) && i < |s.stack| && j < |s.stack| && s.stack[i] == s.stack[j]
    ensures i == j
  {
    assert s.stack[i] in s.onStack;
    var n := s.indexOf[s.stack[i]];
    var m := s.indexOf[s.stack[j]];
  }

  lemma StackDistinct(s: State)
    requires ShapeInv(s)
    ensures Distinct(s.stack)
  {
    forall i, j | 0 <= i < j < |s.stack|
      ensures s.stack[i] != s.stack[j]
    {
      assert s.stack[i] in s.onStack && s.indexOf[s.stack[i]] < s.indexOf[s.stack[j]];
    }
  }

  /** `v` stays on the stack: everything above it can get back below it. */
  lemma KeepAnchors(E: set<(Node, Node)>, gray: set<Node>, s0: State, s: State, v: Node, i: nat)
    requires ShapeInv(s) && Exploring(s0, s, v) && i < |s.stack|
    requires forall i :: 0 <= i < |s.stack| ==> Anchored(E, gray + {v}, s.stack, i)
    requires Witness(E, s, |s0.stack|, v, s.lowlink[v])
    ensures Anchored(E, gray, s.stack, i)
  {
    assert Anchored(E, gray + {v}, s.stack, i);
    var j :| 0 <= j <= i && s.stack[j] in gray + {v} && Reach(E, s.stack[i], s.stack[j]);
    if s.stack[j] !in gray {
      StackInjective(s, j, |s0.stack|);
      var b, c := AnchorBelow(E, gray, s0, s, v);
      ReachTrans(E, s.stack[i], v, s.stack[b]);
      ReachTrans(E, s.stack[i], s.stack[b], s.stack[c]);
    }
  }

  lemma AnchorBelow(E: set<(Node, Node)>, gray: set<Node>, s0: State, s: State, v: Node) returns (b: nat, c: nat)
    requires ShapeInv(s) && Exploring(s0, s, v)
    requires forall i :: 0 <= i < |s.stack| ==> Anchored(E, gray + {v}, s.stack, i)
    requires Witness(E, s, |s0.stack|, v, s.lowlink[v])
    ensures c <= b < |s0.stack| && s.stack[c] in gray
    ensures Reach(E, v, s.stack[b]) && Reach(E, s.stack[b], s.stack[c])
  {
    b := WitnessIndex(E, s, |s0.stack|, v, s.lowlink[v]);
    c := AnchorIndex(E, gray + {v}, s.stack, b);
    if s.stack[c] == v {
      StackInjective(s, c, |s0.stack|);
    }
  }

  lemma WitnessIndex(E: set<(Node, Node)>, s: State, k: nat, v: Node, low: nat) returns (b: nat)
    requires Witness(E, s, k, v, low)
    ensures b < k && b < |s.stack| && Reach(E, v, s.stack[b])
  {
    b :| 0 <= b < k && b < |s.stack| && s.stack[b] in s.indexOf && s.indexOf[s.stack[b]] == low && Reach(E, v, s.stack[b]);
  }

  lemma AnchorIndex(E: set<(Node, Node)>, gray: set<Node>, stack: seq<Node>, i: nat) returns (j: nat)
    requires i < |stack| && Anchored(E, gray, stack, i)
    ensures j <= i && stack[j] in gray && Reach(E, stack[i], stack[j])
  {
    j :| 0 <= j <= i < |stack| && stack[j] in gray && Reach(E, stack[i], stack[j]);
  }

  lemma KeepGraph(E: set<(Node, Node)>, roots: set<Node>, gray: set<Node>, s0: State, s: State, v: Node)
    requires ShapeInv(s) && Exploring(s0, s, v) && gray <= s.onStack
    requires GraphInv(E, roots, gray + {v}, s)
    requires forall y :: (v, y) in E ==> y in s.indexOf
    requires Witness(E, s, |s0.stack|, v, s.lowlink[v])
    ensures GraphInv(E, roots, gray, s)
  {
    forall i | 0 <= i < |s.stack|
      ensures Anchored(E, gray, s.stack, i)
    {
      KeepAnchors(E, gray, s0, s, v, i);
    }
  }

  lemma KeepStep(E: set<(Node, Node)>, roots: set<Node>, gray: set<Node>, s0: State, s: State, v: Node,
                 handled: set<Node>)
    requires gray <= Elems(s0.stack)
    requires LoopInv(E, roots, gray, s0, s, v, handled)
    requires forall y :: (v, y) in E ==> y in handled
    requires s.lowlink[v] < s.indexOf[v]
    ensures Inv(E, roots, gray, s) && CallPost(E, s0, s, v)
  {
    SegmentBounds(E, roots, gray, s0, s, v, handled);
    KeepWitness(E, s0, s, v);
    KeepGraph(E, roots, gray, s0, s, v);
    assert s.stack[|s0.stack|] in s.onStack;
  }

  lemma KeepWitness(E: set<(Node, Node)>, s0: State, s: State, v: Node)
    requires ShapeInv(s) && Exploring(s0, s, v) && s.lowlink[v] < s.indexOf[v]
    requires Witness(E, s, |s0.stack| + 1, v, s.lowlink[v])
    ensures Witness(E, s, |s0.stack|, v, s.lowlink[v])
  {
  }

  // ---------- emitting a component ----------

  ghost function Segment(s: State, k: nat): set<Node>
    requires k <= |s.stack|
  {
    Elems(s.stack[k..])
  }

  lemma InSegment(s: State, k: nat, x: Node)
    requires k <= |s.stack|
    ensures x in Segment(s, k) <==> exists i :: k <= i < |s.stack| && s.stack[i] == x
  {
    if x in s.stack[k..] {
      var i :| 0 <= i < |s.stack[k..]| && s.stack[k..][i] == x;
      assert s.stack[k + i] == x;
    }
    if i :| k <= i < |s.stack| && s.stack[i] == x {
      assert s.stack[k..][i - k] == x;
    }
  }

  /** Nothing leaves the stack segment of `v` except into emitted components. */
  lemma SegmentClosed(E: set<(Node, Node)>, roots: set<Node>, gray: set<Node>, s0: State, s: State, v: Node,
                      handled: set<Node>)
    requires LoopInv(E, roots, gray, s0, s, v, handled)
    requires forall y :: (v, y) in E ==> y in handled
    requires gray <= Elems(s0.stack)
    requires s.lowlink[v] == s.indexOf[v]
    ensures Closed(E, Segment(s, |s0.stack|) + Finished(s.sccs))
  {
    var k := |s0.stack|;
    SegmentBounds(E, roots, gray, s0, s, v, handled);
    forall x, y | (x, y) in E && x in Segment(s, k) + Finished(s.sccs)
      ensures y in Segment(s, k) + Finished(s.sccs)
    {
      if x in Segment(s, k) {
        InSegment(s, k, x);
        var i :| k <= i < |s.stack| && s.stack[i] == x;
        SegmentTarget(E, roots, gray, s0, s, v, handled, i, y);
        if y in s.onStack {
          var j :| 0 <= j < |s.stack| && s.stack[j] == y;
          if j < k {
            assert false;
          }
          InSegment(s, k, y);
        }
      }
    }
  }

  lemma GrayBelow(s0: State, s: State, gray: set<Node>, i: nat)
    requires ShapeInv(s) && s0.stack <= s.stack && gray <= Elems(s0.stack)
    requires i < |s.stack| && s.stack[i] in gray
    ensures i < |s0.stack|
  {
    var j :| 0 <= j < |s0.stack| && s0.stack[j] == s.stack[i];
    assert s.stack[j] == s0.stack[j];
    StackInjective(s, i, j);
  }

  lemma SegmentTarget(E: set<(Node, Node)>, roots: set<Node>, gray: set<Node>, s0: State, s: State, v: Node,
                      handled: set<Node>, i: nat, y: Node)
    requires LoopInv(E, roots, gray, s0, s, v, handled)
    requires forall y :: (v, y) in E ==> y in handled
    requires gray <= Elems(s0.stack)
    requires |s0.stack| <= i < |s.stack| && (s.stack[i], y) in E
    ensures y in s.indexOf
  {
    if s.stack[i] in gray {
      GrayBelow(s0, s, gray, i);
    }
    assert s.stack[i] in s.onStack;
  }

  lemma BackToHead(E: set<(Node, Node)>, roots: set<Node>, gray: set<Node>, s0: State, s: State, v: Node, i: nat)
    requires ShapeInv(s) && GraphInv(E, roots, gray + {v}, s) && Exploring(s0, s, v) && s0.stack <= s.stack
    requires gray <= Elems(s0.stack)
    requires Closed(E, Segment(s, |s0.stack|) + Finished(s.sccs))
    requires |s0.stack| <= i < |s.stack|
    ensures Mutual(E, v, s.stack[i])
  {
    var k := |s0.stack|;
    assert Reach(E, s.stack[k], s.stack[i]);
    assert Anchored(E, gray + {v}, s.stack, i);
    AnchorIsHead(E, gray, s0, s, v, i);
  }

  lemma AnchorIsHead(E: set<(Node, Node)>, gray: set<Node>, s0: State, s: State, v: Node, i: nat)
    requires ShapeInv(s) && Exploring(s0, s, v) && s0.stack <= s.stack
    requires gray <= Elems(s0.stack)
    requires Closed(E, Segment(s, |s0.stack|) + Finished(s.sccs))
    requires |s0.stack| <= i < |s.stack| && Anchored(E, gray + {v}, s.stack, i)
    ensures Reach(E, s.stack[i], v)
  {
    var j := AnchorIndex(E, gray + {v}, s.stack, i);
    NotGray(E, gray, s0, s, i, j);
  }

  lemma NotGray(E: set<(Node, Node)>, gray: set<Node>, s0: State, s: State, i: nat, j: nat)
    requires ShapeInv(s) && s0.stack <= s.stack && gray <= Elems(s0.stack)
    requires Closed(E, Segment(s, |s0.stack|) + Finished(s.sccs))
    requires |s0.stack| <= i < |s.stack| && j < |s.stack| && Reach(E, s.stack[i], s.stack[j])
    ensures s.stack[j] !in gray
  {
    GrayOutside(s0, s, gray, j);
    StaysInSegment(E, s, |s0.stack|, i, j);
  }

  lemma GrayOutside(s0: State, s: State, gray: set<Node>, j: nat)
    requires ShapeInv(s) && s0.stack <= s.stack && gray <= Elems(s0.stack) && j < |s.stack|
    ensures s.stack[j] in gray ==> s.stack[j] !in Segment(s, |s0.stack|) + Finished(s.sccs)
  {
    if s.stack[j] in gray {
      GrayBelow(s0, s, gray, j);
      BelowSegment(s, |s0.stack|, j);
    }
  }

  lemma StaysInSegment(E: set<(Node, Node)>, s: State, k: nat, i: nat, j: nat)
    requires ShapeInv(s) && k <= i < |s.stack| && Closed(E, Segment(s, k) + Finished(s.sccs))
    requires j < |s.stack| && Reach(E, s.stack[i], s.stack[j])
    ensures s.stack[j] in Segment(s, k) + Finished(s.sccs)
  {
    InSegment(s, k, s.stack[i]);
    ClosedReach(E, Segment(s, k) + Finished(s.sccs), s.stack[i], s.stack[j]);
  }

  lemma BelowSegment(s: State, k: nat, j: nat)
    requires ShapeInv(s) && j < k <= |s.stack|
    ensures s.stack[j] !in Segment(s, k) + Finished(s.sccs)
  {
    StackDistinct(s);
    InSegment(s, k, s.stack[j]);
    assert s.stack[j] in s.onStack;
  }

  /** The segment is one whole mutual-reachability class. */
  lemma SegmentIsClass(E: set<(Node, Node)>, roots: set<Node>, gray: set<Node>, s0: State, s: State, v: Node,
                       x: Node, y: Node)
    requires Inv(E, roots, gray + {v}, s) && Exploring(s0, s, v) && s0.stack <= s.stack
    requires gray <= Elems(s0.stack)
    requires Closed(E, Segment(s, |s0.stack|) + Finished(s.sccs))
    requires x in Segment(s, |s0.stack|)
    ensures y in Segment(s, |s0.stack|) <==> Mutual(E, x, y)
  {
    var k := |s0.stack|;
    InSegment(s, k, x);
    InSegment(s, k, y);
    if y in Segment(s, k) {
      var i :| k <= i < |s.stack| && s.stack[i] == x;
      var j :| k <= j < |s.stack| && s.stack[j] == y;
      BackToHead(E, roots, gray, s0, s, v, i);
      BackToHead(E, roots, gray, s0, s, v, j);
      ReachTrans(E, x, v, y);
      ReachTrans(E, y, v, x);
    }
    assert x in s.onStack;
    if Mutual(E, x, y) {
      ClosedReach(E, Segment(s, k) + Finished(s.sccs), x, y);
      if y in Finished(s.sccs) {
        ClosedReach(E, Finished(s.sccs), y, x);
        assert false;
      }
    }
  }

  /** The component in the order in which its nodes are popped. */
  function Popped(stack: seq<Node>, k: nat): (r: seq<Node>)
    requires k <= |stack|
    ensures |r| == |stack| - k
    ensures forall i :: 0 <= i < |r| ==> r[i] == stack[|stack| - 1 - i]
    decreases |stack| - k
  {
    if |stack| == k then [] else Popped(stack, k + 1) + [stack[k]]
  }

  function Emit(s: State, k: nat): State
    requires k <= |s.stack|
  {
    s.(onStack := s.onStack - (set x | x in s.stack[k..]),
       stack := s.stack[..k],
       sccs := s.sccs + [Popped(s.stack, k)])
  }

  lemma {:induction false} PoppedElems(s: State, k: nat)
    requires ShapeInv(s) && k <= |s.stack|
    ensures Elems(Popped(s.stack, k)) == Segment(s, k)
    ensures Distinct(Popped(s.stack, k))
  {
    var r := Popped(s.stack, k);
    forall x
      ensures x in r <==> x in Segment(s, k)
    {
      InSegment(s, k, x);
      if x in r {
        var i :| 0 <= i < |r| && r[i] == x;
        assert s.stack[|s.stack| - 1 - i] == x;
      }
      if j :| k <= j < |s.stack| && s.stack[j] == x {
        assert r[|s.stack| - 1 - j] == x;
      }
    }
    StackDistinct(s);
  }

  lemma FinishedSnoc(sccs: seq<seq<Node>>, comp: seq<Node>)
    ensures Finished(sccs + [comp]) == Finished(sccs) + Elems(comp)
  {
    var t := sccs + [comp];
    forall x
      ensures x in Finished(t) <==> x in Finished(sccs) + Elems(comp)
    {
      if x in Finished(sccs) {
        var k :| 0 <= k < |sccs| && x in sccs[k];
        assert x in t[k];
      }
      if x in comp {
        assert x in t[|sccs|];
      }
    }
  }

  lemma EmitShape(s: State, k: nat)
    requires ShapeInv(s) && k <= |s.stack|
    ensures ShapeInv(Emit(s, k))
    ensures Emit(s, k).onStack == Elems(s.stack[..k])
    ensures Finished(Emit(s, k).sccs) == Finished(s.sccs) + Segment(s, k)
  {
    PoppedElems(s, k);
    FinishedSnoc(s.sccs, Popped(s.stack, k));
    StackParts(s, k);
  }

  lemma StackParts(s: State, k: nat)
    requires ShapeInv(s) && k <= |s.stack|
    ensures Elems(s.stack) == Elems(s.stack[..k]) + Segment(s, k)
    ensures Elems(s.stack[..k]) !! Segment(s, k)
  {
    assert s.stack == s.stack[..k] + s.stack[k..];
    StackDistinct(s);
    forall x | x in s.stack[..k]
      ensures x !in Segment(s, k)
    {
      InSegment(s, k, x);
    }
  }

  lemma EmitSccs(E: set<(Node, Node)>, sccs: seq<seq<Node>>, comp: seq<Node>)
    requires SccInv(E, sccs) && IsScc(E, comp) && Elems(comp) !! Finished(sccs)
    requires Closed(E, Elems(comp) + Finished(sccs))
    ensures SccInv(E, sccs + [comp])
  {
    FinishedSnoc(sccs, comp);
    EmitDisjoint(sccs, comp);
    EmitOrder(E, sccs, comp);
  }

  lemma EmitDisjoint(sccs: seq<seq<Node>>, comp: seq<Node>)
    requires PairwiseDisjoint(sccs) && Elems(comp) !! Finished(sccs)
    ensures PairwiseDisjoint(sccs + [comp])
  {
    var t := sccs + [comp];
    forall i, j, x | 0 <= i < j < |t| && x in t[i]
      ensures x !in t[j]
    {
      assert x in sccs[i] && x in Finished(sccs);
      assert x !in Elems(comp);
    }
  }

  lemma EmitOrder(E: set<(Node, Node)>, sccs: seq<seq<Node>>, comp: seq<Node>)
    requires CalleesFirst(E, sccs) && Closed(E, Finished(sccs)) && Elems(comp) !! Finished(sccs)
    ensures CalleesFirst(E, sccs + [comp])
  {
    var t := sccs + [comp];
    forall i, j, x, y | 0 <= i < |t| && 0 <= j < |t| && x in t[i] && y in t[j] && (x, y) in E
      ensures j <= i
    {
      assert i < |sccs| ==> x in Finished(sccs);
      assert j == |sccs| ==> y in Elems(comp);
    }
  }

  lemma EmitGraph(E: set<(Node, Node)>, roots: set<Node>, gray: set<Node>, s0: State, s: State, v: Node)
    requires ShapeInv(s) && GraphInv(E, roots, gray + {v}, s) && Exploring(s0, s, v) && s0.stack <= s.stack
    requires gray <= Elems(s0.stack)
    requires forall y :: (v, y) in E ==> y in s.indexOf
    ensures GraphInv(E, roots, gray, Emit(s, |s0.stack|))
  {
    var s1 := Emit(s, |s0.stack|);
    EmitShape(s, |s0.stack|);
    assert s1.stack == s0.stack && s1.onStack == Elems(s0.stack) && s1.indexOf == s.indexOf;
    EmitAnchored(E, gray, s0, s, v);
    EmitReach(E, s, |s0.stack|);
    EmitVisited(E, roots, gray, s, v);
  }

  lemma EmitAnchored(E: set<(Node, Node)>, gray: set<Node>, s0: State, s: State, v: Node)
    requires ShapeInv(s) && Exploring(s0, s, v) && s0.stack <= s.stack
    requires forall i :: 0 <= i < |s.stack| ==> Anchored(E, gray + {v}, s.stack, i)
    ensures forall i :: 0 <= i < |s0.stack| ==> Anchored(E, gray, s0.stack, i)
  {
    assert s.stack[..|s0.stack|] == s0.stack;
    forall i | 0 <= i < |s0.stack|
      ensures Anchored(E, gray, s0.stack, i)
    {
      EmitAnchors(E, gray, s0, s, v, i);
    }
  }

  lemma EmitReach(E: set<(Node, Node)>, s: State, k: nat)
    requires k <= |s.stack| && forall i, j :: 0 <= i <= j < |s.stack| ==> Reach(E, s.stack[i], s.stack[j])
    ensures forall i, j :: 0 <= i <= j < k ==> Reach(E, s.stack[..k][i], s.stack[..k][j])
  {
  }

  lemma EmitVisited(E: set<(Node, Node)>, roots: set<Node>, gray: set<Node>, s: State, v: Node)
    requires GraphInv(E, roots, gray + {v}, s)
    requires forall y :: (v, y) in E ==> y in s.indexOf
    ensures forall x, y :: (x, y) in E && x in s.indexOf && x !in gray ==> y in s.indexOf
    ensures forall x {:trigger HasRoot(E, roots, x)} :: x in s.indexOf ==> HasRoot(E, roots, x)
  {
  }

  lemma EmitAnchors(E: set<(Node, Node)>, gray: set<Node>, s0: State, s: State, v: Node, i: nat)
    requires ShapeInv(s) && Exploring(s0, s, v) && i < |s0.stack|
    requires Anchored(E, gray + {v}, s.stack, i)
    ensures Anchored(E, gray, s.stack[..|s0.stack|], i)
  {
    var j :| 0 <= j <= i && s.stack[j] in gray + {v} && Reach(E, s.stack[i], s.stack[j]);
    StackDistinct(s);
    assert s.stack[..|s0.stack|][j] == s.stack[j] && s.stack[j] != v;
  }

  lemma EmitStep(E: set<(Node, Node)>, roots: set<Node>, gray: set<Node>, s0: State, s: State, v: Node,
                 handled: set<Node>)
    requires gray <= Elems(s0.stack)
    requires LoopInv(E, roots, gray, s0, s, v, handled)
    requires forall y :: (v, y) in E ==> y in handled
    requires s.lowlink[v] == s.indexOf[v]
    ensures Inv(E, roots, gray, Emit(s, |s0.stack|))
    ensures CallPost(E, s0, Emit(s, |s0.stack|), v)
  {
    var k := |s0.stack|;
    var comp := Popped(s.stack, k);
    SegmentClosed(E, roots, gray, s0, s, v, handled);
    EmitShape(s, k);
    PoppedElems(s, k);
    forall x, y | x in comp
      ensures y in comp <==> Mutual(E, x, y)
    {
      SegmentIsClass(E, roots, gray, s0, s, v, x, y);
    }
    InSegment(s, k, v);
    EmitSccs(E, s.sccs, comp);
    EmitGraph(E, roots, gray, s0, s, v);
    EmitPost(E, s0, s, v);
  }

  lemma EmitPost(E: set<(Node, Node)>, s0: State, s: State, v: Node)
    requires ShapeInv(s) && Exploring(s0, s, v) && Extends(s0, s) && LowlinksKept(s0, s)
    requires s.lowlink[v] == s.indexOf[v]
    ensures CallPost(E, s0, Emit(s, |s0.stack|), v)
  {
    var k := |s0.stack|;
    EmitShape(s, k);
    InSegment(s, k, v);
    assert s.stack[..k] == s0.stack;
  }
}
