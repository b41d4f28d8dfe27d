/** The order in which the members of a route are computed when they refer to
    each other's new values (cambrian-transpiler/src/analysis/temporal.rs). */
module Temporal {
  import opened Graphs
  import opened Sequences
  import opened StringOrder
  import opened Kahn
  import opened ExprTree
  import opened TemporalRefs

  type Deps = map<string, seq<string>>

  datatype Outcome = Ok(order: seq<string>) | Err(cycle: seq<string>)

  function DepsOf(deps: Deps, x: string): seq<string> {
    if x in deps then deps[x] else []
  }

  /** `x` refers to the new value of `d`, both members of the route. */
  ghost function Needs(nodes: seq<string>, deps: Deps): set<(string, string)> {
    set x, d | x in nodes && d in DepsOf(deps, x) && d in nodes :: (x, d)
  }

  // ---------- the greedy order ----------

  /** `x` is the greatest name that is ready after `done`. */
  ghost predicate GreatestReady(E: set<(string, string)>, nodes: set<string>, done: seq<string>, x: string) {
    Ready(E, nodes, done, x) && forall y :: Ready(E, nodes, done, y) ==> AtMost(y, x)
  }

  ghost predicate Greedy(E: set<(string, string)>, nodes: set<string>, order: seq<string>) {
    forall i :: 0 <= i < |order| ==> GreatestReady(E, nodes, order[..i], order[i])
  }

  /** The greedy order that runs until nothing is ready is unique. */
  lemma {:induction false} GreedyPrefix(E: set<(string, string)>, nodes: set<string>, a: seq<string>,
                                        b: seq<string>, k: nat)
    requires Greedy(E, nodes, a) && Greedy(E, nodes, b) && Stuck(E, nodes, b)
    requires k <= |a|
    ensures k <= |b| && a[..k] == b[..k]
  {
    if k > 0 {
      GreedyPrefix(E, nodes, a, b, k - 1);
      var done := a[..k - 1];
      assert GreatestReady(E, nodes, done, a[k - 1]);
      assert b[..|b|] == b;
      assert |b| != k - 1;
      assert GreatestReady(E, nodes, done, b[k - 1]);
      AtMostAntisymmetric(a[k - 1], b[k - 1]);
    }
  }

  lemma GreedyUnique(E: set<(string, string)>, nodes: set<string>, a: seq<string>, b: seq<string>)
    requires Greedy(E, nodes, a) && Stuck(E, nodes, a)
    requires Greedy(E, nodes, b) && Stuck(E, nodes, b)
    ensures a == b
  {
    GreedyPrefix(E, nodes, a, b, |a|);
    GreedyPrefix(E, nodes, b, a, |b|);
    assert a[..|a|] == a && b[..|a|] == b;
  }

  lemma GreedyStep(E: set<(string, string)>, nodes: set<string>, order: seq<string>, x: string)
    requires Greedy(E, nodes, order) && GreatestReady(E, nodes, order, x)
    ensures Greedy(E, nodes, order + [x])
  {
    var next := order + [x];
    forall i | 0 <= i < |next|
      ensures GreatestReady(E, nodes, next[..i], next[i])
    {
      assert i < |order| ==> next[..i] == order[..i];
      assert i == |order| ==> next[..i] == order;
    }
  }

  // ---------- the tables ----------

  /** `inDegree` counts, per node, the dependencies not in `done`. */
  ghost predicate Degrees(nodes: seq<string>, deps: Deps, done: set<string>, inDegree: map<string, nat>) {
    forall x :: x in nodes ==> x in inDegree && inDegree[x] == CountIn(DepsOf(deps, x), Elems(nodes) - done)
  }

  /** `adj[d]` lists each node as often as it depends on `d`. */
  ghost predicate Adjacent(nodes: seq<string>, deps: Deps, adj: map<string, seq<string>>) {
    && Elems(nodes) <= adj.Keys
    && forall d :: d in nodes ==> Dependents(nodes, deps, d, adj[d])
  }

  ghost predicate Dependents(nodes: seq<string>, deps: Deps, d: string, neighbors: seq<string>) {
    && (forall x :: x in neighbors ==> x in nodes)
    && (forall x :: x in nodes ==> Times(neighbors, x) == Times(DepsOf(deps, x), d))
  }

  lemma ZeroIsReady(nodes: seq<string>, deps: Deps, done: seq<string>, inDegree: map<string, nat>, x: string)
    requires x in nodes && Degrees(nodes, deps, Elems(done), inDegree)
    ensures x !in done && inDegree[x] == 0 <==> Ready(Needs(nodes, deps), Elems(nodes), done, x)
  {
    NoneMissing(Needs(nodes, deps), Elems(nodes), done, x, DepsOf(deps, x));
  }

  /** The queue holds, sorted and once each, the ready nodes. */
  ghost predicate QueueIs(nodes: seq<string>, done: set<string>, inDegree: map<string, nat>, queue: seq<string>) {
    && Sorted(queue) && Distinct(queue)
    && forall x :: x in queue <==> x in nodes && x !in done && x in inDegree && inDegree[x] == 0
  }

  // ---------- building the graph ----------

  lemma AddDepAdjacent(nodes: seq<string>, part: Deps, y: string, dep: string, adj: map<string, seq<string>>)
    requires y in nodes && y in part && Adjacent(nodes, part, adj)
    ensures var next := part[y := part[y] + [dep]];
            Adjacent(nodes, next, if dep in nodes then adj[dep := adj[dep] + [y]] else adj)
  {
    var next := part[y := part[y] + [dep]];
    var adj' := if dep in nodes then adj[dep := adj[dep] + [y]] else adj;
    forall d | d in nodes
      ensures Dependents(nodes, next, d, adj'[d])
    {
      AddDepDependents(nodes, part, y, dep, d, adj[d]);
    }
  }

  lemma AddDepDependents(nodes: seq<string>, part: Deps, y: string, dep: string, d: string, neighbors: seq<string>)
    requires y in nodes && y in part && Dependents(nodes, part, d, neighbors)
    ensures Dependents(nodes, part[y := part[y] + [dep]], d, if d == dep then neighbors + [y] else neighbors)
  {
    var next := part[y := part[y] + [dep]];
    Snoc(part[y], dep);
    Snoc(neighbors, y);
    forall x | x in nodes && x != y
      ensures DepsOf(next, x) == DepsOf(part, x)
    {
    }
  }

  lemma AddDepDegrees(nodes: seq<string>, part: Deps, y: string, dep: string, inDegree: map<string, nat>)
    requires y in nodes && y in part && Degrees(nodes, part, {}, inDegree)
    ensures var next := part[y := part[y] + [dep]];
            Degrees(nodes, next, {}, if dep in nodes then inDegree[y := inDegree[y] + 1] else inDegree)
  {
    Snoc(part[y], dep);
  }

  method EmptyTables(nodes: seq<string>) returns (inDegree: map<string, nat>, adj: map<string, seq<string>>)
    ensures Degrees(nodes, map[], {}, inDegree) && Adjacent(nodes, map[], adj)
  {
    inDegree, adj := map[], map[];
    for i := 0 to |nodes|
      invariant inDegree.Keys == adj.Keys == Elems(nodes[..i])
      invariant forall x :: x in inDegree ==> inDegree[x] == 0 && adj[x] == []
    {
      assert Elems(nodes[..i + 1]) == Elems(nodes[..i]) + {nodes[i]};
      if nodes[i] !in inDegree {
        inDegree := inDegree[nodes[i] := 0];
      }
      if nodes[i] !in adj {
        adj := adj[nodes[i] := []];
      }
    }
    assert nodes[..|nodes|] == nodes;
  }

  ghost function Without(deps: Deps, remaining: set<string>): Deps {
    map x | x in deps && x !in remaining :: deps[x]
  }

  lemma WithoutEnds(deps: Deps)
    ensures Without(deps, deps.Keys) == map[] && Without(deps, {}) == deps
  {
  }

  lemma WithoutStep(deps: Deps, remaining: set<string>, y: string)
    requires y in remaining && y in deps
    ensures y !in Without(deps, remaining)
    ensures Without(deps, remaining - {y}) == Without(deps, remaining)[y := deps[y]]
  {
  }

  method BuildGraph(nodes: seq<string>, deps: Deps) returns (inDegree: map<string, nat>, adj: map<string, seq<string>>)
    requires deps.Keys <= Elems(nodes)
    ensures Degrees(nodes, deps, {}, inDegree) && Adjacent(nodes, deps, adj)
  {
    inDegree, adj := EmptyTables(nodes);
    var remaining := deps.Keys;
    WithoutEnds(deps);
    while remaining != {}
      invariant remaining <= deps.Keys
      invariant Degrees(nodes, Without(deps, remaining), {}, inDegree) && Adjacent(nodes, Without(deps, remaining), adj)
    {
      var y :| y in remaining;
      WithoutStep(deps, remaining, y);
      inDegree, adj := AddDeps(nodes, Without(deps, remaining), y, deps[y], inDegree, adj);
      remaining := remaining - {y};
    }
  }

  /** The inner loop: one node's dependencies. */
  method AddDeps(nodes: seq<string>, ghost part: Deps, y: string, ds: seq<string>,
                 inDegree0: map<string, nat>, adj0: map<string, seq<string>>)
    returns (inDegree: map<string, nat>, adj: map<string, seq<string>>)
    requires y in nodes && y !in part
    requires Degrees(nodes, part, {}, inDegree0) && Adjacent(nodes, part, adj0)
    ensures Degrees(nodes, part[y := ds], {}, inDegree) && Adjacent(nodes, part[y := ds], adj)
  {
    inDegree, adj := inDegree0, adj0;
    ghost var now: Deps := part[y := []];
    NoDepsYet(nodes, part, y, inDegree, adj);
    for j := 0 to |ds|
      invariant now == part[y := ds[..j]]
      invariant Degrees(nodes, now, {}, inDegree) && Adjacent(nodes, now, adj)
    {
      inDegree, adj := AddDep(nodes, now, y, ds[j], inDegree, adj);
      OneMore(part, y, ds, j);
      now := now[y := now[y] + [ds[j]]];
    }
    assert ds[..|ds|] == ds;
  }

  lemma OneMore(part: Deps, y: string, ds: seq<string>, j: nat)
    requires j < |ds|
    ensures part[y := ds[..j]][y := ds[..j] + [ds[j]]] == part[y := ds[..j + 1]]
  {
    assert ds[..j + 1] == ds[..j] + [ds[j]];
  }

  lemma NoDepsYet(nodes: seq<string>, part: Deps, y: string, inDegree: map<string, nat>, adj: map<string, seq<string>>)
    requires y !in part && Degrees(nodes, part, {}, inDegree) && Adjacent(nodes, part, adj)
    ensures Degrees(nodes, part[y := []], {}, inDegree) && Adjacent(nodes, part[y := []], adj)
  {
    var next := part[y := []];
    assert forall x :: DepsOf(next, x) == DepsOf(part, x);
    forall d | d in nodes
      ensures Dependents(nodes, next, d, adj[d])
    {
      assert Dependents(nodes, part, d, adj[d]);
    }
  }

  /** One dependency. */
  method AddDep(nodes: seq<string>, ghost now: Deps, y: string, dep: string, inDegree0: map<string, nat>,
                adj0: map<string, seq<string>>)
    returns (inDegree: map<string, nat>, adj: map<string, seq<string>>)
    requires y in nodes && y in now && Degrees(nodes, now, {}, inDegree0) && Adjacent(nodes, now, adj0)
    ensures Degrees(nodes, now[y := now[y] + [dep]], {}, inDegree) && Adjacent(nodes, now[y := now[y] + [dep]], adj)
  {
    AddDepAdjacent(nodes, now, y, dep, adj0);
    AddDepDegrees(nodes, now, y, dep, inDegree0);
    inDegree, adj := inDegree0, adj0;
    if dep in nodes {
      adj := adj[dep := adj[dep] + [y]];
      inDegree := inDegree[y := inDegree[y] + 1];
    }
  }

  // ---------- draining the queue ----------

  /** After `node` was taken from the queue and the first `i` of its dependents were updated. */
  ghost predicate Draining(nodes: seq<string>, deps: Deps, done: set<string>, node: string,
                           neighbors: seq<string>, i: nat,
                           inDegree: map<string, nat>) {
    i <= |neighbors| &&
    forall x :: x in nodes ==>
                  x in inDegree && Counted(DepsOf(deps, x), Elems(nodes) - done, neighbors, i, x, inDegree[x])
  }

  lemma DrainStart(nodes: seq<string>, deps: Deps, done: set<string>, node: string, inDegree: map<string, nat>,
                   neighbors: seq<string>)
    requires Degrees(nodes, deps, done, inDegree) && node in nodes && node !in done
    ensures Draining(nodes, deps, done, node, neighbors, 0, inDegree)
  {
  }

  lemma DrainEnd(nodes: seq<string>, deps: Deps, done: set<string>, node: string, neighbors: seq<string>,
                 inDegree: map<string, nat>)
    requires Draining(nodes, deps, done, node, neighbors, |neighbors|, inDegree)
    requires node in nodes && node !in done
    requires Dependents(nodes, deps, node, neighbors)
    ensures Degrees(nodes, deps, done + {node}, inDegree)
  {
    assert Elems(nodes) - done - {node} == Elems(nodes) - (done + {node});
    forall x | x in nodes
      ensures inDegree[x] == CountIn(DepsOf(deps, x), Elems(nodes) - (done + {node}))
    {
      CountedAll(DepsOf(deps, x), Elems(nodes) - done, node, neighbors, x, inDegree[x]);
    }
  }

  /** A dependent that is still counted has not been emitted. */
  lemma NeighborWaits(nodes: seq<string>, deps: Deps, done: set<string>, node: string, neighbors: seq<string>, i: nat,
                      inDegree: map<string, nat>, x: string)
    requires Draining(nodes, deps, done, node, neighbors, i, inDegree) && i < |neighbors| && x == neighbors[i]
    requires node in nodes && node !in done
    requires Dependents(nodes, deps, node, neighbors)
    ensures x in nodes && x in inDegree && inDegree[x] > 0
    ensures Draining(nodes, deps, done, node, neighbors, i + 1, inDegree[x := inDegree[x] - 1])
  {
    assert x in neighbors;
    forall y | y in nodes
      ensures Counted(DepsOf(deps, y), Elems(nodes) - done, neighbors, i + 1, y, inDegree[y] as int - (if y == x then 1 else 0))
      ensures y == x ==> inDegree[y] > 0
    {
      CountedNext(DepsOf(deps, y), Elems(nodes) - done, node, neighbors, i, y, inDegree[y]);
    }
  }

  method Relax(nodes: seq<string>, deps: Deps, ghost done: set<string>, node: string, neighbors: seq<string>,
               inDegree0: map<string, nat>, queue0: seq<string>)
    returns (inDegree: map<string, nat>, queue: seq<string>)
    requires Degrees(nodes, deps, done, inDegree0) && node in nodes && node !in done
    requires inDegree0[node] == 0
    requires forall x :: x in done && x in nodes ==> inDegree0[x] == 0
    requires Dependents(nodes, deps, node, neighbors)
    requires QueueIs(nodes, done + {node}, inDegree0, queue0)
    ensures Degrees(nodes, deps, done + {node}, inDegree)
    ensures QueueIs(nodes, done + {node}, inDegree, queue)
    ensures forall x :: x in done + {node} && x in nodes ==> inDegree[x] == 0
  {
    inDegree, queue := inDegree0, queue0;
    DrainStart(nodes, deps, done, node, inDegree, neighbors);
    var i := 0;
    while i < |neighbors|
      invariant 0 <= i <= |neighbors|
      invariant Draining(nodes, deps, done, node, neighbors, i, inDegree)
      invariant QueueIs(nodes, done + {node}, inDegree, queue)
      invariant forall x :: x in done + {node} && x in nodes ==> inDegree[x] == 0
    {
      var next := neighbors[i];
      NeighborWaits(nodes, deps, done, node, neighbors, i, inDegree, next);
      inDegree := inDegree[next := inDegree[next] - 1];
      if inDegree[next] == 0 {
        queue := PushSorted(nodes, done + {node}, inDegree, queue, next);
      }
      i := i + 1;
    }
    DrainEnd(nodes, deps, done, node, neighbors, inDegree);
  }

  method PushSorted(nodes: seq<string>, ghost done: set<string>, ghost inDegree: map<string, nat>,
                    queue: seq<string>, next: string)
    returns (r: seq<string>)
    requires Sorted(queue) && Distinct(queue) && next !in queue
    requires forall x :: x in queue || x == next <==> x in nodes && x !in done && x in inDegree && inDegree[x] == 0
    ensures QueueIs(nodes, done, inDegree, r)
  {
    r := Sort(queue + [next]);
    PermutationDistinct(queue + [next], r);
  }

  // ---------- the sort ----------

  ghost predicate DrainInv(nodes: seq<string>, deps: Deps, inDegree: map<string, nat>, queue: seq<string>,
                           result: seq<string>) {
    var E := Needs(nodes, deps);
    && Run(E, Elems(nodes), result)
    && Greedy(E, Elems(nodes), result)
    && Degrees(nodes, deps, Elems(result), inDegree)
    && QueueIs(nodes, Elems(result), inDegree, queue)
    && forall x :: x in result && x in nodes ==> inDegree[x] == 0
  }

  /** The last entry of the queue is the greatest ready node. */
  lemma LastIsGreatest(nodes: seq<string>, deps: Deps, inDegree: map<string, nat>, queue: seq<string>,
                       result: seq<string>)
    requires DrainInv(nodes, deps, inDegree, queue, result) && queue != []
    ensures GreatestReady(Needs(nodes, deps), Elems(nodes), result, queue[|queue| - 1])
  {
    var last := queue[|queue| - 1];
    assert last in queue;
    ZeroIsReady(nodes, deps, result, inDegree, last);
    forall y | Ready(Needs(nodes, deps), Elems(nodes), result, y)
      ensures AtMost(y, last)
    {
      ZeroIsReady(nodes, deps, result, inDegree, y);
      assert y in queue;
    }
  }

  lemma EmptyQueueStuck(nodes: seq<string>, deps: Deps, inDegree: map<string, nat>, result: seq<string>)
    requires DrainInv(nodes, deps, inDegree, [], result)
    ensures Stuck(Needs(nodes, deps), Elems(nodes), result)
  {
    forall x
      ensures !Ready(Needs(nodes, deps), Elems(nodes), result, x)
    {
      if Ready(Needs(nodes, deps), Elems(nodes), result, x) {
        ZeroIsReady(nodes, deps, result, inDegree, x);
        assert false;
      }
    }
  }

  /** The entries of `nodes` that are in `keep`, in order. */
  function KeepIf(nodes: seq<string>, keep: set<string>): (r: seq<string>)
    ensures forall x :: x in r <==> x in nodes && x in keep
    ensures Distinct(nodes) ==> Distinct(r)
  {
    if nodes == [] then []
    else
      var n := |nodes| - 1;
      KeepIf(nodes[..n], keep) + (if nodes[n] in keep then [nodes[n]] else [])
  }

  /** What the sort answers, for any iteration order of the map. */
  ghost predicate Answers(nodes: seq<string>, deps: Deps, r: Outcome) {
    var E := Needs(nodes, deps);
    match r
    case Ok(order) =>
      && Acyclic(E)
      && Distinct(order) && Elems(order) == Elems(nodes)
      && TargetsFirst(E, order)
      && Greedy(E, Elems(nodes), order)
    case Err(cycle) =>
      && !Acyclic(E)
      && (forall x :: x in cycle <==> x in nodes && NeedsCycle(E, x))
      && cycle == KeepIf(nodes, Elems(cycle))
  }

  method Drain(nodes: seq<string>, deps: Deps, inDegree0: map<string, nat>, adj: map<string, seq<string>>,
               queue0: seq<string>)
    returns (result: seq<string>)
    requires Distinct(nodes) && Adjacent(nodes, deps, adj) && DrainInv(nodes, deps, inDegree0, queue0, [])
    ensures Run(Needs(nodes, deps), Elems(nodes), result)
    ensures Greedy(Needs(nodes, deps), Elems(nodes), result)
    ensures Stuck(Needs(nodes, deps), Elems(nodes), result)
  {
    var inDegree, queue := inDegree0, queue0;
    result := [];
    while queue != []
      invariant DrainInv(nodes, deps, inDegree, queue, result)
      decreases |nodes| - |result|
    {
      var node := queue[|queue| - 1];
      DrainStep(nodes, deps, inDegree, queue, result);
      inDegree, queue := Relax(nodes, deps, Elems(result), node, adj[node], inDegree, queue[..|queue| - 1]);
      result := result + [node];
    }
    EmptyQueueStuck(nodes, deps, inDegree, result);
  }

  /** Taking the last queue entry continues the greedy run and leaves a proper queue. */
  lemma DrainStep(nodes: seq<string>, deps: Deps, inDegree: map<string, nat>, queue: seq<string>, result: seq<string>)
    requires Distinct(nodes) && DrainInv(nodes, deps, inDegree, queue, result) && queue != []
    ensures var node := queue[|queue| - 1];
            && node in nodes && node !in Elems(result) && inDegree[node] == 0
            && Run(Needs(nodes, deps), Elems(nodes), result + [node])
            && Greedy(Needs(nodes, deps), Elems(nodes), result + [node])
            && Elems(result + [node]) == Elems(result) + {node}
            && QueueIs(nodes, Elems(result) + {node}, inDegree, queue[..|queue| - 1])
            && |result| < |nodes|
  {
    var node := queue[|queue| - 1];
    var E := Needs(nodes, deps);
    LastIsGreatest(nodes, deps, inDegree, queue, result);
    GreedyStep(E, Elems(nodes), result, node);
    RunStep(E, Elems(nodes), result, node);
    TakeLast(nodes, Elems(result), inDegree, queue);
    Shorter(nodes, result + [node]);
    assert node in queue;
  }

  method TopologicalSort(nodes: seq<string>, deps: Deps) returns (r: Outcome)
    requires Distinct(nodes) && deps.Keys <= Elems(nodes)
    ensures Answers(nodes, deps, r)
  {
    var inDegree, adj := BuildGraph(nodes, deps);
    var ready := KeepIf(nodes, set x | x in inDegree && inDegree[x] == 0);
    var queue := Sort(ready);
    PermutationDistinct(ready, queue);
    assert Elems<string>([]) == {};
    var result := Drain(nodes, deps, inDegree, adj, queue);
    Conclude(nodes, deps, result);
    if |result| != |nodes| {
      r := Err(KeepIf(nodes, (set x | x in nodes) - (set x | x in result)));
    } else {
      r := Ok(result);
    }
  }

  lemma {:induction false} Conclude(nodes: seq<string>, deps: Deps, result: seq<string>)
    requires Distinct(nodes)
    requires Run(Needs(nodes, deps), Elems(nodes), result)
    requires Greedy(Needs(nodes, deps), Elems(nodes), result)
    requires Stuck(Needs(nodes, deps), Elems(nodes), result)
    ensures if |result| == |nodes| then Answers(nodes, deps, Ok(result))
            else Answers(nodes, deps, Err(KeepIf(nodes, Elems(nodes) - Elems(result))))
  {
    var E := Needs(nodes, deps);
    StuckRun(E, Elems(nodes), result);
    Shorter(nodes, result);
    DistinctLength(result, Elems(nodes));
    KeepIfSelf(nodes, Elems(nodes) - Elems(result));
  }

  lemma TakeLast(nodes: seq<string>, done: set<string>, inDegree: map<string, nat>, queue: seq<string>)
    requires QueueIs(nodes, done, inDegree, queue) && queue != []
    ensures QueueIs(nodes, done + {queue[|queue| - 1]}, inDegree, queue[..|queue| - 1])
  {
    WithoutLast(queue);
  }

  lemma Shorter(nodes: seq<string>, order: seq<string>)
    requires Distinct(nodes) && Distinct(order) && forall x :: x in order ==> x in nodes
    ensures |order| <= |nodes| == |Elems(nodes)|
  {
    DistinctLength(nodes, Elems(nodes));
    DistinctLength(order, Elems(nodes));
  }

  lemma {:induction false} KeepIfCongruent(nodes: seq<string>, a: set<string>, b: set<string>)
    requires forall x :: x in nodes ==> (x in a <==> x in b)
    ensures KeepIf(nodes, a) == KeepIf(nodes, b)
  {
    if nodes != [] {
      KeepIfCongruent(nodes[..|nodes| - 1], a, b);
    }
  }

  lemma {:induction false} KeepIfSelf(nodes: seq<string>, keep: set<string>)
    ensures KeepIf(nodes, keep) == KeepIf(nodes, Elems(KeepIf(nodes, keep)))
  {
    KeepIfCongruent(nodes, keep, Elems(KeepIf(nodes, keep)));
  }

  /** There is only one answer, so the iteration order of the map cannot show. */
  lemma AnswerUnique(nodes: seq<string>, deps: Deps, a: Outcome, b: Outcome)
    requires Distinct(nodes)
    requires Answers(nodes, deps, a)
    requires Answers(nodes, deps, b)
    ensures a == b
  {
    var E := Needs(nodes, deps);
    if a.Ok? {
      assert Stuck(E, Elems(nodes), a.order);
      assert Stuck(E, Elems(nodes), b.order);
      GreedyUnique(E, Elems(nodes), a.order, b.order);
    } else {
      assert Elems(a.cycle) == Elems(b.cycle);
    }
  }

  // ---------- one route ----------

  /** One transform of the route: the member it sets and its body. */
  datatype Transform = Transform(member: string, body: Expr)

  /** The references of `m`'s transforms that name members of the entity, in order. */
  ghost function RefsOf(transforms: seq<Transform>, members: set<string>, m: string): seq<string> {
    if transforms == [] then []
    else
      var n := |transforms| - 1;
      RefsOf(transforms[..n], members, m) + (if transforms[n].member == m then Known(Refs(transforms[n].body), members) else [])
  }

  ghost function Known(refs: seq<string>, members: set<string>): seq<string> {
    if refs == [] then []
    else Known(refs[..|refs| - 1], members) + (if refs[|refs| - 1] in members then [refs[|refs| - 1]] else [])
  }

  lemma {:induction false} KnownElements(refs: seq<string>, members: set<string>, d: string)
    ensures d in Known(refs, members) <==> d in refs && d in members
  {
    if refs != [] {
      KnownElements(refs[..|refs| - 1], members, d);
      assert refs == refs[..|refs| - 1] + [refs[|refs| - 1]];
    }
  }

  ghost predicate Mentions(transforms: seq<Transform>, m: string, d: string) {
    exists t :: t in transforms && t.member == m && In(t.body, d, false)
  }

  lemma {:induction false} RefsElements(transforms: seq<Transform>, members: set<string>, m: string, d: string)
    ensures d in RefsOf(transforms, members, m) <==> d in members && Mentions(transforms, m, d)
  {
    if transforms != [] {
      var n := |transforms| - 1;
      RefsElements(transforms[..n], members, m, d);
      KnownElements(Refs(transforms[n].body), members, d);
      RefsExact(transforms[n].body, d);
      assert transforms == transforms[..n] + [transforms[n]];
    }
  }

  ghost function MembersSet(transforms: seq<Transform>): set<string> {
    set t | t in transforms :: t.member
  }

  /** Some transform of `x` refers to the new value of `d`, and the route sets `d` too. */
  ghost function References(transforms: seq<Transform>): set<(string, string)> {
    set x, d | x in MembersSet(transforms) && d in MembersSet(transforms) && Mentions(transforms, x, d) :: (x, d)
  }

  /** The tables of one route after the transforms `done`. */
  ghost predicate Collected(members: set<string>, done: seq<Transform>, nodes: seq<string>, deps: Deps) {
    && Elems(nodes) == deps.Keys == MembersSet(done)
    && Distinct(nodes)
    && RefsCollected(members, done, deps)
  }

  ghost predicate RefsCollected(members: set<string>, done: seq<Transform>, deps: Deps) {
    forall m :: m in deps ==> deps[m] == RefsOf(done, members, m)
  }

  method CollectDeps(members: set<string>, transforms: seq<Transform>) returns (nodes: seq<string>, deps: Deps)
    ensures Collected(members, transforms, nodes, deps)
  {
    deps, nodes := map[], [];
    var seen: set<string> := {};
    for i := 0 to |transforms|
      invariant seen == Elems(nodes)
      invariant Collected(members, transforms[..i], nodes, deps)
    {
      var t := transforms[i];
      assert transforms[..i + 1] == transforms[..i] + [t];
      CollectStep(members, transforms[..i], nodes, deps, t);
      if t.member !in seen {
        seen := seen + {t.member};
        nodes := nodes + [t.member];
      }
      var refs := CollectTemporalRefs(t.body);
      refs := AppendKnown(DepsOf(deps, t.member), refs, members);
      deps := deps[t.member := refs];
    }
    assert transforms[..|transforms|] == transforms;
  }

  method AppendKnown(to: seq<string>, refs: seq<string>, members: set<string>) returns (r: seq<string>)
    ensures r == to + Known(refs, members)
  {
    r := to;
    for j := 0 to |refs|
      invariant r == to + Known(refs[..j], members)
    {
      assert refs[..j + 1][..j] == refs[..j];
      if refs[j] in members {
        r := r + [refs[j]];
      }
    }
    assert refs[..|refs|] == refs;
  }

  lemma {:induction false} CollectStep(members: set<string>, done: seq<Transform>, nodes: seq<string>,
                                       deps: Deps, t: Transform)
    requires Collected(members, done, nodes, deps)
    ensures Collected(members, done + [t],
                      if t.member in nodes then nodes else nodes + [t.member],
                      deps[t.member := DepsOf(deps, t.member) + Known(Refs(t.body), members)])
  {
    MembersSnoc(done, t);
    RefsStep(members, done, deps, t);
    assert t.member in deps <==> t.member in nodes;
  }

  lemma {:induction false} RefsStep(members: set<string>, done: seq<Transform>, deps: Deps, t: Transform)
    requires RefsCollected(members, done, deps) && deps.Keys == MembersSet(done)
    ensures RefsCollected(members, done + [t], deps[t.member := DepsOf(deps, t.member) + Known(Refs(t.body), members)])
  {
    RefsSnoc(done, members, t);
    if t.member !in deps {
      NoRefs(done, members, t.member);
    }
  }

  lemma MembersSnoc(done: seq<Transform>, t: Transform)
    ensures MembersSet(done + [t]) == MembersSet(done) + {t.member}
  {
    assert t in done + [t];
    assert forall u :: u in done + [t] <==> u in done || u == t;
  }

  lemma {:induction false} RefsSnoc(done: seq<Transform>, members: set<string>, t: Transform)
    ensures RefsOf(done + [t], members, t.member) == RefsOf(done, members, t.member) + Known(Refs(t.body), members)
    ensures forall m :: m != t.member ==> RefsOf(done + [t], members, m) == RefsOf(done, members, m)
  {
    assert (done + [t])[..|done|] == done;
  }

  lemma {:induction false} NoRefs(done: seq<Transform>, members: set<string>, m: string)
    requires m !in MembersSet(done)
    ensures RefsOf(done, members, m) == []
  {
    if done != [] {
      var n := |done| - 1;
      assert done == done[..n] + [done[n]];
      MembersSnoc(done[..n], done[n]);
      NoRefs(done[..n], members, m);
    }
  }

  lemma NeedsAreReferences(members: set<string>, transforms: seq<Transform>, nodes: seq<string>, deps: Deps)
    requires MembersSet(transforms) <= members && Collected(members, transforms, nodes, deps)
    ensures Needs(nodes, deps) == References(transforms)
  {
    assert forall y :: y in nodes <==> y in Elems(nodes);
    forall x, d
      ensures (x, d) in Needs(nodes, deps) <==> (x, d) in References(transforms)
    {
      RefsElements(transforms, members, x, d);
      assert x in nodes ==> DepsOf(deps, x) == RefsOf(transforms, members, x);
    }
  }

  ghost predicate RouteAnswer(E: set<(string, string)>, members: set<string>, r: Outcome) {
    match r
    case Ok(order) =>
      && Acyclic(E) && Distinct(order) && Elems(order) == members
      && TargetsFirst(E, order) && Greedy(E, members, order)
    case Err(cycle) =>
      && !Acyclic(E)
      && forall x :: x in cycle <==> x in members && NeedsCycle(E, x)
  }

  /** The body of the per-route loop: an order for the members the route sets, or the members
      that wait for a cycle of `^` references. */
  method RouteOrder(members: set<string>, transforms: seq<Transform>) returns (r: Outcome)
    requires MembersSet(transforms) <= members
    ensures RouteAnswer(References(transforms), MembersSet(transforms), r)
  {
    var nodes, deps := CollectDeps(members, transforms);
    NeedsAreReferences(members, transforms, nodes, deps);
    r := TopologicalSort(nodes, deps);
  }

  /** Some transform of `m` mentions `d`, in the open or not. */
  ghost predicate MentionsAnywhere(transforms: seq<Transform>, m: string, d: string) {
    exists t :: t in transforms && t.member == m && In(t.body, d, true)
  }

  ghost function EveryReference(transforms: seq<Transform>): set<(string, string)> {
    set x, d | x in MembersSet(transforms) && d in MembersSet(transforms) && MentionsAnywhere(transforms, x, d) :: (x, d)
  }

  /** Without `address_of` and `encode` the route is ordered by all its references. */
  lemma {:induction false} EveryReferenceSeen(transforms: seq<Transform>)
    requires forall t :: t in transforms ==> Transparent(t.body)
    ensures References(transforms) == EveryReference(transforms)
  {
    forall x, d
      ensures Mentions(transforms, x, d) <==> MentionsAnywhere(transforms, x, d)
    {
      forall t | t in transforms
        ensures In(t.body, d, false) <==> In(t.body, d, true)
      {
        RefsExact(t.body, d);
        TransparentExact(t.body, d);
      }
    }
  }

  /** A reference inside `encode` is not seen: `z` is computed before the `a` it refers to. */
  lemma {:induction false} HiddenReference(transforms: seq<Transform>, r: Outcome)
    requires transforms == [Transform("z", Encode(TemporalRef("a"))), Transform("a", Leaf)]
    requires RouteAnswer(References(transforms), MembersSet(transforms), r)
    ensures MentionsAnywhere(transforms, "z", "a") && r == Ok(["z", "a"])
  {
    NothingSeen(transforms);
    NoEdgesAcyclic(References(transforms));
    TwoDescending(MembersSet(transforms), r.order, "a", "z");
  }

  lemma {:induction false} NothingSeen(transforms: seq<Transform>)
    requires transforms == [Transform("z", Encode(TemporalRef("a"))), Transform("a", Leaf)]
    ensures References(transforms) == {} && MembersSet(transforms) == {"z", "a"}
    ensures MentionsAnywhere(transforms, "z", "a")
  {
    var first, second := transforms[0], transforms[1];
    assert transforms == [first, second];
    assert forall t :: t in transforms <==> t == first || t == second;
    assert In(first.body, "a", true);
    NothingOpen(first.body);
    NothingOpen(second.body);
  }

  lemma {:induction false} NothingOpen(e: Expr)
    requires Refs(e) == []
    ensures forall d :: !In(e, d, false)
  {
    forall d
      ensures !In(e, d, false)
    {
      RefsExact(e, d);
    }
  }

  lemma NoEdgesAcyclic(E: set<(string, string)>)
    requires E == {}
    ensures Acyclic(E)
  {
  }

  /** Without edges the greedy order is the descending one. */
  lemma {:induction false} TwoDescending(members: set<string>, order: seq<string>, low: string, high: string)
    requires members == {low, high} && !AtMost(high, low)
    requires Distinct(order) && Elems(order) == members && Greedy({}, members, order)
    ensures order == [high, low]
  {
    assert low != high;
    DistinctLength(order, members);
    assert |order| == 2;
    assert order[0] in members && order[1] in members;
    assert order[..0] == [];
    assert GreatestReady({}, members, order[..0], order[0]);
    assert Ready({}, members, [], high);
  }
}
