/** Deployment order of the instances of a multi-entity invariant
    (cambrian-transpiler/src/codegen/evm_test_codegen.rs). */
module DeployOrder {
  import opened Wrappers
  import opened Graphs
  import opened Sequences
  import opened StringOrder
  import opened Kahn
  import opened Ast

  datatype Route = Route(name: string, isInit: bool, params: seq<Type>)

  datatype Entity = Entity(name: string, routes: seq<Route>)

  /** The values of the `init` pins; only plain identifiers can name a sibling. */
  datatype Pin = Ident(name: string) | Other

  datatype Instance = Instance(name: string, entity: Entity, pins: seq<Pin>)

  /** Route `r` is the first one that is marked `init` or called `constructor`. */
  ghost predicate FirstInit(routes: seq<Route>, r: nat) {
    && r < |routes| && (routes[r].isInit || routes[r].name == "constructor")
    && forall q :: 0 <= q < r ==> !routes[q].isInit && routes[q].name != "constructor"
  }

  ghost predicate IsInitRoute(routes: seq<Route>, route: Route) {
    exists r: nat :: FirstInit(routes, r) && routes[r] == route
  }

  function FindInitRoute(routes: seq<Route>): (r: Option<Route>)
    ensures r.None? ==> forall q :: 0 <= q < |routes| ==> !routes[q].isInit && routes[q].name != "constructor"
    ensures r.Some? ==> IsInitRoute(routes, r.value)
  {
    if routes == [] then None
    else if routes[0].isInit || routes[0].name == "constructor" then
      assert FirstInit(routes, 0);
      Some(routes[0])
    else
      FirstInitBehind(routes);
      FindInitRoute(routes[1..])
  }

  lemma FirstInitBehind(routes: seq<Route>)
    requires routes != [] && !routes[0].isInit && routes[0].name != "constructor"
    ensures forall r: nat :: FirstInit(routes[1..], r) ==> FirstInit(routes, r + 1)
  {
    assert forall q :: 0 < q < |routes| ==> routes[q] == routes[1..][q - 1];
  }

  function TypedAddressEntity(ty: Type): Option<string> {
    match ty
    case TypedAddress(name) => Some(name)
    case Generic(name, params) =>
      if name == "Address" && |params| == 1 && params[0].Simple? then Some(params[0].name) else None
    case _ => None
  }

  /** First instance called `name`. */
  function ByName(insts: seq<Instance>, name: string): (r: Option<nat>)
    ensures r.Some? ==> r.value < |insts| && insts[r.value].name == name && forall k :: 0 <= k < r.value ==> insts[k].name != name
    ensures r.None? ==> forall k :: 0 <= k < |insts| ==> insts[k].name != name
  {
    if insts == [] then None
    else if insts[0].name == name then Some(0)
    else match ByName(insts[1..], name)
         case None => None
         case Some(k) => Some(k + 1)
  }

  /** First instance of the entity called `name`. */
  function ByEntity(insts: seq<Instance>, name: string): (r: Option<nat>)
    ensures r.Some? ==> r.value < |insts| && insts[r.value].entity.name == name
                        && forall k :: 0 <= k < r.value ==> insts[k].entity.name != name
    ensures r.None? ==> forall k :: 0 <= k < |insts| ==> insts[k].entity.name != name
  {
    if insts == [] then None
    else if insts[0].entity.name == name then Some(0)
    else match ByEntity(insts[1..], name)
         case None => None
         case Some(k) => Some(k + 1)
  }

  function PinTarget(insts: seq<Instance>, pin: Pin): Option<nat> {
    match pin
    case Ident(name) => ByName(insts, name)
    case Other => None
  }

  function ParamTarget(insts: seq<Instance>, ty: Type): Option<nat> {
    match TypedAddressEntity(ty)
    case Some(ename) => ByEntity(insts, ename)
    case None => None
  }

  function InitParams(inst: Instance): seq<Type> {
    match FindInitRoute(inst.entity.routes)
    case Some(route) => route.params
    case None => []
  }

  /** A pin of `i` is the name of `j`, which no earlier instance has. */
  ghost predicate PinNames(insts: seq<Instance>, i: nat, j: nat)
    requires i < |insts| && j < |insts|
  {
    Ident(insts[j].name) in insts[i].pins && forall k :: 0 <= k < j ==> insts[k].name != insts[j].name
  }

  /** A parameter of the init route of `i` is an address of the entity of `j`, which no earlier instance has. */
  ghost predicate ParamNames(insts: seq<Instance>, i: nat, j: nat)
    requires i < |insts| && j < |insts|
  {
    var name := insts[j].entity.name;
    && (exists route :: IsInitRoute(insts[i].entity.routes, route)
                        && (TypedAddress(name) in route.params || Generic("Address", [Simple(name)]) in route.params))
    && forall k :: 0 <= k < j ==> insts[k].entity.name != name
  }

  /** Deploying `i` mentions its sibling `j`. */
  ghost predicate Mentions(insts: seq<Instance>, i: nat, j: nat) {
    i < |insts| && j < |insts| && i != j && (PinNames(insts, i, j) || ParamNames(insts, i, j))
  }

  lemma {:induction false} PinNamesIff(insts: seq<Instance>, i: nat, j: nat)
    requires i < |insts| && j < |insts|
    ensures PinNames(insts, i, j) <==> exists pin :: pin in insts[i].pins && PinTarget(insts, pin) == Some(j)
  {
    if PinNames(insts, i, j) {
      assert PinTarget(insts, Ident(insts[j].name)) == Some(j);
    }
  }

  lemma InitRouteIff(routes: seq<Route>, route: Route)
    ensures IsInitRoute(routes, route) <==> FindInitRoute(routes) == Some(route)
  {
    if IsInitRoute(routes, route) {
      var r: nat :| FirstInit(routes, r) && routes[r] == route;
      var q: nat :| FirstInit(routes, q) && routes[q] == FindInitRoute(routes).value;
      assert r == q;
    }
  }

  lemma {:induction false} ParamNamesIff(insts: seq<Instance>, i: nat, j: nat)
    requires i < |insts| && j < |insts|
    ensures ParamNames(insts, i, j) <==> exists ty :: ty in InitParams(insts[i]) && ParamTarget(insts, ty) == Some(j)
  {
    var name := insts[j].entity.name;
    if ParamNames(insts, i, j) {
      var route :| IsInitRoute(insts[i].entity.routes, route)
                   && (TypedAddress(name) in route.params || Generic("Address", [Simple(name)]) in route.params);
      InitRouteIff(insts[i].entity.routes, route);
      assert ParamTarget(insts, TypedAddress(name)) == Some(j) && ParamTarget(insts, Generic("Address", [Simple(name)])) == Some(j);
    }
    if ty :| ty in InitParams(insts[i]) && ParamTarget(insts, ty) == Some(j) {
      var route := FindInitRoute(insts[i].entity.routes).value;
      InitRouteIff(insts[i].entity.routes, route);
      assert ty == TypedAddress(name) || ty == Generic("Address", [Simple(name)]);
    }
  }

  ghost function SiblingEdges(insts: seq<Instance>): set<(nat, nat)> {
    set i: nat, j: nat | i < |insts| && j < |insts| && Mentions(insts, i, j) :: (i, j)
  }

  // ---------- the tables ----------

  /** Targets of the first pins, in order, without `i` itself. */
  function PinTargets(insts: seq<Instance>, i: nat, pins: seq<Pin>): seq<nat> {
    if pins == [] then []
    else PinTargets(insts, i, pins[..|pins| - 1]) + Kept(i, PinTarget(insts, pins[|pins| - 1]))
  }

  function ParamTargets(insts: seq<Instance>, i: nat, params: seq<Type>): seq<nat> {
    if params == [] then []
    else ParamTargets(insts, i, params[..|params| - 1]) + Kept(i, ParamTarget(insts, params[|params| - 1]))
  }

  function Kept(i: nat, target: Option<nat>): seq<nat> {
    match target
    case Some(j) => if i != j then [j] else []
    case None => []
  }

  function NeedList(insts: seq<Instance>, i: nat): seq<nat>
    requires i < |insts|
  {
    PinTargets(insts, i, insts[i].pins) + ParamTargets(insts, i, InitParams(insts[i]))
  }

  lemma {:induction false} PinTargetsElements(insts: seq<Instance>, i: nat, pins: seq<Pin>, j: nat)
    ensures j in PinTargets(insts, i, pins) <==> i != j && exists pin :: pin in pins && PinTarget(insts, pin) == Some(j)
  {
    if pins != [] {
      PinTargetsElements(insts, i, pins[..|pins| - 1], j);
      assert pins == pins[..|pins| - 1] + [pins[|pins| - 1]];
    }
  }

  lemma {:induction false} ParamTargetsElements(insts: seq<Instance>, i: nat, params: seq<Type>, j: nat)
    ensures j in ParamTargets(insts, i, params) <==> i != j && exists ty :: ty in params && ParamTarget(insts, ty) == Some(j)
  {
    if params != [] {
      ParamTargetsElements(insts, i, params[..|params| - 1], j);
      assert params == params[..|params| - 1] + [params[|params| - 1]];
    }
  }

  lemma NeedListElements(insts: seq<Instance>, i: nat, j: nat)
    requires i < |insts| && j < |insts|
    ensures j in NeedList(insts, i) <==> (i, j) in SiblingEdges(insts)
  {
    PinTargetsElements(insts, i, insts[i].pins, j);
    ParamTargetsElements(insts, i, InitParams(insts[i]), j);
    PinNamesIff(insts, i, j);
    ParamNamesIff(insts, i, j);
  }

  ghost function Upto(n: nat): (r: set<nat>)
    ensures forall i: nat :: i in r <==> i < n
    ensures |r| == n
  {
    if n == 0 then {} else Upto(n - 1) + {n - 1}
  }

  ghost predicate InRange(n: nat, s: seq<nat>) {
    forall p :: 0 <= p < |s| ==> s[p] < n
  }

  /** `indeg[i]` counts the needs of `i` that are not in `done`. */
  ghost predicate DegreesAre(needs: seq<seq<nat>>, done: set<nat>, indeg: seq<nat>) {
    |indeg| == |needs| && forall i: nat :: i < |needs| ==> indeg[i] == CountIn(needs[i], Upto(|needs|) - done)
  }

  /** `adj[j]` lists `i` as often as `i` needs `j`. */
  ghost predicate AdjacentIs(needs: seq<seq<nat>>, adj: seq<seq<nat>>) {
    |adj| == |needs| && forall j: nat :: j < |needs| ==> DependentsAre(needs, j, adj[j])
  }

  ghost predicate DependentsAre(needs: seq<seq<nat>>, j: nat, dependents: seq<nat>) {
    InRange(|needs|, dependents) && forall i: nat :: i < |needs| ==> Times(dependents, i) == Times(needs[i], j)
  }

  lemma AddEdgeTables(needs: seq<seq<nat>>, indeg: seq<nat>, adj: seq<seq<nat>>, i: nat, j: nat)
    requires DegreesAre(needs, {}, indeg) && AdjacentIs(needs, adj) && i < |needs| && j < |needs|
    ensures DegreesAre(needs[i := needs[i] + [j]], {}, indeg[i := indeg[i] + 1])
    ensures AdjacentIs(needs[i := needs[i] + [j]], adj[j := adj[j] + [i]])
  {
    var needs' := needs[i := needs[i] + [j]];
    var adj' := adj[j := adj[j] + [i]];
    Snoc(needs[i], j);
    forall k: nat | k < |needs|
      ensures DependentsAre(needs', k, adj'[k])
    {
      assert DependentsAre(needs, k, adj[k]);
      Snoc(adj[k], i);
    }
  }

  ghost predicate NonDecreasing(s: seq<nat>) {
    forall i, j :: 0 <= i < j < |s| ==> s[i] <= s[j]
  }

  /** Every list of dependents is in the order of the indices, none above `top`. */
  ghost predicate Ascending(adj: seq<seq<nat>>, top: nat) {
    forall j :: 0 <= j < |adj| ==> NonDecreasing(adj[j]) && forall k :: 0 <= k < |adj[j]| ==> adj[j][k] <= top
  }

  lemma AscendingAdd(adj: seq<seq<nat>>, top: nat, j: nat)
    requires Ascending(adj, top) && j < |adj|
    ensures Ascending(adj[j := adj[j] + [top]], top)
  {
  }

  lemma AscendingUp(adj: seq<seq<nat>>, top: nat, top': nat)
    requires Ascending(adj, top) && top <= top'
    ensures Ascending(adj, top')
  {
    forall j | 0 <= j < |adj|
      ensures NonDecreasing(adj[j]) && forall k :: 0 <= k < |adj[j]| ==> adj[j][k] <= top'
    {
    }
  }

  method AddEdge(i: nat, target: Option<nat>, indeg: array<nat>, adj: array<seq<nat>>, ghost needs: seq<seq<nat>>)
    requires indeg.Length == adj.Length == |needs| && i < |needs|
    requires target.Some? ==> target.value < |needs|
    requires DegreesAre(needs, {}, indeg[..]) && AdjacentIs(needs, adj[..]) && Ascending(adj[..], i)
    modifies indeg, adj
    ensures Ascending(adj[..], i)
    ensures DegreesAre(needs[i := needs[i] + Kept(i, target)], {}, indeg[..])
    ensures AdjacentIs(needs[i := needs[i] + Kept(i, target)], adj[..])
  {
    assert needs[i] + [] == needs[i] && needs[i := needs[i]] == needs;
    match target
    case None =>
    case Some(j) =>
      if i != j {
        AddEdgeTables(needs, indeg[..], adj[..], i, j);
        ghost var indeg0, adj0 := indeg[..], adj[..];
        adj[j] := adj[j] + [i];
        indeg[i] := indeg[i] + 1;
        assert indeg[..] == indeg0[i := indeg0[i] + 1];
        assert adj[..] == adj0[j := adj0[j] + [i]];
        AscendingAdd(adj0, i, j);
      }
  }

  /** One more need of `i`, which has `sofar` already. */
  method AddNeed(i: nat, target: Option<nat>, indeg: array<nat>, adj: array<seq<nat>>, ghost start: seq<seq<nat>>,
                 ghost sofar: seq<nat>)
    requires indeg.Length == adj.Length == |start| && i < |start|
    requires target.Some? ==> target.value < |start|
    requires DegreesAre(start[i := sofar], {}, indeg[..]) && AdjacentIs(start[i := sofar], adj[..]) && Ascending(adj[..], i)
    modifies indeg, adj
    ensures Ascending(adj[..], i)
    ensures DegreesAre(start[i := sofar + Kept(i, target)], {}, indeg[..])
    ensures AdjacentIs(start[i := sofar + Kept(i, target)], adj[..])
  {
    AddEdge(i, target, indeg, adj, start[i := sofar]);
    assert start[i := sofar][i := sofar + Kept(i, target)] == start[i := sofar + Kept(i, target)];
  }

  ghost function NeedsUpto(insts: seq<Instance>, i: nat): seq<seq<nat>>
    requires i <= |insts|
  {
    seq(|insts|, k requires 0 <= k < |insts| => if k < i then NeedList(insts, k) else [])
  }

  lemma {:induction false} OneMorePin(insts: seq<Instance>, i: nat, start: seq<seq<nat>>, pins: seq<Pin>, p: nat)
    requires p < |pins| && i < |start|
    ensures PinTargets(insts, i, pins[..p + 1]) == PinTargets(insts, i, pins[..p]) + Kept(i, PinTarget(insts, pins[p]))
    ensures start[i := PinTargets(insts, i, pins[..p])][i := PinTargets(insts, i, pins[..p + 1])] == start[i := PinTargets(insts, i, pins[..p + 1])]
  {
    assert pins[..p + 1][..p] == pins[..p];
  }

  method AddEdgesOf(insts: seq<Instance>, i: nat, indeg: array<nat>, adj: array<seq<nat>>)
    requires indeg.Length == adj.Length == |insts| && i < |insts|
    requires DegreesAre(NeedsUpto(insts, i), {}, indeg[..]) && AdjacentIs(NeedsUpto(insts, i), adj[..]) && Ascending(adj[..], i)
    modifies indeg, adj
    ensures Ascending(adj[..], i)
    ensures DegreesAre(NeedsUpto(insts, i + 1), {}, indeg[..]) && AdjacentIs(NeedsUpto(insts, i + 1), adj[..])
  {
    ghost var start := NeedsUpto(insts, i);
    var pins := insts[i].pins;
    var p := 0;
    assert start[i := PinTargets(insts, i, pins[..0])] == start;
    while p < |pins|
      invariant 0 <= p <= |pins|
      invariant DegreesAre(start[i := PinTargets(insts, i, pins[..p])], {}, indeg[..])
      invariant AdjacentIs(start[i := PinTargets(insts, i, pins[..p])], adj[..]) && Ascending(adj[..], i)
    {
      OneMorePin(insts, i, start, pins, p);
      AddNeed(i, PinTarget(insts, pins[p]), indeg, adj, start, PinTargets(insts, i, pins[..p]));
      p := p + 1;
    }
    assert pins[..p] == pins;
    AddParamEdges(insts, i, indeg, adj, start);
    assert start[i := NeedList(insts, i)] == NeedsUpto(insts, i + 1);
  }

  lemma {:induction false} OneMoreParam(insts: seq<Instance>, i: nat, fromPins: seq<nat>, params: seq<Type>, p: nat)
    requires p < |params|
    ensures fromPins + ParamTargets(insts, i, params[..p]) + Kept(i, ParamTarget(insts, params[p]))
            == fromPins + ParamTargets(insts, i, params[..p + 1])
  {
    assert params[..p + 1][..p] == params[..p];
  }

  method AddParamEdges(insts: seq<Instance>, i: nat, indeg: array<nat>, adj: array<seq<nat>>,
                       ghost start: seq<seq<nat>>)
    requires indeg.Length == adj.Length == |insts| == |start| && i < |insts|
    requires DegreesAre(start[i := PinTargets(insts, i, insts[i].pins)], {}, indeg[..])
    requires AdjacentIs(start[i := PinTargets(insts, i, insts[i].pins)], adj[..]) && Ascending(adj[..], i)
    modifies indeg, adj
    ensures Ascending(adj[..], i)
    ensures DegreesAre(start[i := NeedList(insts, i)], {}, indeg[..])
    ensures AdjacentIs(start[i := NeedList(insts, i)], adj[..])
  {
    ghost var fromPins := PinTargets(insts, i, insts[i].pins);
    match FindInitRoute(insts[i].entity.routes)
    case None =>
      assert NeedList(insts, i) == fromPins;
    case Some(route) =>
      var p := 0;
      assert fromPins + ParamTargets(insts, i, route.params[..0]) == fromPins;
      while p < |route.params|
        invariant 0 <= p <= |route.params|
        invariant DegreesAre(start[i := fromPins + ParamTargets(insts, i, route.params[..p])], {}, indeg[..])
        invariant AdjacentIs(start[i := fromPins + ParamTargets(insts, i, route.params[..p])], adj[..]) && Ascending(adj[..], i)
      {
        ghost var sofar := fromPins + ParamTargets(insts, i, route.params[..p]);
        OneMoreParam(insts, i, fromPins, route.params, p);
        AddNeed(i, ParamTarget(insts, route.params[p]), indeg, adj, start, sofar);
        p := p + 1;
      }
      assert route.params[..p] == route.params;
  }

  // ---------- draining the work list ----------

  /** The work list holds, once each, the instances that are ready and not yet placed. */
  ghost predicate WorkIs(done: set<nat>, indeg: seq<nat>, work: seq<nat>) {
    Distinct(work) && forall x: nat :: x in work <==> x < |indeg| && x !in done && indeg[x] == 0
  }

  /** `i` was placed and its first `k` dependents updated. */
  ghost predicate Draining(needs: seq<seq<nat>>, done: set<nat>, dependents: seq<nat>, k: nat, indeg: seq<nat>) {
    && k <= |dependents| && |indeg| == |needs|
    && forall x: nat :: x < |needs| ==> Counted(needs[x], Upto(|needs|) - done, dependents, k, x, indeg[x])
  }

  lemma DrainEnd(needs: seq<seq<nat>>, done: set<nat>, i: nat, dependents: seq<nat>, indeg: seq<nat>)
    requires Draining(needs, done, dependents, |dependents|, indeg)
    requires i < |needs| && i !in done && DependentsAre(needs, i, dependents)
    ensures DegreesAre(needs, done + {i}, indeg)
  {
    assert Upto(|needs|) - done - {i} == Upto(|needs|) - (done + {i});
    forall x: nat | x < |needs|
      ensures indeg[x] == CountIn(needs[x], Upto(|needs|) - (done + {i}))
    {
      CountedAll(needs[x], Upto(|needs|) - done, i, dependents, x, indeg[x]);
    }
  }

  lemma DependentWaits(needs: seq<seq<nat>>, done: set<nat>, i: nat, dependents: seq<nat>, k: nat, indeg: seq<nat>)
    requires Draining(needs, done, dependents, k, indeg) && k < |dependents|
    requires i < |needs| && i !in done && DependentsAre(needs, i, dependents)
    ensures var x := dependents[k]; x < |needs| && indeg[x] > 0
    ensures var x := dependents[k]; indeg[x] > 0 ==> Draining(needs, done, dependents, k + 1, indeg[x := indeg[x] - 1])
  {
    assert dependents[k] in dependents;
    forall x: nat | x < |needs|
      ensures Counted(needs[x], Upto(|needs|) - done, dependents, k + 1, x, indeg[x] as int - (if x == dependents[k] then 1 else 0))
      ensures x == dependents[k] ==> indeg[x] > 0
    {
      CountedNext(needs[x], Upto(|needs|) - done, i, dependents, k, x, indeg[x]);
    }
  }

  /** What was queued since `work0` are some of the first `k` dependents, in their order. */
  ghost predicate Queued(work0: seq<nat>, dependents: seq<nat>, k: nat, work: seq<nat>) {
    && k <= |dependents| && work0 <= work
    && (forall p :: |work0| <= p < |work| ==> work[p] in dependents[..k])
    && (NonDecreasing(dependents) ==> NonDecreasing(work[|work0|..]))
  }

  lemma QueueNext(work0: seq<nat>, dependents: seq<nat>, k: nat, work: seq<nat>)
    requires Queued(work0, dependents, k, work) && k < |dependents|
    ensures Queued(work0, dependents, k + 1, work) && Queued(work0, dependents, k + 1, work + [dependents[k]])
  {
    assert dependents[..k + 1] == dependents[..k] + [dependents[k]];
    var next := work + [dependents[k]];
    assert next[|work0|..] == work[|work0|..] + [dependents[k]];
    if NonDecreasing(dependents) {
      forall p | 0 <= p < |work| - |work0|
        ensures work[|work0|..][p] <= dependents[k]
      {
        assert work[|work0| + p] in dependents[..k];
      }
    }
  }

  method Relax(ghost needs: seq<seq<nat>>, ghost done: set<nat>, i: nat, dependents: seq<nat>,
               indeg: array<nat>, work0: seq<nat>)
    returns (work: seq<nat>)
    requires DegreesAre(needs, done, indeg[..]) && i < |needs| && i !in done && indeg[i] == 0
    requires forall x: nat :: x in done && x < |needs| ==> indeg[x] == 0
    requires DependentsAre(needs, i, dependents)
    requires WorkIs(done + {i}, indeg[..], work0)
    modifies indeg
    ensures DegreesAre(needs, done + {i}, indeg[..])
    ensures WorkIs(done + {i}, indeg[..], work)
    ensures forall x: nat :: x in done + {i} && x < |needs| ==> indeg[x] == 0
    ensures NonDecreasing(dependents) ==> Appended(work0, work)
  {
    work := work0;
    var k := 0;
    while k < |dependents|
      invariant 0 <= k <= |dependents|
      invariant Draining(needs, done, dependents, k, indeg[..])
      invariant WorkIs(done + {i}, indeg[..], work)
      invariant forall x: nat :: x in done + {i} && x < |needs| ==> indeg[x] == 0
      invariant Queued(work0, dependents, k, work)
    {
      var x := dependents[k];
      QueueNext(work0, dependents, k, work);
      DependentWaits(needs, done, i, dependents, k, indeg[..]);
      ghost var before := indeg[..];
      indeg[x] := indeg[x] - 1;
      assert indeg[..] == before[x := before[x] - 1];
      if indeg[x] == 0 {
        work := work + [x];
      }
      k := k + 1;
    }
    DrainEnd(needs, done, i, dependents, indeg[..]);
  }

  ghost function AllNeeds(insts: seq<Instance>): seq<seq<nat>> {
    NeedsUpto(insts, |insts|)
  }

  lemma {:induction false} ZeroIsReady(insts: seq<Instance>, order: seq<nat>, indeg: seq<nat>, i: nat)
    requires DegreesAre(AllNeeds(insts), Elems(order), indeg) && i < |insts|
    ensures i !in order && indeg[i] == 0 <==> Ready(SiblingEdges(insts), Upto(|insts|), order, i)
  {
    forall j: nat
      ensures (i, j) in SiblingEdges(insts) <==> j in NeedList(insts, i) && j in Upto(|insts|)
    {
      if j < |insts| {
        NeedListElements(insts, i, j);
      }
    }
    NoneMissing(SiblingEdges(insts), Upto(|insts|), order, i, NeedList(insts, i));
  }

  ghost predicate PlaceInv(insts: seq<Instance>, order: seq<nat>, indeg: seq<nat>, work: seq<nat>) {
    && Run(SiblingEdges(insts), Upto(|insts|), order)
    && DegreesAre(AllNeeds(insts), Elems(order), indeg)
    && WorkIs(Elems(order), indeg, work)
    && forall x: nat :: x in Elems(order) && x < |indeg| ==> indeg[x] == 0
  }

  lemma {:induction false} PlaceStep(insts: seq<Instance>, order: seq<nat>, indeg: seq<nat>, work: seq<nat>)
    requires PlaceInv(insts, order, indeg, work) && work != []
    ensures var i := work[|work| - 1];
            && i < |insts| && i !in order && indeg[i] == 0
            && Run(SiblingEdges(insts), Upto(|insts|), order + [i])
            && Elems(order + [i]) == Elems(order) + {i}
            && WorkIs(Elems(order) + {i}, indeg, work[..|work| - 1])
            && |order| < |insts|
  {
    var i := work[|work| - 1];
    TakeLast(Elems(order), indeg, work);
    ZeroIsReady(insts, order, indeg, i);
    RunStep(SiblingEdges(insts), Upto(|insts|), order, i);
    RoomLeft(insts, order, i);
  }

  lemma RoomLeft(insts: seq<Instance>, order: seq<nat>, i: nat)
    requires Run(SiblingEdges(insts), Upto(|insts|), order + [i])
    ensures |order| < |insts| && Elems(order + [i]) == Elems(order) + {i}
  {
    DistinctLength(order + [i], Upto(|insts|));
  }

  lemma {:induction false} PlacedOne(insts: seq<Instance>, order: seq<nat>, done: set<nat>, indeg: seq<nat>,
                                     work: seq<nat>)
    requires Run(SiblingEdges(insts), Upto(|insts|), order) && done == Elems(order)
    requires DegreesAre(AllNeeds(insts), done, indeg) && WorkIs(done, indeg, work)
    requires forall x: nat :: x in done && x < |indeg| ==> indeg[x] == 0
    ensures PlaceInv(insts, order, indeg, work)
  {
  }

  lemma TakeLast(done: set<nat>, indeg: seq<nat>, work: seq<nat>)
    requires WorkIs(done, indeg, work) && work != []
    ensures var i := work[|work| - 1]; i < |indeg| && i !in done && indeg[i] == 0
    ensures WorkIs(done + {work[|work| - 1]}, indeg, work[..|work| - 1])
  {
    var i := work[|work| - 1];
    assert i in work;
    WithoutLast<nat>(work);
    forall x: nat
      ensures x in work[..|work| - 1] <==> x < |indeg| && x !in done + {i} && indeg[x] == 0
    {
      assert x in work[..|work| - 1] <==> x in work && x != i;
    }
  }

  lemma PlaceEnd(insts: seq<Instance>, order: seq<nat>, indeg: seq<nat>)
    requires PlaceInv(insts, order, indeg, [])
    ensures |order| == |insts| <==> Acyclic(SiblingEdges(insts))
    ensures |order| == |insts| ==> IsPermutation(|insts|, order)
  {
    var E := SiblingEdges(insts);
    forall i: nat
      ensures !Ready(E, Upto(|insts|), order, i)
    {
      if Ready(E, Upto(|insts|), order, i) {
        ZeroIsReady(insts, order, indeg, i);
        assert false;
      }
    }
    StuckRun(E, Upto(|insts|), order);
    DistinctLength(order, Upto(|insts|));
  }

  // ---------- the order, step by step ----------

  /** With `i` placed behind `order` the last thing that `x` waits for is there. */
  ghost predicate NewlyReady(E: set<(nat, nat)>, order: seq<nat>, i: nat, x: nat) {
    (x, i) in E && x !in order + [i] && forall d :: (x, d) in E ==> d in order + [i]
  }

  ghost function Released(E: set<(nat, nat)>, order: seq<nat>, i: nat, n: nat): seq<nat> {
    if n == 0 then [] else Released(E, order, i, n - 1) + (if NewlyReady(E, order, i, n - 1) then [n - 1] else [])
  }

  /** The indices below `n` that wait for nothing. */
  ghost function Waitless(E: set<(nat, nat)>, n: nat): seq<nat> {
    if n == 0 then [] else Waitless(E, n - 1) + (if Waits(E, n - 1) then [] else [n - 1])
  }

  ghost predicate Waits(E: set<(nat, nat)>, x: nat) {
    exists d :: (x, d) in E
  }

  /** `order`, and then what comes from always placing the index queued last and queueing, ascending, what
      waited only for it. */
  ghost function StackOrder(E: set<(nat, nat)>, n: nat, work: seq<nat>, order: seq<nat>): seq<nat>
    decreases n - |order|
  {
    if work == [] || |order| >= n then order
    else
      var i := work[|work| - 1];
      StackOrder(E, n, work[..|work| - 1] + Released(E, order, i, n), order + [i])
  }

  ghost predicate Rising(s: seq<nat>) {
    forall i, j :: 0 <= i < j < |s| ==> s[i] < s[j]
  }

  lemma {:induction false} ReleasedRising(E: set<(nat, nat)>, order: seq<nat>, i: nat, n: nat)
    ensures Rising(Released(E, order, i, n))
    ensures forall x: nat :: x in Released(E, order, i, n) <==> x < n && NewlyReady(E, order, i, x)
  {
    if n > 0 {
      ReleasedRising(E, order, i, n - 1);
      var s := Released(E, order, i, n - 1);
      assert forall p :: 0 <= p < |s| ==> s[p] in s;
    }
  }

  lemma StackStep(E: set<(nat, nat)>, n: nat, work: seq<nat>, i: nat, order: seq<nat>)
    requires |order| < n
    ensures StackOrder(E, n, work + [i], order) == StackOrder(E, n, work + Released(E, order, i, n), order + [i])
  {
    assert (work + [i])[..|work|] == work;
  }

  lemma StackDone(E: set<(nat, nat)>, n: nat, order: seq<nat>)
    ensures StackOrder(E, n, [], order) == order
  {
  }

  lemma ReleasedOne(E: set<(nat, nat)>, order: seq<nat>, i: nat, n: nat, x: nat)
    requires x < n && forall y: nat :: y < n ==> (NewlyReady(E, order, i, y) <==> y == x)
    ensures Released(E, order, i, n) == [x]
  {
    ReleasedRising(E, order, i, n);
    RisingUnique(Released(E, order, i, n), [x]);
  }

  lemma ReleasedNone(E: set<(nat, nat)>, order: seq<nat>, i: nat, n: nat)
    requires forall y: nat :: y < n ==> !NewlyReady(E, order, i, y)
    ensures Released(E, order, i, n) == []
  {
    ReleasedRising(E, order, i, n);
    RisingUnique(Released(E, order, i, n), []);
  }

  /** For example: of three instances the last needs the second. It is deployed right behind it. */
  lemma {:induction false} StackSample(E: set<(nat, nat)>, one: seq<nat>, two: seq<nat>)
    requires E == {(2, 1)} && one == [1] && two == [1, 2]
    ensures StackOrder(E, 3, [0] + [1], []) == two + [0]
  {
    assert (2, 1) in E;
    assert [] + [1] == one && one + [2] == two;
    ReleasedOne(E, [], 1, 3, 2);
    StackStep(E, 3, [0], 1, []);
    ReleasedNone(E, one, 2, 3);
    StackStep(E, 3, [0], 2, one);
    LastPlaced(E, two);
  }

  lemma LastPlaced(E: set<(nat, nat)>, order: seq<nat>)
    requires |order| == 2
    ensures StackOrder(E, 3, [0] + [], order) == order + [0]
  {
  }

  lemma RisingUnique(a: seq<nat>, b: seq<nat>)
    requires Rising(a) && Rising(b) && SameElements(a, b)
    ensures a == b
  {
    RankedUnique((x: nat, y: nat) => x < y, a, b);
  }

  // ---------- the report ----------

  lemma DeclarationOrderPermutes(n: nat)
    ensures IsPermutation(n, DeclarationOrder(n))
  {
    var order := DeclarationOrder(n);
    forall i: nat
      ensures i in order <==> i < n
    {
      if i < n {
        assert order[i] == i;
      }
    }
  }

  method DeployOrderReport(insts: seq<Instance>) returns (order: seq<nat>, topological: bool)
    ensures IsPermutation(|insts|, order)
    ensures topological <==> Acyclic(SiblingEdges(insts))
    ensures if topological then TargetsFirst(SiblingEdges(insts), order) else order == DeclarationOrder(|insts|)
    ensures var E := SiblingEdges(insts);
            topological ==> order == StackOrder(E, |insts|, Waitless(E, |insts|), [])
  {
    var n := |insts|;
    var indeg := new nat[n](_ => 0);
    var adj := new seq<nat>[n](_ => []);
    var i := 0;
    while i < n
      invariant 0 <= i <= n
      invariant DegreesAre(NeedsUpto(insts, i), {}, indeg[..]) && AdjacentIs(NeedsUpto(insts, i), adj[..]) && Ascending(adj[..], i)
    {
      AddEdgesOf(insts, i, indeg, adj);
      AscendingUp(adj[..], i, i + 1);
      i := i + 1;
    }
    order := Place(insts, indeg, adj);
    topological := |order| == n;
    if !topological {
      order := DeclarationOrder(n);
      DeclarationOrderPermutes(n);
    }
  }

  method Place(insts: seq<Instance>, indeg: array<nat>, adj: array<seq<nat>>) returns (order: seq<nat>)
    requires indeg.Length == adj.Length == |insts|
    requires DegreesAre(AllNeeds(insts), {}, indeg[..]) && AdjacentIs(AllNeeds(insts), adj[..]) && Ascending(adj[..], |insts|)
    modifies indeg
    ensures order == StackOrder(SiblingEdges(insts), |insts|, Waitless(SiblingEdges(insts), |insts|), [])
    ensures Run(SiblingEdges(insts), Upto(|insts|), order)
    ensures |order| == |insts| <==> Acyclic(SiblingEdges(insts))
    ensures |order| == |insts| ==> IsPermutation(|insts|, order)
  {
    var n := |insts|;
    var work := ReadyFirst(indeg[..], n);
    order := [];
    assert Elems(order) == {};
    ghost var table := adj[..];
    ghost var whole := StackOrder(SiblingEdges(insts), n, Waitless(SiblingEdges(insts), n), []);
    StartWork(insts, indeg[..], n);
    while work != []
      invariant indeg.Length == n && adj[..] == table
      invariant StackOrder(SiblingEdges(insts), n, work, order) == whole
      invariant PlaceInv(insts, order, indeg[..], work)
      decreases n - |order|
    {
      ghost var order0, before, work0 := order, indeg[..], work;
      order, work := PlaceNext(insts, order, work, indeg, adj);
      StackAdvance(insts, order0, before, work0, order, indeg[..], work);
    }
    StackDone(SiblingEdges(insts), n, order);
    PlaceEnd(insts, order, indeg[..]);
  }

  /** The last queued index is placed and its dependents are released. */
  method PlaceNext(insts: seq<Instance>, order0: seq<nat>, work0: seq<nat>, indeg: array<nat>, adj: array<seq<nat>>)
    returns (order: seq<nat>, work: seq<nat>)
    requires indeg.Length == adj.Length == |insts| && work0 != []
    requires PlaceInv(insts, order0, indeg[..], work0) && AdjacentIs(AllNeeds(insts), adj[..]) && Ascending(adj[..], |insts|)
    modifies indeg
    ensures PlaceInv(insts, order, indeg[..], work)
    ensures |order| == |order0| + 1 <= |insts|
    ensures Advanced(order0, work0, order, work)
  {
    PlaceStep(insts, order0, indeg[..], work0);
    var i := work0[|work0| - 1];
    assert adj[..][i] == adj[i];
    AdjacentOf(AllNeeds(insts), adj[..], |insts|, i);
    var front := work0[..|work0| - 1];
    work := Relax(AllNeeds(insts), Elems(order0), i, adj[i], indeg, front);
    order := order0 + [i];
    PlacedOne(insts, order, Elems(order0) + {i}, indeg[..], work);
  }

  /** The index queued last is placed, and others, ascending, are queued instead. */
  ghost predicate Advanced(order0: seq<nat>, work0: seq<nat>, order: seq<nat>, work: seq<nat>) {
    && work0 != [] && order == order0 + [work0[|work0| - 1]]
    && Appended(work0[..|work0| - 1], work)
  }

  ghost predicate Appended(front: seq<nat>, work: seq<nat>) {
    front <= work && NonDecreasing(work[|front|..])
  }

  lemma AdjacentOf(needs: seq<seq<nat>>, adj: seq<seq<nat>>, top: nat, i: nat)
    requires AdjacentIs(needs, adj) && Ascending(adj, top) && i < |needs|
    ensures DependentsAre(needs, i, adj[i]) && NonDecreasing(adj[i])
  {
  }

  lemma {:induction false} StackAdvance(insts: seq<Instance>, order0: seq<nat>, before: seq<nat>, work0: seq<nat>,
                                        order: seq<nat>, after: seq<nat>, work: seq<nat>)
    requires PlaceInv(insts, order0, before, work0) && |order0| < |insts|
    requires PlaceInv(insts, order, after, work) && Advanced(order0, work0, order, work)
    ensures StackOrder(SiblingEdges(insts), |insts|, work, order) == StackOrder(SiblingEdges(insts), |insts|, work0, order0)
  {
    var i, front := work0[|work0| - 1], work0[..|work0| - 1];
    QueuedAreReleased(insts, order0, i, before, work0, after, work);
    assert work0 == front + [i];
    StackStep(SiblingEdges(insts), |insts|, front, i, order0);
  }

  /** What one step queues is what it released. */
  lemma {:induction false} QueuedAreReleased(insts: seq<Instance>, order: seq<nat>, i: nat, before: seq<nat>, work0: seq<nat>,
                                             after: seq<nat>, work: seq<nat>)
    requires PlaceInv(insts, order, before, work0) && work0 != [] && i == work0[|work0| - 1]
    requires PlaceInv(insts, order + [i], after, work)
    requires work0[..|work0| - 1] <= work && NonDecreasing(work[|work0| - 1..])
    ensures work == work0[..|work0| - 1] + Released(SiblingEdges(insts), order, i, |insts|)
  {
    var E, n, m := SiblingEdges(insts), |insts|, |work0| - 1;
    var more := work[m..];
    assert work == work0[..m] + more;
    ReleasedRising(E, order, i, n);
    MoreRising(work, m);
    forall x: nat
      ensures x in more <==> x in Released(E, order, i, n)
    {
      InMore(work, m, x);
      ReadyBeforeAfter(insts, order, i, before, work0, after, work, x);
    }
    RisingUnique(more, Released(E, order, i, n));
  }

  lemma MoreRising(work: seq<nat>, m: nat)
    requires Distinct(work) && m <= |work| && NonDecreasing(work[m..])
    ensures Rising(work[m..])
  {
    forall p, q | 0 <= p < q < |work| - m
      ensures work[m..][p] < work[m..][q]
    {
      assert work[m + p] != work[m + q];
    }
  }

  lemma InMore(work: seq<nat>, m: nat, x: nat)
    requires Distinct(work) && m <= |work|
    ensures x in work[m..] <==> x in work && x !in work[..m]
  {
    assert work == work[..m] + work[m..];
    if x in work[m..] {
      var p :| 0 <= p < |work[m..]| && work[m..][p] == x;
      assert work[m + p] == x;
      assert forall q :: 0 <= q < m ==> work[q] != work[m + p];
    }
  }

  lemma {:induction false} ReadyBeforeAfter(insts: seq<Instance>, order: seq<nat>, i: nat, before: seq<nat>, work0: seq<nat>,
                                            after: seq<nat>, work: seq<nat>, x: nat)
    requires PlaceInv(insts, order, before, work0) && work0 != [] && i == work0[|work0| - 1]
    requires PlaceInv(insts, order + [i], after, work) && work0[..|work0| - 1] <= work
    ensures x in work && x !in work0[..|work0| - 1] <==> x < |insts| && NewlyReady(SiblingEdges(insts), order, i, x)
  {
    var m := |work0| - 1;
    WithoutLast<nat>(work0);
    assert x in work0[..m] <==> x in work0 && x != i;
    PlaceStep(insts, order, before, work0);
    if x < |insts| {
      ZeroIsReady(insts, order, before, x);
      ZeroIsReady(insts, order + [i], after, x);
      NewlyReadyIff(SiblingEdges(insts), Upto(|insts|), order, i, x);
    }
  }

  lemma NewlyReadyIff(E: set<(nat, nat)>, nodes: set<nat>, order: seq<nat>, i: nat, x: nat)
    requires i !in order && x in nodes
    ensures Ready(E, nodes, order + [i], x) && !(Ready(E, nodes, order, x) && x != i) <==> NewlyReady(E, order, i, x)
  {
    assert forall d :: d in order + [i] <==> d in order || d == i;
  }

  lemma {:induction false} FirstAlike(E: set<(nat, nat)>, indeg: seq<nat>, k: nat)
    requires k <= |indeg| && forall x :: 0 <= x < k ==> (indeg[x] == 0 <==> !Waits(E, x))
    ensures ReadyFirst(indeg, k) == Waitless(E, k)
  {
    if k > 0 {
      FirstAlike(E, indeg, k - 1);
      assert indeg[k - 1] == 0 <==> !Waits(E, k - 1);
    }
  }

  lemma {:induction false} StartWork(insts: seq<Instance>, indeg: seq<nat>, k: nat)
    requires DegreesAre(AllNeeds(insts), {}, indeg) && k <= |insts|
    ensures ReadyFirst(indeg, k) == Waitless(SiblingEdges(insts), k)
  {
    forall x | 0 <= x < k
      ensures indeg[x] == 0 <==> !Waits(SiblingEdges(insts), x)
    {
      ZeroWaits(insts, indeg, x);
    }
    FirstAlike(SiblingEdges(insts), indeg, k);
  }

  lemma {:induction false} ZeroWaits(insts: seq<Instance>, indeg: seq<nat>, i: nat)
    requires DegreesAre(AllNeeds(insts), {}, indeg) && i < |insts|
    ensures indeg[i] == 0 <==> !Waits(SiblingEdges(insts), i)
  {
    assert Elems<nat>([]) == {};
    ZeroIsReady(insts, [], indeg, i);
  }

  /** Indices below `n` with nothing to wait for, ascending. */
  function ReadyFirst(indeg: seq<nat>, n: nat): (work: seq<nat>)
    requires n <= |indeg|
    ensures Distinct(work) && forall x: nat :: x in work <==> x < n && indeg[x] == 0
  {
    if n == 0 then [] else ReadyFirst(indeg, n - 1) + (if indeg[n - 1] == 0 then [n - 1] else [])
  }

  // ---------- the inventory row ----------

  type Pair = (string, string)

  predicate PairLess(a: Pair, b: Pair) {
    Less(a.0, b.0) || (a.0 == b.0 && Less(a.1, b.1))
  }

  ghost predicate StrictlySorted(s: seq<Pair>) {
    forall i, j :: 0 <= i < j < |s| ==> PairLess(s[i], s[j])
  }

  function InsertUnique(x: Pair, s: seq<Pair>): (r: seq<Pair>)
    ensures forall y :: y in r <==> y == x || y in s
  {
    if s == [] then [x]
    else
      assert s == [s[0]] + s[1..];
      if x == s[0] then s
      else if PairLess(x, s[0]) then [x] + s
      else [s[0]] + InsertUnique(x, s[1..])
  }

  /** `sort` followed by `dedup`. */
  function SortDedup(s: seq<Pair>): (r: seq<Pair>)
    ensures forall y :: y in r <==> y in s
  {
    if s == [] then []
    else
      assert s == [s[0]] + s[1..];
      InsertUnique(s[0], SortDedup(s[1..]))
  }

  lemma PairLessTransitive(a: Pair, b: Pair, c: Pair)
    requires PairLess(a, b) && PairLess(b, c)
    ensures PairLess(a, c)
  {
    if Less(a.0, b.0) && Less(b.0, c.0) {
      LessTransitive(a.0, b.0, c.0);
    } else if a.0 == b.0 == c.0 {
      LessTransitive(a.1, b.1, c.1);
    }
  }

  lemma PairLessTotal(a: Pair, b: Pair)
    ensures a == b || PairLess(a, b) || PairLess(b, a)
  {
    LessTotal(a.0, b.0);
    LessTotal(a.1, b.1);
  }

  lemma {:induction false} InsertUniqueSorted(x: Pair, s: seq<Pair>)
    requires StrictlySorted(s)
    ensures StrictlySorted(InsertUnique(x, s))
  {
    if s == [] || x == s[0] {
    } else if PairLess(x, s[0]) {
      forall j | 0 <= j < |s|
        ensures PairLess(x, s[j])
      {
        if j > 0 {
          PairLessTransitive(x, s[0], s[j]);
        }
      }
    } else {
      PairLessTotal(x, s[0]);
      InsertUniqueSorted(x, s[1..]);
      var t := InsertUnique(x, s[1..]);
      forall j | 0 <= j < |t|
        ensures PairLess(s[0], t[j])
      {
        assert t[j] == x || t[j] in s[1..];
      }
    }
  }

  lemma {:induction false} SortDedupSorted(s: seq<Pair>)
    ensures StrictlySorted(SortDedup(s))
  {
    if s != [] {
      SortDedupSorted(s[1..]);
      InsertUniqueSorted(s[0], SortDedup(s[1..]));
    }
  }

  ghost predicate DistinctNames(insts: seq<Instance>) {
    forall i, j :: 0 <= i < j < |insts| ==> insts[i].name != insts[j].name
  }

  function NamesOf(insts: seq<Instance>, order: seq<nat>): (r: seq<string>)
    requires InRange(|insts|, order)
    ensures |r| == |order| && forall p :: 0 <= p < |r| ==> r[p] == insts[order[p]].name
  {
    seq(|order|, p requires 0 <= p < |order| => insts[order[p]].name)
  }

  /** `pos` maps each instance name to the place of that instance in `order`. */
  ghost predicate Positions(insts: seq<Instance>, order: seq<nat>, pos: map<string, nat>) {
    forall i: nat :: i < |insts| ==>
                       && insts[i].name in pos
                       && pos[insts[i].name] < |order|
                       && order[pos[insts[i].name]] == i
  }

  lemma PositionsHold(insts: seq<Instance>, order: seq<nat>)
    requires DistinctNames(insts) && IsPermutation(|insts|, order) && InRange(|insts|, order)
    ensures Positions(insts, order, LastIndex(NamesOf(insts, order)))
  {
    var names := NamesOf(insts, order);
    var pos := LastIndex(names);
    forall i: nat | i < |insts|
      ensures insts[i].name in pos && pos[insts[i].name] < |order| && order[pos[insts[i].name]] == i
    {
      assert i in order;
      var p :| 0 <= p < |order| && order[p] == i;
      assert names[p] == insts[i].name;
      var q := pos[insts[i].name];
      assert insts[order[q]].name == insts[i].name;
    }
  }

  ghost predicate AllPlacedIn(insts: seq<Instance>, pos: map<string, nat>) {
    forall k :: 0 <= k < |insts| ==> insts[k].name in pos
  }

  /** The pairs that deploying `i` contributes, for the given targets. */
  function Forward(insts: seq<Instance>, pos: map<string, nat>, i: nat, targets: seq<nat>): seq<Pair>
    requires i < |insts| && InRange(|insts|, targets)
    requires AllPlacedIn(insts, pos)
  {
    if targets == [] then []
    else
      var n := |targets| - 1;
      var j := targets[n];
      Forward(insts, pos, i, targets[..n])
      + (if pos[insts[j].name] > pos[insts[i].name] then [(insts[i].name, insts[j].name)] else [])
  }

  lemma PermutationInRange(n: nat, order: seq<nat>)
    requires IsPermutation(n, order)
    ensures InRange(n, order)
  {
    forall p | 0 <= p < |order|
      ensures order[p] < n
    {
      assert order[p] in order;
    }
  }

  /** `j` is deployed after `i`. */
  ghost predicate After(order: seq<nat>, i: nat, j: nat) {
    exists p, q :: 0 <= p < q < |order| && order[p] == i && order[q] == j
  }

  lemma AfterByPosition(insts: seq<Instance>, order: seq<nat>, pos: map<string, nat>, i: nat, j: nat)
    requires Positions(insts, order, pos) && Distinct(order) && i < |insts| && j < |insts|
    ensures pos[insts[j].name] > pos[insts[i].name] <==> After(order, i, j)
  {
    if p, q :| 0 <= p < q < |order| && order[p] == i && order[q] == j {
      assert p == pos[insts[i].name] && q == pos[insts[j].name];
    }
  }

  /** The name of `j` has its last place behind that of the name of `i`. */
  predicate NamedLater(insts: seq<Instance>, pos: map<string, nat>, i: nat, j: nat)
    requires AllPlacedIn(insts, pos) && i < |insts| && j < |insts|
  {
    pos[insts[j].name] > pos[insts[i].name]
  }

  lemma {:induction false} ForwardElements(insts: seq<Instance>, pos: map<string, nat>, i: nat,
                                           targets: seq<nat>, x: Pair)
    requires AllPlacedIn(insts, pos) && i < |insts| && InRange(|insts|, targets)
    ensures x in Forward(insts, pos, i, targets) <==> SomeGives(insts, pos, i, targets, x)
  {
    if targets != [] {
      var n := |targets| - 1;
      ForwardElements(insts, pos, i, targets[..n], x);
      LastGives(insts, pos, i, targets, x);
      assert x in Forward(insts, pos, i, targets) <==> x in Forward(insts, pos, i, targets[..n]) || GivesPair(insts, pos, i, targets[n], x);
    }
  }

  ghost predicate SomeGives(insts: seq<Instance>, pos: map<string, nat>, i: nat, targets: seq<nat>, x: Pair)
    requires AllPlacedIn(insts, pos) && i < |insts| && InRange(|insts|, targets)
  {
    exists k :: 0 <= k < |targets| && GivesPair(insts, pos, i, targets[k], x)
  }

  lemma LastGives(insts: seq<Instance>, pos: map<string, nat>, i: nat, targets: seq<nat>, x: Pair)
    requires AllPlacedIn(insts, pos) && i < |insts| && InRange(|insts|, targets) && targets != []
    ensures var n := |targets| - 1;
            SomeGives(insts, pos, i, targets, x) <==> SomeGives(insts, pos, i, targets[..n], x) || GivesPair(insts, pos, i, targets[n], x)
  {
    var n := |targets| - 1;
    assert forall k :: 0 <= k < n ==> targets[..n][k] == targets[k];
  }

  ghost predicate GivesPair(insts: seq<Instance>, pos: map<string, nat>, i: nat, j: nat, x: Pair)
    requires AllPlacedIn(insts, pos) && i < |insts| && j < |insts|
  {
    NamedLater(insts, pos, i, j) && x == (insts[i].name, insts[j].name)
  }

  lemma {:induction false} ForwardSnoc(insts: seq<Instance>, pos: map<string, nat>, i: nat, targets: seq<nat>,
                                       target: Option<nat>)
    requires i < |insts| && InRange(|insts|, targets)
    requires target.Some? ==> target.value < |insts|
    requires AllPlacedIn(insts, pos)
    ensures Forward(insts, pos, i, targets + Kept(i, target)) ==
            Forward(insts, pos, i, targets)
            + (if target.Some? && pos[insts[target.value].name] > pos[insts[i].name] then [(insts[i].name, insts[target.value].name)] else [])
  {
    if target.Some? && target.value != i {
      assert (targets + [target.value])[..|targets|] == targets;
    } else {
      assert targets + [] == targets;
    }
  }

  /** The pair that one pin contributes. */
  function PinRef(insts: seq<Instance>, pos: map<string, nat>, i: nat, pin: Pin): seq<Pair>
    requires i < |insts| && AllPlacedIn(insts, pos)
  {
    if pin.Ident? && ByName(insts, pin.name).Some? && pos[pin.name] > pos[insts[i].name]
    then [(insts[i].name, pin.name)] else []
  }

  function ParamRef(insts: seq<Instance>, pos: map<string, nat>, i: nat, ty: Type): seq<Pair>
    requires i < |insts| && AllPlacedIn(insts, pos)
  {
    match ParamTarget(insts, ty)
    case None => []
    case Some(j) => if pos[insts[j].name] > pos[insts[i].name] then [(insts[i].name, insts[j].name)] else []
  }

  lemma {:induction false} PinStep(insts: seq<Instance>, pos: map<string, nat>, i: nat, targets: seq<nat>, pin: Pin)
    requires i < |insts| && AllPlacedIn(insts, pos) && InRange(|insts|, targets)
    ensures InRange(|insts|, targets + Kept(i, PinTarget(insts, pin)))
    ensures Forward(insts, pos, i, targets + Kept(i, PinTarget(insts, pin))) == Forward(insts, pos, i, targets) + PinRef(insts, pos, i, pin)
  {
    ForwardSnoc(insts, pos, i, targets, PinTarget(insts, pin));
  }

  lemma {:induction false} ParamStep(insts: seq<Instance>, pos: map<string, nat>, i: nat, targets: seq<nat>, ty: Type)
    requires i < |insts| && AllPlacedIn(insts, pos) && InRange(|insts|, targets)
    ensures InRange(|insts|, targets + Kept(i, ParamTarget(insts, ty)))
    ensures Forward(insts, pos, i, targets + Kept(i, ParamTarget(insts, ty))) == Forward(insts, pos, i, targets) + ParamRef(insts, pos, i, ty)
  {
    ForwardSnoc(insts, pos, i, targets, ParamTarget(insts, ty));
  }

  method ForwardPins(insts: seq<Instance>, pos: map<string, nat>, i: nat) returns (refs: seq<Pair>)
    requires i < |insts| && AllPlacedIn(insts, pos)
    ensures InRange(|insts|, PinTargets(insts, i, insts[i].pins))
    ensures refs == Forward(insts, pos, i, PinTargets(insts, i, insts[i].pins))
  {
    refs := [];
    var pins := insts[i].pins;
    ghost var targets: seq<nat> := [];
    for p := 0 to |pins|
      invariant targets == PinTargets(insts, i, pins[..p])
      invariant InRange(|insts|, targets) && refs == Forward(insts, pos, i, targets)
    {
      assert pins[..p + 1][..p] == pins[..p];
      PinStep(insts, pos, i, targets, pins[p]);
      targets := targets + Kept(i, PinTarget(insts, pins[p]));
      refs := refs + PinRef(insts, pos, i, pins[p]);
    }
    assert pins[..|pins|] == pins;
  }

  lemma {:induction false} ParamTargetsSnoc(insts: seq<Instance>, i: nat, fromPins: seq<nat>, params: seq<Type>, p: nat)
    requires p < |params|
    ensures fromPins + ParamTargets(insts, i, params[..p + 1]) ==
            fromPins + ParamTargets(insts, i, params[..p]) + Kept(i, ParamTarget(insts, params[p]))
  {
    assert params[..p + 1][..p] == params[..p];
  }

  method ForwardParams(insts: seq<Instance>, pos: map<string, nat>, i: nat, ghost fromPins: seq<nat>,
                       refs0: seq<Pair>) returns (refs: seq<Pair>)
    requires i < |insts| && AllPlacedIn(insts, pos)
    requires InRange(|insts|, fromPins) && refs0 == Forward(insts, pos, i, fromPins)
    ensures InRange(|insts|, fromPins + ParamTargets(insts, i, InitParams(insts[i])))
    ensures refs == Forward(insts, pos, i, fromPins + ParamTargets(insts, i, InitParams(insts[i])))
  {
    refs := refs0;
    var params := InitParams(insts[i]);
    ghost var targets := fromPins;
    assert fromPins + [] == fromPins;
    for p := 0 to |params|
      invariant targets == fromPins + ParamTargets(insts, i, params[..p])
      invariant InRange(|insts|, targets) && refs == Forward(insts, pos, i, targets)
    {
      ParamTargetsSnoc(insts, i, fromPins, params, p);
      ParamStep(insts, pos, i, targets, params[p]);
      targets := targets + Kept(i, ParamTarget(insts, params[p]));
      refs := refs + ParamRef(insts, pos, i, params[p]);
    }
    assert params[..|params|] == params;
  }

  /** The forward references of one instance: first its pins, then its typed-address parameters. */
  method ForwardOf(insts: seq<Instance>, pos: map<string, nat>, i: nat) returns (refs: seq<Pair>)
    requires i < |insts| && AllPlacedIn(insts, pos)
    ensures InRange(|insts|, NeedList(insts, i)) && refs == Forward(insts, pos, i, NeedList(insts, i))
  {
    refs := ForwardPins(insts, pos, i);
    refs := ForwardParams(insts, pos, i, PinTargets(insts, i, insts[i].pins), refs);
  }

  /** `i` refers to a sibling whose name comes later. */
  ghost predicate NameForwardFrom(insts: seq<Instance>, pos: map<string, nat>, i: nat, x: Pair)
    requires AllPlacedIn(insts, pos)
  {
    exists j: nat :: (i, j) in SiblingEdges(insts) && i < |insts| && j < |insts| && GivesPair(insts, pos, i, j, x)
  }

  ghost predicate NameForwardBelow(insts: seq<Instance>, pos: map<string, nat>, n: nat, x: Pair)
    requires AllPlacedIn(insts, pos)
  {
    exists i: nat :: i < n && NameForwardFrom(insts, pos, i, x)
  }

  lemma {:induction false} ForwardFromExactly(insts: seq<Instance>, pos: map<string, nat>, i: nat, x: Pair)
    requires AllPlacedIn(insts, pos) && i < |insts| && InRange(|insts|, NeedList(insts, i))
    ensures x in Forward(insts, pos, i, NeedList(insts, i)) <==> NameForwardFrom(insts, pos, i, x)
  {
    var js := NeedList(insts, i);
    ForwardElements(insts, pos, i, js, x);
    if k :| 0 <= k < |js| && GivesPair(insts, pos, i, js[k], x) {
      NeedListElements(insts, i, js[k]);
    }
    if j: nat :| (i, j) in SiblingEdges(insts) && j < |insts| && GivesPair(insts, pos, i, j, x) {
      NeedListElements(insts, i, j);
    }
  }

  datatype Row = Row(deployOrder: seq<string>, topological: bool, forwardSiblingRefs: seq<Pair>)

  method CollectForward(insts: seq<Instance>, pos: map<string, nat>) returns (refs: seq<Pair>)
    requires AllPlacedIn(insts, pos)
    ensures forall x :: x in refs <==> NameForwardBelow(insts, pos, |insts|, x)
  {
    refs := [];
    for i := 0 to |insts|
      invariant ForwardUpto(insts, pos, i, refs)
    {
      var more := ForwardOf(insts, pos, i);
      ForwardStep(insts, pos, i, refs, more);
      refs := refs + more;
    }
  }

  ghost predicate ForwardUpto(insts: seq<Instance>, pos: map<string, nat>, i: nat, refs: seq<Pair>)
    requires AllPlacedIn(insts, pos)
  {
    forall x :: x in refs <==> NameForwardBelow(insts, pos, i, x)
  }

  lemma ForwardStep(insts: seq<Instance>, pos: map<string, nat>, i: nat, refs: seq<Pair>, more: seq<Pair>)
    requires AllPlacedIn(insts, pos) && i < |insts| && InRange(|insts|, NeedList(insts, i))
    requires ForwardUpto(insts, pos, i, refs) && more == Forward(insts, pos, i, NeedList(insts, i))
    ensures ForwardUpto(insts, pos, i + 1, refs + more)
  {
    forall x
      ensures x in refs + more <==> NameForwardBelow(insts, pos, i + 1, x)
    {
      ForwardFromExactly(insts, pos, i, x);
      BelowOneMore(insts, pos, i, x);
    }
  }

  lemma BelowOneMore(insts: seq<Instance>, pos: map<string, nat>, i: nat, x: Pair)
    requires AllPlacedIn(insts, pos)
    ensures NameForwardBelow(insts, pos, i + 1, x) <==> NameForwardBelow(insts, pos, i, x) || NameForwardFrom(insts, pos, i, x)
  {
  }

  /** `a` refers to its sibling `b`, and `b` is deployed after `a`. */
  ghost predicate ForwardRef(insts: seq<Instance>, order: seq<nat>, x: Pair) {
    exists i: nat, j: nat :: (i, j) in SiblingEdges(insts) && After(order, i, j) && x == (insts[i].name, insts[j].name)
  }

  /** With distinct names the place of a name is that of its instance. */
  lemma NamesTellPlaces(insts: seq<Instance>, order: seq<nat>, pos: map<string, nat>, x: Pair)
    requires AllPlacedIn(insts, pos) && Positions(insts, order, pos) && Distinct(order)
    ensures NameForwardBelow(insts, pos, |insts|, x) <==> ForwardRef(insts, order, x)
  {
    if i: nat, j: nat :| (i, j) in SiblingEdges(insts) && After(order, i, j) && x == (insts[i].name, insts[j].name) {
      AfterByPosition(insts, order, pos, i, j);
      assert NameForwardFrom(insts, pos, i, x);
    }
    if i: nat :| i < |insts| && NameForwardFrom(insts, pos, i, x) {
      var j: nat :| (i, j) in SiblingEdges(insts) && j < |insts| && GivesPair(insts, pos, i, j, x);
      AfterByPosition(insts, order, pos, i, j);
    }
  }

  lemma NamesPlaced(insts: seq<Instance>, order: seq<nat>)
    requires IsPermutation(|insts|, order) && InRange(|insts|, order)
    ensures AllPlacedIn(insts, LastIndex(NamesOf(insts, order)))
  {
    var names := NamesOf(insts, order);
    forall k: nat | k < |insts|
      ensures insts[k].name in LastIndex(names)
    {
      assert k in order;
      var p :| 0 <= p < |order| && order[p] == k;
      assert names[p] == insts[k].name;
    }
  }

  /** The pairs are those whose second name is placed later, a repeated name counting at its last place. */
  ghost predicate RowOf(insts: seq<Instance>, order: seq<nat>, row: Row) {
    && IsPermutation(|insts|, order) && InRange(|insts|, order) && row.deployOrder == NamesOf(insts, order)
    && AllPlacedIn(insts, LastIndex(row.deployOrder))
    && (row.topological <==> Acyclic(SiblingEdges(insts)))
    && (if row.topological then TargetsFirst(SiblingEdges(insts), order) else order == DeclarationOrder(|insts|))
    && StrictlySorted(row.forwardSiblingRefs)
    && forall x :: x in row.forwardSiblingRefs <==> NameForwardBelow(insts, LastIndex(row.deployOrder), |insts|, x)
  }

  method InventoryRow(insts: seq<Instance>) returns (row: Row, ghost order: seq<nat>)
    ensures row.topological <==> Acyclic(SiblingEdges(insts))
    ensures StrictlySorted(row.forwardSiblingRefs)
    ensures RowOf(insts, order, row)
  {
    var places, topological := DeployOrderReport(insts);
    order := places;
    PermutationInRange(|insts|, places);
    NamesPlaced(insts, places);
    var deployOrder := NamesOf(insts, places);
    var refs := CollectForward(insts, LastIndex(deployOrder));
    SortDedupSorted(refs);
    row := Row(deployOrder, topological, SortDedup(refs));
  }

  /** With distinct names the pairs are exactly the references to siblings deployed later, and there
      are none exactly when the order is topological. */
  lemma RowExact(insts: seq<Instance>, order: seq<nat>, row: Row)
    requires RowOf(insts, order, row) && DistinctNames(insts)
    ensures forall x :: x in row.forwardSiblingRefs <==> ForwardRef(insts, order, x)
    ensures row.topological <==> row.forwardSiblingRefs == []
  {
    PositionsHold(insts, order);
    forall x
      ensures x in row.forwardSiblingRefs <==> ForwardRef(insts, order, x)
    {
      NamesTellPlaces(insts, order, LastIndex(row.deployOrder), x);
    }
    NoForwardIffTopological(insts, order, row.topological);
    assert row.forwardSiblingRefs != [] ==> ForwardRef(insts, order, row.forwardSiblingRefs[0]);
  }

  lemma NoForwardIffTopological(insts: seq<Instance>, order: seq<nat>, topological: bool)
    requires IsPermutation(|insts|, order)
    requires topological <==> Acyclic(SiblingEdges(insts))
    requires if topological then TargetsFirst(SiblingEdges(insts), order) else order == DeclarationOrder(|insts|)
    ensures topological <==> forall x :: !ForwardRef(insts, order, x)
  {
    var E := SiblingEdges(insts);
    if topological {
      forall i: nat, j: nat | (i, j) in E
        ensures !After(order, i, j)
      {
        assert forall p, q :: 0 <= p < |order| && order[p] == i && 0 <= q < |order| && order[q] == j ==> j in order[..p] && q < p;
      }
    } else if forall x :: !ForwardRef(insts, order, x) {
      forall p, j | 0 <= p < |order| && (order[p], j) in E
        ensures j in order[..p]
      {
        assert order[j] == j;
        assert !ForwardRef(insts, order, (insts[p].name, insts[j].name));
        assert !After(order, p, j);
        assert order[..p][j] == j;
      }
      TargetsFirstAcyclic(E, order);
    }
  }
}
