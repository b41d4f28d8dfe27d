/** Which mappings are asked whether they contain a key: what the storage table sees of it
    (`transforms_use_exists`) and what the emitter sees (`member_uses_exists`), both in
    cambrian-transpiler/src/codegen/solidity/evm/analysis.rs. */
module ExistsUse {
  import opened Wrappers
  import opened ExprTree

  datatype PureFn = PureFn(name: string, params: seq<string>, body: Expr)

  /** The expressions of an entity, and the pure functions of its program. */
  datatype Bodies = Bodies(actions: seq<Expr>, conditions: seq<Expr>, defaults: seq<Expr>,
                           transforms: seq<Expr>, macros: seq<Expr>, pureFns: seq<PureFn>)

  /** The three walkers: that of the table, that of the emitter, and that for the body of a pure function. */
  datatype Walk = ByTable(member: string) | ByEmitter(member: string, fns: seq<PureFn>) | InPureFn(param: string)

  // ---------- the walkers ----------

  predicate Asks(e: Expr, methods: set<string>, name: string) {
    e.MethodCall? && e.name in methods && e.receiver == Ident(name)
  }

  /** The first function of that name. */
  function FindFn(fns: seq<PureFn>, name: string): (r: Option<PureFn>)
    ensures r.None? <==> forall i :: 0 <= i < |fns| ==> fns[i].name != name
    ensures r.Some? ==> exists i :: 0 <= i < |fns| && fns[i] == r.value && fns[i].name == name
                                    && forall j :: 0 <= j < i ==> fns[j].name != name
  {
    if fns == [] then None else if fns[0].name == name then Some(fns[0]) else FindFn(fns[1..], name)
  }

  function Rank(w: Walk): nat {
    if w.ByEmitter? then 1 else 0
  }

  /** The node is what the walker looks for. */
  predicate Hit(w: Walk, e: Expr)
    decreases Rank(w), e, 1
  {
    match w
    case ByTable(m) => Asks(e, {"exists"}, m)
    case InPureFn(param) => Asks(e, {"exists"}, param)
    case ByEmitter(m, fns) => Asks(e, {"exists", "contains"}, m) || AskedInCall(m, fns, e)
  }

  /** A called pure function asks the parameter for which the mapping is passed. */
  predicate AskedInCall(m: string, fns: seq<PureFn>, e: Expr)
    decreases 1, e, 0
  {
    && e.FnCall?
    && var f := FindFn(fns, e.name);
       f.Some? && exists i :: 0 <= i < |e.args| && e.args[i] == Ident(m)
                              && i < |f.value.params| && Finds(InPureFn(f.value.params[i]), f.value.body)
  }

  /** The walker looks into the subexpressions. */
  predicate Enters(w: Walk, e: Expr) {
    match w
    case ByTable(_) => e.BinOp? || e.Let? || e.If? || e.FnCall? || (e.MethodCall? && e.name != "exists")
    case InPureFn(_) =>
      || e.MethodCall? || e.BinOp? || e.UnaryOp? || e.FieldAccess? || e.Index? || e.If? || e.Let? || e.Block?
      || e.FnCall? || e.Cast? || e.Tuple? || e.Match? || e.SomeOf? || e.Range?
    case ByEmitter(_, _) => !e.ArrayLit?
  }

  predicate Finds(w: Walk, e: Expr)
    decreases Rank(w), e, 2
  {
    Hit(w, e) || (Enters(w, e) && exists c :: c in Children(e) && (ChildSmaller(e, c); Finds(w, c)))
  }

  predicate FindsAny(w: Walk, es: seq<Expr>) {
    exists e :: e in es && Finds(w, e)
  }

  function Roots(b: Bodies): seq<Expr> {
    b.actions + b.conditions + b.defaults + b.transforms + b.macros
  }

  /** `transforms_use_exists` */
  predicate Counted(b: Bodies, m: string) {
    FindsAny(ByTable(m), b.transforms)
  }

  /** `member_uses_exists` */
  predicate Used(b: Bodies, m: string) {
    FindsAny(ByEmitter(m, b.pureFns), Roots(b))
  }

  // ---------- what they find ----------

  /** The walker enters every node above the one at `p`. */
  ghost predicate Open(w: Walk, e: Expr, p: seq<nat>)
    decreases |p|
  {
    p == [] || (Enters(w, e) && p[0] < |Children(e)| && Open(w, Children(e)[p[0]], p[1..]))
  }

  /** The walker comes to the node at `p` and looks for it. */
  ghost predicate HitAt(w: Walk, e: Expr, p: seq<nat>) {
    Open(w, e, p) && NodeAt(e, p).Some? && Hit(w, NodeAt(e, p).value)
  }

  lemma HitBelow(w: Walk, e: Expr, i: nat, q: seq<nat>)
    requires Enters(w, e) && i < |Children(e)| && HitAt(w, Children(e)[i], q)
    ensures HitAt(w, e, [i] + q)
  {
    assert ([i] + q)[1..] == q;
  }

  lemma {:induction false} FoundAt(w: Walk, e: Expr) returns (p: seq<nat>)
    requires Finds(w, e)
    ensures HitAt(w, e, p)
    decreases e
  {
    if Hit(w, e) {
      p := [];
    } else {
      var c :| c in Children(e) && Finds(w, c);
      var i: nat :| i < |Children(e)| && Children(e)[i] == c;
      ChildSmaller(e, c);
      var q := FoundAt(w, c);
      HitBelow(w, e, i, q);
      p := [i] + q;
    }
  }

  lemma {:induction false} HitFound(w: Walk, e: Expr, p: seq<nat>)
    requires HitAt(w, e, p)
    ensures Finds(w, e)
    decreases |p|
  {
    if p != [] {
      assert Children(e)[p[0]] in Children(e);
      HitFound(w, Children(e)[p[0]], p[1..]);
    }
  }

  /** A walker finds exactly the nodes it looks for below nodes it enters. */
  lemma {:induction false} FindsExact(w: Walk, e: Expr)
    ensures Finds(w, e) <==> exists p :: HitAt(w, e, p)
  {
    if Finds(w, e) {
      var p := FoundAt(w, e);
    }
    if p :| HitAt(w, e, p) {
      HitFound(w, e, p);
    }
  }

  // ---------- form by form ----------

  /** What `transforms_use_exists` looks for. */
  predicate TableSees(e: Expr, m: string) {
    match e
    case MethodCall(receiver, name, args) =>
      if name == "exists" then receiver == Ident(m)
      else TableSees(receiver, m) || exists a :: a in args && TableSees(a, m)
    case BinOp(left, right) => TableSees(left, m) || TableSees(right, m)
    case Let(value, body) => TableSees(value, m) || TableSees(body, m)
    case If(cond, thenBranch, elseBranch) =>
      TableSees(cond, m) || TableSees(thenBranch, m) || (elseBranch.Some? && TableSees(elseBranch.value, m))
    case FnCall(_, args) => exists a :: a in args && TableSees(a, m)
    case _ => false
  }

  /** What it looks for in the body of a pure function. */
  predicate BodySees(e: Expr, param: string) {
    match e
    case MethodCall(receiver, name, args) =>
      || (name == "exists" && receiver == Ident(param))
      || BodySees(receiver, param) || exists a :: a in args && BodySees(a, param)
    case BinOp(left, right) => BodySees(left, param) || BodySees(right, param)
    case UnaryOp(operand) => BodySees(operand, param)
    case FieldAccess(base) => BodySees(base, param)
    case Index(base, index) => BodySees(base, param) || BodySees(index, param)
    case If(cond, thenBranch, elseBranch) =>
      BodySees(cond, param) || BodySees(thenBranch, param) || (elseBranch.Some? && BodySees(elseBranch.value, param))
    case Let(value, body) => BodySees(value, param) || BodySees(body, param)
    case Block(stmts) => exists a :: a in stmts && BodySees(a, param)
    case FnCall(_, args) => exists a :: a in args && BodySees(a, param)
    case Cast(operand) => BodySees(operand, param)
    case Tuple(elems) => exists a :: a in elems && BodySees(a, param)
    case Match(subject, arms) => BodySees(subject, param) || exists a :: a in arms && BodySees(a, param)
    case SomeOf(operand) => BodySees(operand, param)
    case Range(low, high) => BodySees(low, param) || BodySees(high, param)
    case _ => false
  }

  /** The first pure function called `name` asks a parameter for which `m` is passed. */
  ghost predicate CallAsks(fns: seq<PureFn>, name: string, args: seq<Expr>, m: string) {
    exists f, i :: 0 <= f < |fns| && fns[f].name == name && (forall g :: 0 <= g < f ==> fns[g].name != name)
                   && 0 <= i < |args| && i < |fns[f].params| && args[i] == Ident(m) && BodySees(fns[f].body, fns[f].params[i])
  }

  /** What `member_uses_exists` looks for. */
  ghost predicate EmitterSees(e: Expr, m: string, fns: seq<PureFn>) {
    match e
    case MethodCall(receiver, name, args) =>
      || ((name == "exists" || name == "contains") && receiver == Ident(m))
      || EmitterSees(receiver, m, fns) || exists a :: a in args && EmitterSees(a, m, fns)
    case FnCall(name, args) => CallAsks(fns, name, args, m) || exists a :: a in args && EmitterSees(a, m, fns)
    case MacroRef(_, args) => exists a :: a in args && EmitterSees(a, m, fns)
    case BinOp(left, right) => EmitterSees(left, m, fns) || EmitterSees(right, m, fns)
    case UnaryOp(operand) => EmitterSees(operand, m, fns)
    case FieldAccess(base) => EmitterSees(base, m, fns)
    case Index(base, index) => EmitterSees(base, m, fns) || EmitterSees(index, m, fns)
    case If(cond, thenBranch, elseBranch) =>
      EmitterSees(cond, m, fns) || EmitterSees(thenBranch, m, fns) || (elseBranch.Some? && EmitterSees(elseBranch.value, m, fns))
    case Let(value, body) => EmitterSees(value, m, fns) || EmitterSees(body, m, fns)
    case Block(stmts) => exists a :: a in stmts && EmitterSees(a, m, fns)
    case RecordConstruct(values) => exists a :: a in values && EmitterSees(a, m, fns)
    case RecordUpdate(base, values) => EmitterSees(base, m, fns) || exists a :: a in values && EmitterSees(a, m, fns)
    case Closure(body) => EmitterSees(body, m, fns)
    case Cast(operand) => EmitterSees(operand, m, fns)
    case Tuple(elems) => exists a :: a in elems && EmitterSees(a, m, fns)
    case Match(subject, arms) => EmitterSees(subject, m, fns) || exists a :: a in arms && EmitterSees(a, m, fns)
    case EnumVariantWithData(args) => exists a :: a in args && EmitterSees(a, m, fns)
    case SomeOf(operand) => EmitterSees(operand, m, fns)
    case Range(low, high) => EmitterSees(low, m, fns) || EmitterSees(high, m, fns)
    case For(iter, body) => EmitterSees(iter, m, fns) || EmitterSees(body, m, fns)
    case NamespacedCall(args) => exists a :: a in args && EmitterSees(a, m, fns)
    case AddressOf(args, withParams) =>
      (exists a :: a in args && EmitterSees(a, m, fns)) || exists a :: a in withParams && EmitterSees(a, m, fns)
    case Encode(value) => EmitterSees(value, m, fns)
    case _ => false
  }

  ghost predicate TablePart(e: Expr, m: string) {
    exists c :: Part(e, c) && TableSees(c, m)
  }

  ghost predicate BodyPart(e: Expr, param: string) {
    exists c :: Part(e, c) && BodySees(c, param)
  }

  lemma {:induction false} TableByParts(e: Expr, m: string)
    ensures TableSees(e, m) <==> Hit(ByTable(m), e) || (Enters(ByTable(m), e) && TablePart(e, m))
  {
    assert Hit(ByTable(m), e) <==> Asks(e, {"exists"}, m);
  }

  predicate HasList(e: Expr) {
    e.MethodCall? || e.FnCall? || e.Block? || e.Tuple? || e.Match?
  }

  ghost predicate BodyParts(e: Expr, param: string) {
    BodySees(e, param) <==> Hit(InPureFn(param), e) || (Enters(InPureFn(param), e) && BodyPart(e, param))
  }

  lemma {:induction false} BodyListByParts(e: Expr, param: string)
    requires HasList(e)
    ensures BodyParts(e, param)
  {
    assert Hit(InPureFn(param), e) <==> Asks(e, {"exists"}, param);
  }

  lemma {:induction false} BodyOtherByParts(e: Expr, param: string)
    requires !HasList(e)
    ensures BodyParts(e, param)
  {
    assert Hit(InPureFn(param), e) <==> Asks(e, {"exists"}, param);
  }

  lemma BodyByParts(e: Expr, param: string)
    ensures BodyParts(e, param)
  {
    if HasList(e) {
      BodyListByParts(e, param);
    } else {
      BodyOtherByParts(e, param);
    }
  }

  lemma {:induction false} TableSeesIff(e: Expr, m: string)
    ensures Finds(ByTable(m), e) <==> TableSees(e, m)
    decreases e
  {
    TableByParts(e, m);
    forall c | c in Children(e)
      ensures Finds(ByTable(m), c) <==> TableSees(c, m)
    {
      ChildSmaller(e, c);
      TableSeesIff(c, m);
    }
    forall c
      ensures c in Children(e) <==> Part(e, c)
    {
      ChildrenExact(e, c);
    }
  }

  lemma {:induction false} BodySeesIff(e: Expr, param: string)
    ensures Finds(InPureFn(param), e) <==> BodySees(e, param)
    decreases e
  {
    BodyByParts(e, param);
    forall c | c in Children(e)
      ensures Finds(InPureFn(param), c) <==> BodySees(c, param)
    {
      ChildSmaller(e, c);
      BodySeesIff(c, param);
    }
    forall c
      ensures c in Children(e) <==> Part(e, c)
    {
      ChildrenExact(e, c);
    }
  }

  lemma {:induction false} CallAsksIff(m: string, fns: seq<PureFn>, e: Expr)
    requires e.FnCall?
    ensures AskedInCall(m, fns, e) <==> CallAsks(fns, e.name, e.args, m)
  {
    if AskedInCall(m, fns, e) {
      var pf := FindFn(fns, e.name).value;
      var i :| 0 <= i < |e.args| && e.args[i] == Ident(m) && i < |pf.params| && Finds(InPureFn(pf.params[i]), pf.body);
      BodySeesIff(pf.body, pf.params[i]);
      assert CallAsks(fns, e.name, e.args, m);
    }
    if CallAsks(fns, e.name, e.args, m) {
      var f, i :| 0 <= f < |fns| && fns[f].name == e.name && (forall g :: 0 <= g < f ==> fns[g].name != e.name)
                  && 0 <= i < |e.args| && i < |fns[f].params| && e.args[i] == Ident(m) && BodySees(fns[f].body, fns[f].params[i]);
      BodySeesIff(fns[f].body, fns[f].params[i]);
      FirstFn(fns, e.name, f);
    }
  }

  lemma FirstFn(fns: seq<PureFn>, name: string, f: nat)
    requires f < |fns| && fns[f].name == name && forall g :: 0 <= g < f ==> fns[g].name != name
    ensures FindFn(fns, name) == Some(fns[f])
  {
    var k :| 0 <= k < |fns| && fns[k] == FindFn(fns, name).value && fns[k].name == name && forall j :: 0 <= j < k ==> fns[j].name != name;
    assert k == f;
  }

  lemma {:induction false} EmitterHits(e: Expr, m: string, fns: seq<PureFn>)
    ensures Hit(ByEmitter(m, fns), e) <==>
              || (e.MethodCall? && (e.name == "exists" || e.name == "contains") && e.receiver == Ident(m))
              || (e.FnCall? && CallAsks(fns, e.name, e.args, m))
  {
    if e.FnCall? {
      CallAsksIff(m, fns, e);
    }
  }

  ghost predicate SomePart(e: Expr, m: string, fns: seq<PureFn>) {
    exists c :: Part(e, c) && EmitterSees(c, m, fns)
  }

  ghost predicate ByParts(e: Expr, m: string, fns: seq<PureFn>) {
    EmitterSees(e, m, fns) <==> Hit(ByEmitter(m, fns), e) || (!e.ArrayLit? && SomePart(e, m, fns))
  }

  predicate IsList(e: Expr) {
    e.MacroRef? || e.Block? || e.RecordConstruct? || e.Tuple? || e.EnumVariantWithData? || e.NamespacedCall? || e.AddressOf?
  }

  lemma {:induction false} CallByParts(e: Expr, m: string, fns: seq<PureFn>)
    requires e.FnCall? || e.MethodCall?
    ensures ByParts(e, m, fns)
  {
    EmitterHits(e, m, fns);
  }

  lemma {:induction false} ListByParts(e: Expr, m: string, fns: seq<PureFn>)
    requires IsList(e)
    ensures ByParts(e, m, fns)
  {
    EmitterHits(e, m, fns);
  }

  lemma {:induction false} OtherByParts(e: Expr, m: string, fns: seq<PureFn>)
    requires !e.FnCall? && !e.MethodCall? && !IsList(e)
    ensures ByParts(e, m, fns)
  {
    EmitterHits(e, m, fns);
  }

  lemma EmitterByParts(e: Expr, m: string, fns: seq<PureFn>)
    ensures ByParts(e, m, fns)
  {
    if e.FnCall? || e.MethodCall? {
      CallByParts(e, m, fns);
    } else if IsList(e) {
      ListByParts(e, m, fns);
    } else {
      OtherByParts(e, m, fns);
    }
  }

  lemma {:induction false} EmitterSeesIff(e: Expr, m: string, fns: seq<PureFn>)
    ensures Finds(ByEmitter(m, fns), e) <==> EmitterSees(e, m, fns)
    decreases e
  {
    EmitterByParts(e, m, fns);
    forall c | c in Children(e)
      ensures Finds(ByEmitter(m, fns), c) <==> EmitterSees(c, m, fns)
    {
      ChildSmaller(e, c);
      EmitterSeesIff(c, m, fns);
    }
    forall c
      ensures c in Children(e) <==> Part(e, c)
    {
      ChildrenExact(e, c);
    }
  }

  // ---------- the two compared ----------

  /** The emitter sees a use of `m` at `p` in `root`. */
  ghost predicate UseAt(b: Bodies, m: string, root: Expr, p: seq<nat>) {
    root in Roots(b) && HitAt(ByEmitter(m, b.pureFns), root, p)
  }

  /** The table sees it: it is `m.exists(..)` in a transform, only inside binary operators, `let`, `if`, calls of
      functions and of methods other than `exists`. */
  ghost predicate Visible(b: Bodies, m: string, root: Expr, p: seq<nat>) {
    && root in b.transforms
    && NodeAt(root, p).Some? && Asks(NodeAt(root, p).value, {"exists"}, m)
    && Open(ByTable(m), root, p)
  }

  lemma {:induction false} OpenToEmitter(m: string, fns: seq<PureFn>, e: Expr, p: seq<nat>)
    requires Open(ByTable(m), e, p)
    ensures Open(ByEmitter(m, fns), e, p)
    decreases |p|
  {
    if p != [] {
      OpenToEmitter(m, fns, Children(e)[p[0]], p[1..]);
    }
  }

  /** What the table sees the emitter sees. */
  lemma VisibleIsUse(b: Bodies, m: string, root: Expr, p: seq<nat>)
    requires Visible(b, m, root, p)
    ensures UseAt(b, m, root, p)
  {
    OpenToEmitter(m, b.pureFns, root, p);
  }

  /** A use in an action, a condition, a default, a transform or a macro. */
  ghost predicate UsedSomewhere(b: Bodies, m: string) {
    exists e :: (e in b.actions || e in b.conditions || e in b.defaults || e in b.transforms || e in b.macros)
                && EmitterSees(e, m, b.pureFns)
  }

  lemma {:induction false} UsedByForm(b: Bodies, m: string)
    ensures Used(b, m) <==> UsedSomewhere(b, m)
  {
    if Used(b, m) {
      var e :| e in Roots(b) && Finds(ByEmitter(m, b.pureFns), e);
      EmitterSeesIff(e, m, b.pureFns);
    }
    if UsedSomewhere(b, m) {
      var e :| (e in b.actions || e in b.conditions || e in b.defaults || e in b.transforms || e in b.macros)
               && EmitterSees(e, m, b.pureFns);
      EmitterSeesIff(e, m, b.pureFns);
      assert e in Roots(b);
    }
  }

  lemma {:induction false} CountedByForm(b: Bodies, m: string)
    ensures Counted(b, m) <==> exists e :: e in b.transforms && TableSees(e, m)
  {
    forall e
      ensures Finds(ByTable(m), e) <==> TableSees(e, m)
    {
      TableSeesIff(e, m);
    }
  }

  lemma {:induction false} UsedIff(b: Bodies, m: string)
    ensures Used(b, m) <==> exists root, p :: UseAt(b, m, root, p)
  {
    var w := ByEmitter(m, b.pureFns);
    if Used(b, m) {
      var root :| root in Roots(b) && Finds(w, root);
      var p := FoundAt(w, root);
      assert UseAt(b, m, root, p);
    }
    if root, p :| UseAt(b, m, root, p) {
      HitFound(w, root, p);
    }
  }

  lemma {:induction false} CountedIff(b: Bodies, m: string)
    ensures Counted(b, m) <==> exists root, p :: Visible(b, m, root, p)
  {
    var w := ByTable(m);
    if Counted(b, m) {
      var root :| root in b.transforms && Finds(w, root);
      var p := FoundAt(w, root);
      assert Visible(b, m, root, p);
    }
    if root, p :| Visible(b, m, root, p) {
      HitFound(w, root, p);
    }
  }

  /** The table misses a used mapping if and only if each of its uses, and there is one, is outside the
      transforms, or is `contains` or a pure function, or lies in a form that the table's walker does not enter. */
  lemma {:induction false} MissedIff(b: Bodies, m: string)
    ensures Counted(b, m) ==> Used(b, m)
    ensures Used(b, m) && !Counted(b, m) <==>
              && (exists root, p :: UseAt(b, m, root, p))
              && (forall root, p :: UseAt(b, m, root, p) ==> !Visible(b, m, root, p))
  {
    UsedIff(b, m);
    CountedIff(b, m);
    forall root, p | Visible(b, m, root, p)
      ensures UseAt(b, m, root, p)
    {
      VisibleIsUse(b, m, root, p);
    }
  }
}
