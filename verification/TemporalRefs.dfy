/** Which `^member` references of a transform body the ordering pass sees
    (`collect_temporal_refs` in cambrian-transpiler/src/analysis/temporal.rs). */
module TemporalRefs {
  import opened Wrappers
  import opened Sequences
  import opened ExprTree

  // ---------- occurrences ----------

  /** Following the child positions `p` from `e` leads to `^d`. */
  ghost predicate Occurs(e: Expr, p: seq<nat>, d: string) {
    NodeAt(e, p) == Some(TemporalRef(d))
  }

  predicate Hides(e: Expr) {
    e.AddressOf? || e.Encode?
  }

  /** The way along `p` does not lead into an `address_of` or an `encode`. */
  ghost predicate InTheOpen(e: Expr, p: seq<nat>)
    decreases |p|
  {
    p == [] || (!Hides(e) && p[0] < |Children(e)| && InTheOpen(Children(e)[p[0]], p[1..]))
  }

  ghost predicate Mentioned(e: Expr, d: string) {
    exists p :: Occurs(e, p, d)
  }

  ghost predicate MentionedOpenly(e: Expr, d: string) {
    exists p :: Occurs(e, p, d) && InTheOpen(e, p)
  }

  /** `^d` stands in one of the expressions. */
  ghost predicate InAny(es: seq<Expr>, d: string, everywhere: bool) {
    exists i :: 0 <= i < |es| && In(es[i], d, everywhere)
  }

  /** `^d` stands somewhere in the expression; if not `everywhere`, then outside `address_of` and `encode`. */
  ghost predicate In(e: Expr, d: string, everywhere: bool) {
    match e
    case Leaf => false
    case Ident(_) => false
    case TemporalRef(name) => name == d
    case BinOp(left, right) => In(left, d, everywhere) || In(right, d, everywhere)
    case UnaryOp(operand) => In(operand, d, everywhere)
    case FieldAccess(base) => In(base, d, everywhere)
    case Index(base, index) => In(base, d, everywhere) || In(index, d, everywhere)
    case MethodCall(receiver, _, args) => In(receiver, d, everywhere) || InAny(args, d, everywhere)
    case FnCall(_, args) => InAny(args, d, everywhere)
    case If(cond, thenBranch, elseBranch) =>
      || In(cond, d, everywhere) || In(thenBranch, d, everywhere)
      || (elseBranch.Some? && In(elseBranch.value, d, everywhere))
    case Let(value, body) => In(value, d, everywhere) || In(body, d, everywhere)
    case Block(stmts) => InAny(stmts, d, everywhere)
    case RecordConstruct(values) => InAny(values, d, everywhere)
    case RecordUpdate(base, values) => In(base, d, everywhere) || InAny(values, d, everywhere)
    case Closure(body) => In(body, d, everywhere)
    case Cast(operand) => In(operand, d, everywhere)
    case Tuple(elems) => InAny(elems, d, everywhere)
    case MacroRef(_, args) => InAny(args, d, everywhere)
    case Match(subject, arms) => In(subject, d, everywhere) || InAny(arms, d, everywhere)
    case SomeOf(operand) => In(operand, d, everywhere)
    case ArrayLit(elems) => InAny(elems, d, everywhere)
    case EnumVariantWithData(args) => InAny(args, d, everywhere)
    case NamespacedCall(args) => InAny(args, d, everywhere)
    case Range(low, high) => In(low, d, everywhere) || In(high, d, everywhere)
    case For(iter, body) => In(iter, d, everywhere) || In(body, d, everywhere)
    case AddressOf(args, withParams) => everywhere && (InAny(args, d, everywhere) || InAny(withParams, d, everywhere))
    case Encode(value) => everywhere && In(value, d, everywhere)
  }

  ghost predicate ByChildren(e: Expr, d: string, everywhere: bool) {
    In(e, d, everywhere) <==> e == TemporalRef(d) || ((everywhere || !Hides(e)) && InAny(Children(e), d, everywhere))
  }

  lemma {:induction false} InByChildren(e: Expr, d: string, everywhere: bool)
    ensures ByChildren(e, d, everywhere)
  {
    if e.BinOp? || e.Index? || e.Let? || e.Range? || e.For? {
      PairByChildren(e, d, everywhere);
    } else if e.UnaryOp? || e.FieldAccess? || e.Closure? || e.Cast? || e.SomeOf? || e.Encode? {
      OneByChildren(e, d, everywhere);
    } else {
      match e
      case MethodCall(x, _, args) => InHeaded(x, args, d, everywhere);
      case RecordUpdate(x, vs) => InHeaded(x, vs, d, everywhere);
      case Match(x, arms) => InHeaded(x, arms, d, everywhere);
      case If(c, t, f) => InThree(c, t, f, d, everywhere);
      case AddressOf(args, ws) => InConcat(args, ws, d, everywhere);
      case _ =>
    }
  }

  lemma {:induction false} PairByChildren(e: Expr, d: string, everywhere: bool)
    requires e.BinOp? || e.Index? || e.Let? || e.Range? || e.For?
    ensures ByChildren(e, d, everywhere)
  {
    match e
    case BinOp(l, r) => InPair(l, r, d, everywhere);
    case Index(l, r) => InPair(l, r, d, everywhere);
    case Let(l, r) => InPair(l, r, d, everywhere);
    case Range(l, r) => InPair(l, r, d, everywhere);
    case For(l, r) => InPair(l, r, d, everywhere);
  }

  lemma {:induction false} OneByChildren(e: Expr, d: string, everywhere: bool)
    requires e.UnaryOp? || e.FieldAccess? || e.Closure? || e.Cast? || e.SomeOf? || e.Encode?
    ensures ByChildren(e, d, everywhere)
  {
    match e
    case UnaryOp(x) => InOne(x, d, everywhere);
    case FieldAccess(x) => InOne(x, d, everywhere);
    case Closure(x) => InOne(x, d, everywhere);
    case Cast(x) => InOne(x, d, everywhere);
    case SomeOf(x) => InOne(x, d, everywhere);
    case Encode(x) => InOne(x, d, everywhere);
  }

  lemma {:induction false} InConcat(a: seq<Expr>, b: seq<Expr>, d: string, everywhere: bool)
    ensures InAny(a + b, d, everywhere) <==> InAny(a, d, everywhere) || InAny(b, d, everywhere)
  {
    if i :| 0 <= i < |a| && In(a[i], d, everywhere) {
      assert (a + b)[i] == a[i];
    }
    if i :| 0 <= i < |b| && In(b[i], d, everywhere) {
      assert (a + b)[|a| + i] == b[i];
    }
  }

  lemma {:induction false} InOne(x: Expr, d: string, everywhere: bool)
    ensures InAny([x], d, everywhere) <==> In(x, d, everywhere)
  {
    assert [x][0] == x;
  }

  lemma {:induction false} InHeaded(x: Expr, more: seq<Expr>, d: string, everywhere: bool)
    ensures InAny([x] + more, d, everywhere) <==> In(x, d, everywhere) || InAny(more, d, everywhere)
  {
    InOne(x, d, everywhere);
    InConcat([x], more, d, everywhere);
  }

  lemma {:induction false} InPair(l: Expr, r: Expr, d: string, everywhere: bool)
    ensures InAny([l, r], d, everywhere) <==> In(l, d, everywhere) || In(r, d, everywhere)
  {
    InOne(r, d, everywhere);
    InHeaded(l, [r], d, everywhere);
    assert [l] + [r] == [l, r];
  }

  lemma {:induction false} InThree(c: Expr, t: Expr, f: Option<Expr>, d: string, everywhere: bool)
    ensures InAny(Children(If(c, t, f)), d, everywhere) <==>
              In(c, d, everywhere) || In(t, d, everywhere) || (f.Some? && In(f.value, d, everywhere))
  {
    InPair(c, t, d, everywhere);
    if f.Some? {
      InPair(t, f.value, d, everywhere);
      InHeaded(c, [t, f.value], d, everywhere);
      assert [c] + [t, f.value] == [c, t, f.value];
    }
  }

  ghost predicate OccursIn(e: Expr, d: string, everywhere: bool) {
    if everywhere then Mentioned(e, d) else MentionedOpenly(e, d)
  }

  lemma {:induction false} OccursBelow(e: Expr, i: nat, d: string, everywhere: bool)
    requires i < |Children(e)| && OccursIn(Children(e)[i], d, everywhere) && (everywhere || !Hides(e))
    ensures OccursIn(e, d, everywhere)
  {
    var q :| Occurs(Children(e)[i], q, d) && (everywhere || InTheOpen(Children(e)[i], q));
    var p := [i] + q;
    assert p[1..] == q;
    assert Occurs(e, p, d);
  }

  lemma {:induction false} OccursAbove(e: Expr, d: string, everywhere: bool) returns (i: nat)
    requires OccursIn(e, d, everywhere) && e != TemporalRef(d)
    ensures i < |Children(e)| && OccursIn(Children(e)[i], d, everywhere) && (everywhere || !Hides(e))
  {
    var p :| Occurs(e, p, d) && (everywhere || InTheOpen(e, p));
    i := p[0];
    assert Occurs(Children(e)[i], p[1..], d);
  }

  /** A name occurs at some position if and only if it stands in the expression. */
  lemma {:induction false} OccursIff(e: Expr, d: string, everywhere: bool)
    ensures OccursIn(e, d, everywhere) <==> In(e, d, everywhere)
    decreases e
  {
    InByChildren(e, d, everywhere);
    forall i | 0 <= i < |Children(e)|
      ensures OccursIn(Children(e)[i], d, everywhere) <==> In(Children(e)[i], d, everywhere)
    {
      ChildSmaller(e, Children(e)[i]);
      OccursIff(Children(e)[i], d, everywhere);
    }
    if e == TemporalRef(d) {
      assert Occurs(e, [], d);
    } else if OccursIn(e, d, everywhere) {
      var i := OccursAbove(e, d, everywhere);
      assert In(Children(e)[i], d, everywhere);
    } else if In(e, d, everywhere) {
      var i :| 0 <= i < |Children(e)| && In(Children(e)[i], d, everywhere);
      OccursBelow(e, i, d, everywhere);
    }
  }

  lemma {:induction false} MentionedIff(e: Expr, d: string)
    ensures Mentioned(e, d) <==> In(e, d, true)
    ensures MentionedOpenly(e, d) <==> In(e, d, false)
  {
    OccursIff(e, d, true);
    OccursIff(e, d, false);
  }

  // ---------- the collector ----------

  /** Openly mentioned names, once for each occurrence, from left to right. */
  ghost function Refs(e: Expr): seq<string>
    decreases e, 1
  {
    if e.TemporalRef? then [e.name] else if Hides(e) then [] else RefsOfChildren(e, |Children(e)|)
  }

  /** Those of the first `k` children. */
  ghost function RefsOfChildren(e: Expr, k: nat): seq<string>
    requires k <= |Children(e)|
    decreases e, 0, k
  {
    if k == 0 then []
    else
      ChildSmaller(e, Children(e)[k - 1]);
      RefsOfChildren(e, k - 1) + Refs(Children(e)[k - 1])
  }

  ghost function RefsAll(es: seq<Expr>): seq<string> {
    if es == [] then [] else RefsAll(es[..|es| - 1]) + Refs(es[|es| - 1])
  }

  lemma {:induction false} RefsAllSnoc(es: seq<Expr>, e: Expr)
    ensures RefsAll(es + [e]) == RefsAll(es) + Refs(e)
  {
    assert (es + [e])[..|es|] == es;
  }

  lemma {:induction false} RefsAllConcat(a: seq<Expr>, b: seq<Expr>)
    ensures RefsAll(a + b) == RefsAll(a) + RefsAll(b)
  {
    if b == [] {
      assert a + b == a;
    } else {
      var n := |b| - 1;
      var before, last := b[..n], b[n];
      assert b == before + [last] && a + b == a + before + [last];
      RefsAllConcat(a, before);
      RefsAllSnoc(before, last);
      RefsAllSnoc(a + before, last);
      Associative(RefsAll(a), RefsAll(before), Refs(last));
    }
  }

  lemma {:induction false} ChildrenRefs(e: Expr, k: nat)
    requires k <= |Children(e)|
    ensures RefsOfChildren(e, k) == RefsAll(Children(e)[..k])
  {
    if k > 0 {
      ChildrenRefs(e, k - 1);
      assert Children(e)[..k] == Children(e)[..k - 1] + [Children(e)[k - 1]];
      RefsAllSnoc(Children(e)[..k - 1], Children(e)[k - 1]);
    }
  }

  /** The names of an ordinary node are those of its children. */
  lemma {:induction false} NodeRefs(e: Expr)
    requires !e.TemporalRef? && !Hides(e)
    ensures Refs(e) == RefsAll(Children(e))
  {
    ChildrenRefs(e, |Children(e)|);
    assert Children(e)[..|Children(e)|] == Children(e);
  }

  lemma {:induction false} RefsOne(a: Expr)
    ensures RefsAll([a]) == Refs(a)
  {
    RefsAllSnoc([], a);
    assert [] + [a] == [a];
  }

  lemma {:induction false} RefsTwo(a: Expr, b: Expr)
    ensures RefsAll([a, b]) == Refs(a) + Refs(b)
  {
    RefsOne(a);
    RefsAllSnoc([a], b);
    assert [a] + [b] == [a, b];
  }

  lemma {:induction false} RefsThree(a: Expr, b: Expr, c: Expr)
    ensures RefsAll([a, b, c]) == Refs(a) + Refs(b) + Refs(c)
  {
    RefsTwo(a, b);
    RefsAllSnoc([a, b], c);
    assert [a, b] + [c] == [a, b, c];
  }

  lemma {:induction false} RefsCons(a: Expr, more: seq<Expr>)
    ensures RefsAll([a] + more) == Refs(a) + RefsAll(more)
  {
    RefsOne(a);
    RefsAllConcat([a], more);
  }

  method CollectTemporalRefs(e: Expr) returns (refs: seq<string>)
    ensures refs == Refs(e)
  {
    refs := Collect(e, []);
  }

  /** Appends what is found in `e`. */
  method Collect(e: Expr, refs0: seq<string>) returns (refs: seq<string>)
    ensures refs == refs0 + Refs(e)
    decreases e, 3
  {
    match e
    case TemporalRef(name) => refs := refs0 + [name];
    case Leaf => NodeRefs(e); refs := refs0;
    case Ident(_) => NodeRefs(e); refs := refs0;
    case AddressOf(_, _) => refs := refs0;
    case Encode(_) => refs := refs0;
    case UnaryOp(x) => refs := CollectOnly(e, x, refs0);
    case FieldAccess(x) => refs := CollectOnly(e, x, refs0);
    case Closure(b) => refs := CollectOnly(e, b, refs0);
    case Cast(x) => refs := CollectOnly(e, x, refs0);
    case SomeOf(x) => refs := CollectOnly(e, x, refs0);
    case _ => refs := CollectMore(e, refs0);
  }

  /** The nodes with several subexpressions. */
  method CollectMore(e: Expr, refs0: seq<string>) returns (refs: seq<string>)
    requires !e.Leaf? && !e.Ident? && !e.TemporalRef? && !Hides(e)
    requires !e.UnaryOp? && !e.FieldAccess? && !e.Closure? && !e.Cast? && !e.SomeOf?
    ensures refs == refs0 + Refs(e)
    decreases e, 2
  {
    match e
    case BinOp(l, r) => refs := CollectPair(e, l, r, refs0);
    case Index(x, i) => refs := CollectPair(e, x, i, refs0);
    case MethodCall(x, _, args) => refs := CollectHeaded(e, x, args, refs0);
    case FnCall(_, args) => refs := CollectList(e, args, refs0);
    case If(c, t, f) => refs := CollectIf(e, c, t, f, refs0);
    case Let(v, b) => refs := CollectPair(e, v, b, refs0);
    case Block(stmts) => refs := CollectList(e, stmts, refs0);
    case RecordConstruct(vs) => refs := CollectList(e, vs, refs0);
    case RecordUpdate(x, vs) => refs := CollectHeaded(e, x, vs, refs0);
    case Tuple(es) => refs := CollectList(e, es, refs0);
    case MacroRef(_, args) => refs := CollectList(e, args, refs0);
    case Match(s, arms) => refs := CollectHeaded(e, s, arms, refs0);
    case ArrayLit(es) => refs := CollectList(e, es, refs0);
    case EnumVariantWithData(args) => refs := CollectList(e, args, refs0);
    case NamespacedCall(args) => refs := CollectList(e, args, refs0);
    case Range(a, b) => refs := CollectPair(e, a, b, refs0);
    case For(i, b) => refs := CollectPair(e, i, b, refs0);
  }

  method CollectIf(ghost e: Expr, c: Expr, t: Expr, f: Option<Expr>, refs0: seq<string>) returns (refs: seq<string>)
    requires e == If(c, t, f)
    ensures refs == refs0 + Refs(e)
    decreases e, 1
  {
    IfAppended(e, refs0);
    refs := Collect(c, refs0);
    refs := Collect(t, refs);
    if f.Some? {
      refs := Collect(f.value, refs);
    }
  }

  lemma {:induction false} IfAppended(e: Expr, refs0: seq<string>)
    requires e.If?
    ensures refs0 + Refs(e) ==
              if e.elseBranch.Some? then refs0 + Refs(e.cond) + Refs(e.thenBranch) + Refs(e.elseBranch.value)
              else refs0 + Refs(e.cond) + Refs(e.thenBranch)
  {
    IfRefs(e);
    Associative(refs0, Refs(e.cond), Refs(e.thenBranch));
    if e.elseBranch.Some? {
      Associative(refs0, Refs(e.cond) + Refs(e.thenBranch), Refs(e.elseBranch.value));
    }
  }

  lemma {:induction false} IfRefs(e: Expr)
    requires e.If?
    ensures Refs(e) ==
              if e.elseBranch.Some? then Refs(e.cond) + Refs(e.thenBranch) + Refs(e.elseBranch.value)
              else Refs(e.cond) + Refs(e.thenBranch)
  {
    NodeRefs(e);
    if e.elseBranch.Some? {
      RefsThree(e.cond, e.thenBranch, e.elseBranch.value);
    } else {
      RefsTwo(e.cond, e.thenBranch);
    }
  }

  method CollectOnly(ghost e: Expr, a: Expr, refs0: seq<string>) returns (refs: seq<string>)
    requires !e.TemporalRef? && !Hides(e) && Children(e) == [a]
    ensures refs == refs0 + Refs(e)
    decreases e, 1
  {
    NodeRefs(e);
    RefsOne(a);
    ChildSmaller(e, a);
    refs := Collect(a, refs0);
  }

  method CollectPair(ghost e: Expr, a: Expr, b: Expr, refs0: seq<string>) returns (refs: seq<string>)
    requires !e.TemporalRef? && !Hides(e) && Children(e) == [a, b]
    ensures refs == refs0 + Refs(e)
    decreases e, 1
  {
    NodeRefs(e);
    RefsTwo(a, b);
    ChildSmaller(e, a);
    ChildSmaller(e, b);
    refs := Collect(a, refs0);
    refs := Collect(b, refs);
  }

  method CollectList(ghost e: Expr, es: seq<Expr>, refs0: seq<string>) returns (refs: seq<string>)
    requires !e.TemporalRef? && !Hides(e) && Children(e) == es
    ensures refs == refs0 + Refs(e)
    decreases e, 1
  {
    NodeRefs(e);
    refs := CollectAll(e, es, refs0);
  }

  method CollectHeaded(ghost e: Expr, a: Expr, more: seq<Expr>, refs0: seq<string>) returns (refs: seq<string>)
    requires !e.TemporalRef? && !Hides(e) && Children(e) == [a] + more
    ensures refs == refs0 + Refs(e)
    decreases e, 1
  {
    NodeRefs(e);
    RefsCons(a, more);
    assert a in [a] + more;
    ChildSmaller(e, a);
    assert forall c :: c in more ==> c in [a] + more;
    refs := Collect(a, refs0);
    refs := CollectAll(e, more, refs);
    Associative(refs0, Refs(a), RefsAll(more));
  }

  method CollectAll(ghost e: Expr, es: seq<Expr>, refs0: seq<string>) returns (refs: seq<string>)
    requires forall c :: c in es ==> c in Children(e)
    ensures refs == refs0 + RefsAll(es)
    decreases e, 0
  {
    refs := refs0;
    for i := 0 to |es|
      invariant refs == refs0 + RefsAll(es[..i])
    {
      assert es[i] in es;
      ChildSmaller(e, es[i]);
      Associative(refs0, RefsAll(es[..i]), Refs(es[i]));
      assert es[..i + 1][..i] == es[..i];
      refs := Collect(es[i], refs);
    }
    assert es[..|es|] == es;
  }

  // ---------- what it sees ----------

  lemma {:induction false} InRefsAll(es: seq<Expr>, d: string)
    ensures d in RefsAll(es) <==> exists i :: 0 <= i < |es| && d in Refs(es[i])
  {
    if es != [] {
      var n := |es| - 1;
      InRefsAll(es[..n], d);
      RefsAllSnoc(es[..n], es[n]);
      assert es == es[..n] + [es[n]];
      assert forall i :: 0 <= i < n ==> es[..n][i] == es[i];
    }
  }

  lemma {:induction false} RefSeen(e: Expr, p: seq<nat>, d: string)
    requires Occurs(e, p, d) && InTheOpen(e, p)
    ensures d in Refs(e)
    decreases |p|
  {
    if p != [] {
      assert Children(e)[p[0]] in Children(e);
      RefSeen(Children(e)[p[0]], p[1..], d);
      NodeRefs(e);
      InRefsAll(Children(e), d);
    }
  }

  lemma {:induction false} SeenRef(e: Expr, d: string) returns (p: seq<nat>)
    requires d in Refs(e)
    ensures Occurs(e, p, d) && InTheOpen(e, p)
    decreases e
  {
    if e.TemporalRef? {
      p := [];
    } else {
      NodeRefs(e);
      InRefsAll(Children(e), d);
      var i: nat :| i < |Children(e)| && d in Refs(Children(e)[i]);
      ChildSmaller(e, Children(e)[i]);
      var q := SeenRef(Children(e)[i], d);
      p := [i] + q;
      assert p[1..] == q;
    }
  }

  /** The collector finds exactly the references that occur outside every `address_of` and `encode`.
      The body of a macro is not part of the expression that calls it. */
  lemma {:induction false} RefsExact(e: Expr, d: string)
    ensures d in Refs(e) <==> MentionedOpenly(e, d)
    ensures d in Refs(e) <==> In(e, d, false)
  {
    MentionedIff(e, d);
    if d in Refs(e) {
      var p := SeenRef(e, d);
    }
    if p :| Occurs(e, p, d) && InTheOpen(e, p) {
      RefSeen(e, p, d);
    }
  }

  /** No `address_of` and no `encode` anywhere in the expression. */
  predicate Transparent(e: Expr)
    decreases e
  {
    !Hides(e) && forall c :: c in Children(e) ==> (ChildSmaller(e, c); Transparent(c))
  }

  lemma {:induction false} TransparentOpen(e: Expr, p: seq<nat>, d: string)
    requires Transparent(e) && Occurs(e, p, d)
    ensures InTheOpen(e, p)
    decreases |p|
  {
    if p != [] {
      assert Children(e)[p[0]] in Children(e);
      TransparentOpen(Children(e)[p[0]], p[1..], d);
    }
  }

  /** In such an expression every reference is found. */
  lemma {:induction false} TransparentExact(e: Expr, d: string)
    requires Transparent(e)
    ensures d in Refs(e) <==> Mentioned(e, d)
    ensures d in Refs(e) <==> In(e, d, true)
  {
    RefsExact(e, d);
    MentionedIff(e, d);
    if p :| Occurs(e, p, d) {
      TransparentOpen(e, p, d);
    }
  }
}
