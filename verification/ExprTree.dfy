/** The expressions that the analyses walk over. */
module ExprTree {
  import opened Wrappers

  /** The expression tree (cambrian-transpiler/src/ast.rs) without operators, patterns, types and field
      names. `Leaf` stands for literals and every other node without subexpressions. */
  datatype Expr =
    | Leaf
    | Ident(name: string)
    | TemporalRef(name: string)
    | BinOp(left: Expr, right: Expr)
    | UnaryOp(operand: Expr)
    | FieldAccess(base: Expr)
    | Index(base: Expr, index: Expr)
    | MethodCall(receiver: Expr, name: string, args: seq<Expr>)
    | FnCall(name: string, args: seq<Expr>)
    | If(cond: Expr, thenBranch: Expr, elseBranch: Option<Expr>)
    | Let(value: Expr, body: Expr)
    | Block(stmts: seq<Expr>)
    | RecordConstruct(values: seq<Expr>)
    | RecordUpdate(base: Expr, values: seq<Expr>)
    | Closure(body: Expr)
    | Cast(operand: Expr)
    | Tuple(elems: seq<Expr>)
    | MacroRef(name: string, args: seq<Expr>)
    | Match(subject: Expr, arms: seq<Expr>)
    | SomeOf(operand: Expr)
    | ArrayLit(elems: seq<Expr>)
    | EnumVariantWithData(args: seq<Expr>)
    | NamespacedCall(args: seq<Expr>)
    | Range(low: Expr, high: Expr)
    | For(iter: Expr, body: Expr)
    | AddressOf(args: seq<Expr>, withParams: seq<Expr>)
    | Encode(value: Expr)

  /** The direct subexpressions, from left to right. */
  function Children(e: Expr): seq<Expr> {
    match e
    case Leaf => []
    case Ident(_) => []
    case TemporalRef(_) => []
    case BinOp(l, r) => [l, r]
    case UnaryOp(x) => [x]
    case FieldAccess(x) => [x]
    case Index(x, i) => [x, i]
    case MethodCall(x, _, args) => [x] + args
    case FnCall(_, args) => args
    case If(c, t, Some(f)) => [c, t, f]
    case If(c, t, None) => [c, t]
    case Let(v, b) => [v, b]
    case Block(stmts) => stmts
    case RecordConstruct(vs) => vs
    case RecordUpdate(x, vs) => [x] + vs
    case Closure(b) => [b]
    case Cast(x) => [x]
    case Tuple(es) => es
    case MacroRef(_, args) => args
    case Match(s, arms) => [s] + arms
    case SomeOf(x) => [x]
    case ArrayLit(es) => es
    case EnumVariantWithData(args) => args
    case NamespacedCall(args) => args
    case Range(a, b) => [a, b]
    case For(i, b) => [i, b]
    case AddressOf(args, ws) => args + ws
    case Encode(v) => [v]
  }

  lemma ChildSmaller(e: Expr, c: Expr)
    requires c in Children(e)
    ensures c < e
  {
  }

  /** `c` stands directly in one of the fields of `e`. */
  predicate Part(e: Expr, c: Expr) {
    match e
    case Leaf => false
    case Ident(_) => false
    case TemporalRef(_) => false
    case BinOp(left, right) => c == left || c == right
    case UnaryOp(operand) => c == operand
    case FieldAccess(base) => c == base
    case Index(base, index) => c == base || c == index
    case MethodCall(receiver, _, args) => c == receiver || c in args
    case FnCall(_, args) => c in args
    case If(cond, thenBranch, elseBranch) => c == cond || c == thenBranch || elseBranch == Some(c)
    case Let(value, body) => c == value || c == body
    case Block(stmts) => c in stmts
    case RecordConstruct(values) => c in values
    case RecordUpdate(base, values) => c == base || c in values
    case Closure(body) => c == body
    case Cast(operand) => c == operand
    case Tuple(elems) => c in elems
    case MacroRef(_, args) => c in args
    case Match(subject, arms) => c == subject || c in arms
    case SomeOf(operand) => c == operand
    case ArrayLit(elems) => c in elems
    case EnumVariantWithData(args) => c in args
    case NamespacedCall(args) => c in args
    case Range(low, high) => c == low || c == high
    case For(iter, body) => c == iter || c == body
    case AddressOf(args, withParams) => c in args || c in withParams
    case Encode(value) => c == value
  }

  /** Every direct subexpression is a child, and nothing else. */
  lemma ChildrenExact(e: Expr, c: Expr)
    ensures c in Children(e) <==> Part(e, c)
  {
  }

  /** The node to which the child positions `p` lead from `e`. */
  ghost function NodeAt(e: Expr, p: seq<nat>): Option<Expr>
    decreases |p|
  {
    if p == [] then Some(e)
    else if p[0] < |Children(e)| then NodeAt(Children(e)[p[0]], p[1..])
    else None
  }
}
