/** The parts of the syntax tree that the modelled passes look at
    (cambrian-transpiler/src/ast.rs). */
module Ast {

  datatype Type =
    | Simple(name: string)
    | Generic(name: string, params: seq<Type>)
    | Tuple(parts: seq<Type>)
    | TypedAddress(entity: string)

  datatype Field = Field(name: string, ty: Type)

  datatype Record = Record(name: string, fields: seq<Field>)

  datatype EnumVariant = EnumVariant(name: string, fields: seq<Type>)

  datatype EnumDecl = EnumDecl(name: string, variants: seq<EnumVariant>)

  /** A top-level expression: a call by name, or any other node with its children. */
  datatype Expr = Call(name: string, args: seq<Expr>) | Node(children: seq<Expr>)

  datatype PureFn = PureFn(name: string, body: Expr)

  /** Field types of all variants, in order. */
  function VariantTypes(variants: seq<EnumVariant>): seq<Type> {
    if variants == [] then [] else VariantTypes(variants[..|variants| - 1]) + variants[|variants| - 1].fields
  }

  function FieldTypes(fields: seq<Field>): (r: seq<Type>)
    ensures |r| == |fields| && forall i :: 0 <= i < |fields| ==> r[i] == fields[i].ty
  {
    seq(|fields|, i requires 0 <= i < |fields| => fields[i].ty)
  }
}
