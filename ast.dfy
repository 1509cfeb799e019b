/** The part of the TypeScript syntax tree the rule looks at. The host parser
    builds it; every node carries the half-open range `[start, end)` of its
    text in the source string, counted in characters. */
module Ast {
  import opened Wrappers

  datatype Range = Range(start: nat, end: nat)

  /** A type node, such as `boolean` in `useMemo<boolean>`. */
  datatype TypeNode = TypeNode(range: Range)

  /** The generic-argument list `<...>` of a call, brackets included. */
  datatype TypeArgs = TypeArgs(range: Range, params: seq<TypeNode>)

  /** The expression shapes the rule tells apart. `calleeName` is the callee's
      `name` property, which only an identifier callee has: a member callee such
      as `React.useMemo` has none. Every other expression kind (identifiers,
      arrays, spread elements, ...) is `Other`. */
  datatype Expr =
    | Call(range: Range, calleeName: Option<string>, typeArgs: Option<TypeArgs>, args: seq<Expr>)
    | Arrow(range: Range, hasReturnType: bool)
    | FnExpr(range: Range, hasReturnType: bool)
    | Other(range: Range)

  /** A `VariableDeclarator`; `kind` is the `kind` of its parent
      `VariableDeclaration` ("const", "let", "var", ...). */
  datatype Declarator = Declarator(range: Range, kind: string, init: Option<Expr>)

  function Min(a: nat, b: nat): nat { if a <= b then a else b }

  /** `sourceCode.getText(node)`: JavaScript's `slice` of the source over the
      node's range, which clamps both ends to the text and yields "" for a
      reversed range. */
  function GetText(src: string, r: Range): (t: string)
    ensures r.start <= r.end <= |src| ==> t == src[r.start..r.end]
    ensures |t| <= |src|
  {
    var to := Min(r.end, |src|);
    src[Min(r.start, to)..to]
  }

  predicate Inside(inner: Range, outer: Range) {
    outer.start <= inner.start <= inner.end <= outer.end
  }

  /** What the parser guarantees of an expression: children lie inside their
      parent, and a call's generic-argument list ends before its first
      argument starts. */
  predicate ExprWellFormed(e: Expr) {
    match e
    case Call(r, _, typeArgs, args) =>
      && (typeArgs.Some? ==>
            && Inside(typeArgs.value.range, r)
            && (forall p :: p in typeArgs.value.params ==> Inside(p.range, typeArgs.value.range)))
      && (typeArgs.Some? && |args| > 0 ==> typeArgs.value.range.end <= args[0].range.start)
      && (forall a :: a in args ==> Inside(a.range, r) && ExprWellFormed(a))
    case _ => true
  }

  predicate WellFormed(src: string, d: Declarator) {
    && Inside(d.range, Range(0, |src|))
    && (d.init.Some? ==> Inside(d.init.value.range, d.range) && ExprWellFormed(d.init.value))
  }
}
