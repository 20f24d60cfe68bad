/** The part of Go's `go/build/constraint` package the directory reader
    uses: build-constraint expressions, their evaluation against a set of
    tags, and the three recognisers of constraint comments, which are left
    abstract. */
module Constraint {
  import opened Wrappers

  /** `constraint.Expr`: a tag, `!x`, `x && y` or `x || y`. */
  datatype Expr =
    | Tag(tag: string)
    | Not(x: Expr)
    | And(x: Expr, y: Expr)
    | Or(x: Expr, y: Expr)

  /** `Expr.Eval`: the truth value of `e` when each tag has the value `ok`
      gives it. */
  function Eval(e: Expr, ok: string -> bool): bool
  {
    match e
    case Tag(t) => ok(t)
    case Not(x) => !Eval(x, ok)
    case And(x, y) => Eval(x, ok) && Eval(y, ok)
    case Or(x, y) => Eval(x, ok) || Eval(y, ok)
  }

  /** `constraint.IsGoBuild`, `constraint.IsPlusBuild` and
      `constraint.Parse`, applied to the text of one comment.  Parse
      failures carry the parser's message. */
  datatype Syntax = Syntax(isGoBuild: string -> bool,
                           isPlusBuild: string -> bool,
                           parse: string -> Result<Expr, string>)
}
