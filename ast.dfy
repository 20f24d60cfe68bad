/** The part of Go's syntax tree (package `go/ast`) that the package model
    is built from.  Positions are plain integers; a nil node is `None`.

    Only the node kinds that the renderer and the reader inspect have their
    own constructor; every other expression is `OtherExpr`, every other
    declaration `OtherDecl` and every other spec `OtherSpec`. */
module Ast {
  import opened Wrappers

  /** `ast.ChanDir`: a bit set of `SEND` (1) and `RECV` (2). */
  const SEND: int := 1
  const RECV: int := 2

  /** Kinds of basic literals (`token.INT`, `token.STRING`, ...). */
  datatype LitKind = INT | FLOAT | IMAG | CHAR | STRING

  /** `ast.BasicLit`: the kind and the literal's source text. */
  datatype BasicLit = BasicLit(kind: LitKind, value: string)

  /** Type expressions. */
  datatype Expr =
    | Ident(name: string)
    | SelectorExpr(x: Expr, sel: string)
    | StarExpr(x: Expr)
    | Ellipsis(elt: Expr)
    | ArrayType(len: Option<Expr>, elt: Expr)
    | MapType(key: Expr, value: Expr)
    | FuncType(sig: Signature)
    | StructType(fields: Option<FieldList>)
    | InterfaceType(methods: Option<FieldList>)
    | ChanType(dir: int, value: Expr)
    | OtherExpr

  /** The parameter and result lists of an `ast.FuncType`. */
  datatype Signature = Signature(params: Option<FieldList>, results: Option<FieldList>)

  /** `ast.FieldList`. */
  datatype FieldList = FieldList(list: seq<Field>)

  /** `ast.Field`: the declared names (none for an embedded field, an
      unnamed parameter or an unnamed result), the type and the tag. */
  datatype Field = Field(names: seq<string>, typ: Expr, tag: Option<BasicLit>)

  /** Tokens of general declarations. */
  datatype Token = IMPORT | CONST | VAR | TYPE

  datatype Spec =
    | ImportSpec(alias: Option<string>, path: BasicLit)
    | ValueSpec(names: seq<string>, valueType: Option<Expr>)
    | TypeSpec(name: string, typ: Expr)
    | OtherSpec

  datatype Decl =
    | GenDecl(tok: Token, lparen: bool, specs: seq<Spec>)
    | FuncDecl(recv: Option<FieldList>, name: string, typ: Option<Signature>)
    | OtherDecl

  /** `ast.CommentGroup`: the position of its first comment and the text of
      each comment, delimiters included. */
  datatype CommentGroup = CommentGroup(pos: int, list: seq<string>)

  /** `ast.File`: the package name, the position of the `package` keyword,
      the comment groups in source order and the declarations. */
  datatype File = File(name: string, package: int, comments: seq<CommentGroup>, decls: seq<Decl>)

  /** `ast.Package`: the package name and its files by file name. */
  datatype Package = Package(name: string, files: map<string, File>)

  /** The field list of `fl`, nil standing for an empty one. */
  function Fields(fl: Option<FieldList>): seq<Field>
  {
    if fl.None? then [] else fl.value.list
  }
}
