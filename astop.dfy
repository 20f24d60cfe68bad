/** astop.go: the base name of a receiver type, the canonical text of a
    type expression, and the variables of a parameter or result list.

    `typeString` panics on a channel whose direction is not one of the three
    legal ones and on a non-function member of an interface literal.
    `Renderable` is exactly the set of expressions on which it does not
    panic, and `TypeString` is defined on those. */
module Astop {
  import opened Wrappers
  import opened GoStrings
  import opened Srcdom
  import Ast

  /** `baseTypeName`: the name of the type `x` denotes after any number of
      pointer levels, and whether it is qualified by a package (imported).
      Anything else, a selector on a non-identifier included, gives
      `("", false)`. */
  function BaseTypeName(x: Ast.Expr): (r: (string, bool))
    ensures var y := StripStars(x);
      (r.1 <==> y.SelectorExpr? && y.x.Ident?) &&
      (y.Ident? ==> r == (y.name, false)) &&
      (y.SelectorExpr? && y.x.Ident? ==> r == (y.sel, true)) &&
      (!y.Ident? && !(y.SelectorExpr? && y.x.Ident?) ==> r == ("", false))
    decreases x
  {
    match x
    case Ident(n) => (n, false)
    case SelectorExpr(y, sel) => if y.Ident? then (sel, true) else ("", false)
    case StarExpr(y) => BaseTypeName(y)
    case _ => ("", false)
  }

  /** `x` with every pointer level above it removed. */
  function StripStars(x: Ast.Expr): (y: Ast.Expr)
    ensures !y.StarExpr?
    decreases x
  {
    if x.StarExpr? then StripStars(x.x) else x
  }

  /** The three legal channel directions. */
  predicate LegalDir(dir: int)
  {
    dir == Ast.SEND + Ast.RECV || dir == Ast.SEND || dir == Ast.RECV
  }

  /** `typeString(x)` does not panic. */
  predicate Renderable(x: Ast.Expr)
    decreases x
  {
    match x
    case StarExpr(y) => Renderable(y)
    case Ellipsis(elt) => Renderable(elt)
    case ArrayType(_, elt) => Renderable(elt)
    case MapType(k, v) => Renderable(k) && Renderable(v)
    case FuncType(sig) => SignatureRenderable(sig)
    case StructType(fl) => fl.None? || FieldsRenderable(fl.value, 0)
    case InterfaceType(fl) => fl.None? || MethodsRenderable(fl.value, 0)
    case ChanType(dir, v) => LegalDir(dir) && Renderable(v)
    case _ => true
  }

  predicate SignatureRenderable(sig: Ast.Signature)
    decreases sig
  {
    (sig.params.None? || FieldsRenderable(sig.params.value, 0)) &&
    (sig.results.None? || FieldsRenderable(sig.results.value, 0))
  }

  /** The types of the fields from position `i` on are renderable. */
  predicate FieldsRenderable(fl: Ast.FieldList, i: nat)
    decreases fl, |fl.list| - i
  {
    i >= |fl.list| || (Renderable(fl.list[i].typ) && FieldsRenderable(fl, i + 1))
  }

  /** The interface members from position `i` on are function types with
      renderable signatures. */
  predicate MethodsRenderable(fl: Ast.FieldList, i: nat)
    decreases fl, |fl.list| - i
  {
    i >= |fl.list| ||
    (fl.list[i].typ.FuncType? && SignatureRenderable(fl.list[i].typ.sig) && MethodsRenderable(fl, i + 1))
  }

  /** `firstName`. */
  function FirstName(names: seq<string>): (r: string)
    ensures names != [] ==> r == names[0]
    ensures names == [] ==> r == ""
  {
    if |names| == 0 then "" else names[0]
  }

  /** The label `typeString` puts before a channel's element type. */
  function ChanLabel(dir: int): string
    requires LegalDir(dir)
  {
    if dir == Ast.SEND + Ast.RECV then "chan"
    else if dir == Ast.SEND then "chan<-"
    else "<-chan"
  }

  /** `typeString`. */
  function TypeString(x: Ast.Expr): string
    requires Renderable(x)
    decreases x
  {
    match x
    case Ident(n) => n
    case SelectorExpr(y, sel) => if y.Ident? then TypeString(y) + "." + sel else ""
    case StarExpr(y) => "*" + TypeString(y)
    case FuncType(sig) =>
      var fn := FuncOf("", sig);
      "func (" + TypesString(fn.params) + ")" + fn.ResultsClause()
    case Ellipsis(elt) => "..." + TypeString(elt)
    case ArrayType(_, elt) => "[]" + TypeString(elt)
    case MapType(k, v) => "map[" + TypeString(k) + "]" + TypeString(v)
    case StructType(fl) =>
      if fl.None? || |fl.value.list| == 0 then "struct{}"
      else "struct { " + StructBody(fl.value, 0) + " }"
    case InterfaceType(fl) =>
      if fl.None? || |fl.value.list| == 0 then "interface{}"
      else "interface { " + InterfaceBody(fl.value, 0) + " }"
    case ChanType(dir, v) => ChanLabel(dir) + " " + TypeString(v)
    case OtherExpr => ""
  }

  /** The struct members from position `i` on: the first name, a space and
      the type, separated by `"; "`. */
  function StructBody(fl: Ast.FieldList, i: nat): string
    requires i < |fl.list| && FieldsRenderable(fl, i)
    decreases fl, |fl.list| - i
  {
    var f := fl.list[i];
    FirstName(f.names) + " " + TypeString(f.typ) +
    (if i + 1 < |fl.list| then "; " + StructBody(fl, i + 1) else "")
  }

  /** The interface members from position `i` on: the first name, the
      parameter types in parentheses and the results clause, separated by
      `"; "`. */
  function InterfaceBody(fl: Ast.FieldList, i: nat): string
    requires i < |fl.list| && MethodsRenderable(fl, i)
    decreases fl, |fl.list| - i
  {
    var m := fl.list[i];
    var fn := FuncOf("", m.typ.sig);
    FirstName(m.names) + "(" + TypesString(fn.params) + ")" + fn.ResultsClause() +
    (if i + 1 < |fl.list| then "; " + InterfaceBody(fl, i + 1) else "")
  }

  /** `toVar`: one variable per declared name, all of the field's type, or
      a single unnamed one. */
  function ToVar(f: Ast.Field): seq<Var>
    requires Renderable(f.typ)
    decreases f
  {
    var typ := TypeString(f.typ);
    if |f.names| == 0 then [Var("", typ)]
    else seq(|f.names|, i requires 0 <= i < |f.names| => Var(f.names[i], typ))
  }

  /** `toVarArray`: nothing for an absent or empty list, otherwise the
      variables of each field in order. */
  function ToVarArray(fl: Option<Ast.FieldList>): seq<Var>
    requires fl.None? || FieldsRenderable(fl.value, 0)
    decreases fl
  {
    if fl.None? || |fl.value.list| == 0 then [] else VarsFrom(fl.value, 0)
  }

  function VarsFrom(fl: Ast.FieldList, i: nat): seq<Var>
    requires FieldsRenderable(fl, i)
    decreases fl, |fl.list| - i
  {
    if i >= |fl.list| then [] else ToVar(fl.list[i]) + VarsFrom(fl, i + 1)
  }

  /** `toFunc` on a function type that is present. */
  function FuncOf(name: string, sig: Ast.Signature): Func
    requires SignatureRenderable(sig)
    decreases sig
  {
    Func(name, ToVarArray(sig.params), ToVarArray(sig.results))
  }

  /** `toFunc`: a function named `name` whose parameters and results are
      those of `funcType`, none when it is nil. */
  function ToFunc(name: string, funcType: Option<Ast.Signature>): (fn: Func)
    requires funcType.None? || SignatureRenderable(funcType.value)
    ensures fn.name == name
    ensures funcType.None? ==> fn.params == [] && fn.results == []
  {
    if funcType.None? then Func(name, [], []) else FuncOf(name, funcType.value)
  }

  /** `n` pointer levels above `x`. */
  function Stars(n: nat, x: Ast.Expr): Ast.Expr
  {
    if n == 0 then x else Ast.StarExpr(Stars(n - 1, x))
  }

  /** `baseTypeName` looks through any number of pointer levels. */
  lemma {:induction false} BaseTypeNameStars(n: nat, x: Ast.Expr)
    ensures BaseTypeName(Stars(n, x)) == BaseTypeName(x)
  {
    if n > 0 {
      BaseTypeNameStars(n - 1, x);
    }
  }

  /** Each pointer level adds one `*` in front of the rendering. */
  lemma {:induction false} TypeStringStars(n: nat, x: Ast.Expr)
    requires Renderable(x)
    ensures Renderable(Stars(n, x))
    ensures TypeString(Stars(n, x)) == Repeat("*", n) + TypeString(x)
  {
    if n > 0 {
      TypeStringStars(n - 1, x);
      assert Repeat("*", n) + TypeString(x) == "*" + (Repeat("*", n - 1) + TypeString(x));
    }
  }

  /** The base type name ends the rendering of the type, and an imported
      one comes after a dot: the receiver `*pkg.T` renders as `*pkg.T` and
      has base name `T`. */
  lemma {:induction false} BaseTypeNameEndsRendering(x: Ast.Expr)
    requires Renderable(x)
    ensures EndsWithName(TypeString(x), BaseTypeName(x).0, BaseTypeName(x).1)
  {
    match x
    case Ident(n) =>
      EndsWithItself(n);
    case SelectorExpr(y, sel) =>
      if y.Ident? {
        EndsAfterDot(TypeString(y), sel);
      } else {
        EndsWithNothing(TypeString(x));
      }
    case StarExpr(y) =>
      BaseTypeNameEndsRendering(y);
      EndsAfterStar(TypeString(y), BaseTypeName(y).0, BaseTypeName(y).1);
    case _ =>
      EndsWithNothing(TypeString(x));
  }

  lemma EndsWithItself(n: string)
    ensures EndsWithName(n, n, false)
  {
    assert n[|n| - |n|..] == n;
  }

  lemma EndsWithNothing(s: string)
    ensures EndsWithName(s, "", false)
  {
    assert s[|s|..] == "";
  }

  lemma EndsAfterDot(s: string, sel: string)
    ensures EndsWithName(s + "." + sel, sel, true)
  {
    var t := s + "." + sel;
    assert t[|t| - |sel|..] == sel;
    assert t[|t| - |sel| - 1] == '.';
  }

  lemma EndsAfterStar(s: string, n: string, dotted: bool)
    requires EndsWithName(s, n, dotted)
    ensures EndsWithName("*" + s, n, dotted)
  {
    var t := "*" + s;
    assert t[|t| - |n|..] == s[|s| - |n|..];
    if dotted {
      assert t[|t| - |n| - 1] == s[|s| - |n| - 1];
    }
  }

  /** `s` ends with `n`, after a dot when `dotted`. */
  predicate EndsWithName(s: string, n: string, dotted: bool)
  {
    |n| <= |s| && s[|s| - |n|..] == n &&
    (dotted ==> |n| < |s| && s[|s| - |n| - 1] == '.')
  }

  /** A selector whose left side is not an identifier has no base name and
      renders as nothing. */
  lemma SelectorFallsThrough(y: Ast.Expr, sel: string)
    requires !y.Ident?
    ensures BaseTypeName(Ast.SelectorExpr(y, sel)) == ("", false)
    ensures TypeString(Ast.SelectorExpr(y, sel)) == ""
  {
  }

  /** The length of an array type is ignored: a fixed array renders as a
      slice. */
  lemma ArrayLengthIgnored(len: Ast.Expr, elt: Ast.Expr)
    requires Renderable(elt)
    ensures TypeString(Ast.ArrayType(Some(len), elt)) == TypeString(Ast.ArrayType(None, elt))
    ensures TypeString(Ast.ArrayType(None, elt)) == "[]" + TypeString(elt)
  {
  }

  /** A function type renders as `func (` + the parameter types + `)`
      followed by nothing for no result, the type for one, or the types in
      parentheses for several. */
  lemma FuncTypeRendering(sig: Ast.Signature)
    requires SignatureRenderable(sig)
    ensures var params, results := Types(ToVarArray(sig.params)), ToVarArray(sig.results);
      TypeString(Ast.FuncType(sig)) ==
        "func (" + Join(params, ", ") + ")" +
        (if |results| == 0 then ""
         else if |results| == 1 then " " + results[0].typ
         else " (" + Join(Types(results), ", ") + ")")
  {
  }

  /** The members' texts in a struct literal: first name, a space, type. */
  function MemberTexts(list: seq<Ast.Field>): seq<string>
    requires forall i :: 0 <= i < |list| ==> Renderable(list[i].typ)
    decreases |list|
  {
    if list == [] then []
    else [FirstName(list[0].names) + " " + TypeString(list[0].typ)] + MemberTexts(list[1..])
  }

  lemma {:induction false} StructBodyJoin(fl: Ast.FieldList, i: nat)
    requires i < |fl.list|
    requires forall j :: 0 <= j < |fl.list| ==> Renderable(fl.list[j].typ)
    ensures FieldsRenderable(fl, i)
    ensures StructBody(fl, i) == Join(MemberTexts(fl.list[i..]), "; ")
    decreases |fl.list| - i
  {
    var rest := fl.list[i..];
    assert rest[1..] == fl.list[i + 1..];
    if i + 1 < |fl.list| {
      StructBodyJoin(fl, i + 1);
    }
  }

  /** A struct literal with members renders as `struct { ` + each member's
      first name and type, joined by `"; "`, + ` }`: tags and further names
      are dropped. */
  lemma StructRendering(fields: seq<Ast.Field>)
    requires forall j :: 0 <= j < |fields| ==> Renderable(fields[j].typ)
    requires fields != []
    ensures Renderable(Ast.StructType(Some(Ast.FieldList(fields))))
    ensures TypeString(Ast.StructType(Some(Ast.FieldList(fields)))) ==
      "struct { " + Join(MemberTexts(fields), "; ") + " }"
  {
    var fl := Ast.FieldList(fields);
    StructBodyJoin(fl, 0);
    assert fl.list[0..] == fields;
  }

  /** The members' texts in an interface literal: first name, parameter
      types in parentheses, results clause. */
  function MethodTexts(list: seq<Ast.Field>): seq<string>
    requires forall i :: 0 <= i < |list| ==> list[i].typ.FuncType? && SignatureRenderable(list[i].typ.sig)
    decreases |list|
  {
    if list == [] then []
    else
      var fn := FuncOf("", list[0].typ.sig);
      [FirstName(list[0].names) + "(" + TypesString(fn.params) + ")" + fn.ResultsClause()] + MethodTexts(list[1..])
  }

  lemma {:induction false} InterfaceBodyJoin(fl: Ast.FieldList, i: nat)
    requires i < |fl.list|
    requires forall j :: 0 <= j < |fl.list| ==> fl.list[j].typ.FuncType? && SignatureRenderable(fl.list[j].typ.sig)
    ensures MethodsRenderable(fl, i)
    ensures InterfaceBody(fl, i) == Join(MethodTexts(fl.list[i..]), "; ")
    decreases |fl.list| - i
  {
    var rest := fl.list[i..];
    assert rest[1..] == fl.list[i + 1..];
    if i + 1 < |fl.list| {
      InterfaceBodyJoin(fl, i + 1);
    }
  }

  /** An interface literal with members renders as `interface { ` + each
      method's name, parameter types and results clause, joined by `"; "`,
      + ` }`. */
  lemma InterfaceRendering(methods: seq<Ast.Field>)
    requires forall j :: 0 <= j < |methods| ==> methods[j].typ.FuncType? && SignatureRenderable(methods[j].typ.sig)
    requires methods != []
    ensures Renderable(Ast.InterfaceType(Some(Ast.FieldList(methods))))
    ensures TypeString(Ast.InterfaceType(Some(Ast.FieldList(methods)))) ==
      "interface { " + Join(MethodTexts(methods), "; ") + " }"
  {
    var fl := Ast.FieldList(methods);
    InterfaceBodyJoin(fl, 0);
    assert fl.list[0..] == methods;
  }

  /** A struct or interface literal without members, its list absent or
      empty, renders as `struct{}` or `interface{}`. */
  lemma EmptyLiteralsRendering(fl: Option<Ast.FieldList>)
    requires fl.None? || fl.value.list == []
    ensures Renderable(Ast.StructType(fl)) && TypeString(Ast.StructType(fl)) == "struct{}"
    ensures Renderable(Ast.InterfaceType(fl)) && TypeString(Ast.InterfaceType(fl)) == "interface{}"
  {
  }

  lemma {:induction false} MethodsRenderableAt(fl: Ast.FieldList, i: nat, k: nat)
    requires i <= k < |fl.list| && MethodsRenderable(fl, i)
    ensures fl.list[k].typ.FuncType?
    decreases k - i
  {
    if i < k {
      MethodsRenderableAt(fl, i + 1, k);
    }
  }

  /** An interface literal with a member that is not a function type (an
      embedded interface, say) is where `typeString` panics. */
  lemma InterfacePanics(methods: seq<Ast.Field>, k: nat)
    requires k < |methods| && !methods[k].typ.FuncType?
    ensures !Renderable(Ast.InterfaceType(Some(Ast.FieldList(methods))))
  {
    if Renderable(Ast.InterfaceType(Some(Ast.FieldList(methods)))) {
      MethodsRenderableAt(Ast.FieldList(methods), 0, k);
    }
  }

  /** A channel renders as its direction label, a space and its element
      type; a direction other than both, send-only or receive-only is where
      `typeString` panics. */
  lemma ChanRendering(dir: int, v: Ast.Expr)
    requires Renderable(v)
    ensures Renderable(Ast.ChanType(dir, v)) <==> dir == Ast.SEND + Ast.RECV || dir == Ast.SEND || dir == Ast.RECV
    ensures dir == Ast.SEND + Ast.RECV ==> TypeString(Ast.ChanType(dir, v)) == "chan " + TypeString(v)
    ensures dir == Ast.SEND ==> TypeString(Ast.ChanType(dir, v)) == "chan<- " + TypeString(v)
    ensures dir == Ast.RECV ==> TypeString(Ast.ChanType(dir, v)) == "<-chan " + TypeString(v)
  {
    if LegalDir(dir) {
      assert TypeString(Ast.ChanType(dir, v)) == ChanLabel(dir) + " " + TypeString(v);
    }
  }

  /** The number of variables a field list yields: one per name, and one
      for a field without names. */
  function VarCount(list: seq<Ast.Field>): nat
  {
    if list == [] then 0
    else (if |list[0].names| == 0 then 1 else |list[0].names|) + VarCount(list[1..])
  }

  lemma {:induction false} VarsFromCount(fl: Ast.FieldList, i: nat)
    requires i <= |fl.list| && FieldsRenderable(fl, i)
    ensures |VarsFrom(fl, i)| == VarCount(fl.list[i..])
    decreases |fl.list| - i
  {
    if i < |fl.list| {
      VarsFromCount(fl, i + 1);
      assert fl.list[i..][1..] == fl.list[i + 1..];
    }
  }

  /** `(a, b int)` yields two variables: the list yields one variable per
      name, or one for an unnamed field. */
  lemma ToVarArrayCount(fl: Option<Ast.FieldList>)
    requires fl.None? || FieldsRenderable(fl.value, 0)
    ensures |ToVarArray(fl)| == VarCount(Ast.Fields(fl))
  {
    if fl.Some? {
      VarsFromCount(fl.value, 0);
      assert fl.value.list[0..] == fl.value.list;
    }
  }

  /** Every variable of a field carries the field's rendered type; their
      names are the declared names, or one empty name. */
  lemma ToVarNames(f: Ast.Field)
    requires Renderable(f.typ)
    ensures forall v :: v in ToVar(f) ==> v.typ == TypeString(f.typ)
    ensures |ToVar(f)| == (if f.names == [] then 1 else |f.names|)
    ensures f.names == [] ==> ToVar(f)[0].name == ""
    ensures forall i :: 0 <= i < |f.names| ==> ToVar(f)[i].name == f.names[i]
  {
  }
}
