/** What the reader of parser.go does to a package, stated on the values of
    srcdom.dfy: every `read*` step is a function from the package (or type)
    before it to the one after it and the error it returns, if any.  The
    `Parser` class in parser.dfy is proved to follow these functions. */
module ParserModel {
  import opened Wrappers
  import opened Indexed
  import opened Strconv
  import opened Tags
  import opened Srcdom
  import opened Astop
  import Ast

  /** The errors the reader returns.  `Panic` stands for a panic of
      `typeString`, which ends the read. */
  datatype Error =
    | ImportPathError       // strconv.Unquote of an import path failed
    | TagUnquoteError       // strconv.Unquote of a field tag failed
    | TagTokenError         // "unsupported token for tag"
    | EmbeddedInterface     // "embedded interface not supported"
    | UnsupportedMethodType // "unsupported interface method type"
    | NoReceivers           // "no receivers"
    | ImportedReceiver      // "method fro imported receiver"
    | Panic

  /** `&Tag{}`: the tag of a field declared without one. */
  function EmptyTag(): Tag
  {
    Tag("", [], map[])
  }

  /** `toTag`. */
  function TagOf(x: Option<Ast.BasicLit>): Result<Tag, Error>
  {
    if x.None? then Ok(EmptyTag())
    else if x.value.kind != Ast.STRING then Err(TagTokenError)
    else match Unquote(x.value.value)
      case None => Err(TagUnquoteError)
      case Some(v) => Ok(ParsedTag(v))
  }

  /** `toField`: the tag is read first, then the type is rendered. */
  function FieldOf(f: Ast.Field): Result<Field, Error>
  {
    match TagOf(f.tag)
    case Err(e) => Err(e)
    case Ok(tag) =>
      if !Renderable(f.typ) then Err(Panic)
      else Ok(Field(FirstName(f.names), TypeString(f.typ), Some(tag)))
  }

  /** `Parser.toVar`: one variable per field, named after its first name. */
  function VarOf(f: Ast.Field): Result<Var, Error>
  {
    if Renderable(f.typ) then Ok(Var(FirstName(f.names), TypeString(f.typ))) else Err(Panic)
  }

  /** `Parser.toVarArray` over `list`, after the variables `acc`. */
  function VarsAfter(acc: seq<Var>, list: seq<Ast.Field>): Result<seq<Var>, Error>
    decreases |list|
  {
    if list == [] then Ok(acc)
    else match VarOf(list[0])
      case Err(e) => Err(e)
      case Ok(v) => VarsAfter(acc + [v], list[1..])
  }

  /** `Parser.toVarArray`; an absent list is an empty one. */
  function VarsOf(fl: Option<Ast.FieldList>): Result<seq<Var>, Error>
  {
    VarsAfter([], Ast.Fields(fl))
  }

  /** `Parser.toFunc`. */
  function ParsedFunc(name: string, funcType: Option<Ast.Signature>): Result<Func, Error>
  {
    if funcType.None? then Ok(Func(name, [], []))
    else match VarsOf(funcType.value.params)
      case Err(e) => Err(e)
      case Ok(ps) =>
        match VarsOf(funcType.value.results)
        case Err(e) => Err(e)
        case Ok(rs) => Ok(Func(name, ps, rs))
  }

  /** The struct branch of `readTypeFields` from the field `list[0]` on:
      named fields are put in order; the first unnamed one is put as an
      embed of its rendered type and ends the loop. */
  function StructSpec(list: seq<Ast.Field>, t: TypeModel): (TypeModel, Option<Error>)
    decreases |list|
  {
    if list == [] then (t, None)
    else match FieldOf(list[0])
      case Err(e) => (t, Some(e))
      case Ok(f) =>
        if f.name == "" then (t.PutEmbed(f.typ), None)
        else StructSpec(list[1..], t.PutField(f))
  }

  /** The interface branch of `readTypeFields` from the member `list[0]` on. */
  function InterfaceSpec(list: seq<Ast.Field>, t: TypeModel): (TypeModel, Option<Error>)
    decreases |list|
  {
    if list == [] then (t, None)
    else
      var name := FirstName(list[0].names);
      if name == "" then (t, Some(EmbeddedInterface))
      else if !list[0].typ.FuncType? then (t, Some(UnsupportedMethodType))
      else match ParsedFunc(name, Some(list[0].typ.sig))
        case Err(e) => (t, Some(e))
        case Ok(fn) => InterfaceSpec(list[1..], t.PutMethod(fn))
  }

  /** `readTypeFields`. */
  function TypeFieldsSpec(x: Ast.Expr, t: TypeModel): (TypeModel, Option<Error>)
  {
    match x
    case StructType(fl) =>
      var s := t.(isStruct := true);
      if fl.None? || |fl.value.list| == 0 then (s, None) else StructSpec(fl.value.list, s)
    case InterfaceType(fl) =>
      if fl.None? || |fl.value.list| == 0 then (t, None) else InterfaceSpec(fl.value.list, t)
    case _ => (t, None)
  }

  /** `readType`: the type of that name, created when missing, is marked
      defined and then filled in. */
  function ReadTypeSpec(pm: PackageModel, name: string, x: Ast.Expr): (PackageModel, Option<Error>)
  {
    var (pm1, k) := pm.AssureType(name);
    DefineTypeSpec(pm1, k, x)
  }

  /** The rest of `readType` once the type is in the package at `k`: it is
      marked defined and its fields are read. */
  function DefineTypeSpec(pm: PackageModel, k: nat, x: Ast.Expr): (PackageModel, Option<Error>)
    requires k < |pm.types|
  {
    var (t, err) := TypeFieldsSpec(x, pm.types[k].(defined := true));
    (pm.SetType(k, t), err)
  }

  /** `readImport`. */
  function ReadImportSpec(pm: PackageModel, alias: Option<string>, path: Ast.BasicLit): (PackageModel, Option<Error>)
  {
    match Unquote(path.value)
    case None => (pm, Some(ImportPathError))
    case Some(p) => (pm.PutImport(Import(if alias.Some? then alias.value else "", p)), None)
  }

  /** The IMPORT branch of `ReadFile`: the import specs in order, up to the
      first error. */
  function ImportsSpec(pm: PackageModel, specs: seq<Ast.Spec>): (PackageModel, Option<Error>)
    decreases |specs|
  {
    if specs == [] then (pm, None)
    else if !specs[0].ImportSpec? then ImportsSpec(pm, specs[1..])
    else
      var (pm1, err) := ReadImportSpec(pm, specs[0].alias, specs[0].path);
      if err.Some? then (pm1, err) else ImportsSpec(pm1, specs[1..])
  }

  /** The type name and constness `readValue` gives the names of one spec.
      `prev` is never assigned, and `baseTypeName(nil)` is `("", false)`,
      so the type name is always empty. */
  function ValueKind(tok: Ast.Token, valueType: Option<Ast.Expr>): (string, bool)
  {
    var prev := "";
    if valueType.None? then ("", false)
    else if tok == Ast.CONST then (prev, true)
    else ("", false)
  }

  /** One `putValue` per name. */
  function PutValues(pm: PackageModel, names: seq<string>, typeName: string, isConst: bool): PackageModel
    decreases |names|
  {
    if names == [] then pm
    else PutValues(pm.PutValue(Value(names[0], typeName, isConst)), names[1..], typeName, isConst)
  }

  /** `readValue`: the value specs in order; other specs are skipped. */
  function ValuesSpec(pm: PackageModel, tok: Ast.Token, specs: seq<Ast.Spec>): PackageModel
    decreases |specs|
  {
    if specs == [] then pm
    else if !specs[0].ValueSpec? then ValuesSpec(pm, tok, specs[1..])
    else
      var (typeName, isConst) := ValueKind(tok, specs[0].valueType);
      ValuesSpec(PutValues(pm, specs[0].names, typeName, isConst), tok, specs[1..])
  }

  /** The loop of the TYPE branch of `ReadFile`. */
  function TypesSpec(pm: PackageModel, specs: seq<Ast.Spec>): (PackageModel, Option<Error>)
    decreases |specs|
  {
    if specs == [] then (pm, None)
    else
      var (pm1, err) := TypeSpecStep(pm, specs[0]);
      if err.Some? then (pm1, err) else TypesSpec(pm1, specs[1..])
  }

  /** One spec of the TYPE branch's loop: a type spec is read, any other
      kind of spec is skipped. */
  function TypeSpecStep(pm: PackageModel, s: Ast.Spec): (PackageModel, Option<Error>)
  {
    if s.TypeSpec? then ReadTypeSpec(pm, s.name, s.typ) else (pm, None)
  }

  /** The TYPE branch of `ReadFile`, with its shortcut for a single
      unparenthesized spec. */
  function TypeDeclSpec(pm: PackageModel, lparen: bool, specs: seq<Ast.Spec>): (PackageModel, Option<Error>)
  {
    if |specs| == 1 && !lparen then TypeSpecStep(pm, specs[0]) else TypesSpec(pm, specs)
  }

  /** `readFunc`. */
  function ReadFuncSpec(pm: PackageModel, recv: Option<Ast.FieldList>, name: string,
                        funcType: Option<Ast.Signature>): (PackageModel, Option<Error>)
  {
    match ParsedFunc(name, funcType)
    case Err(e) => (pm, Some(e))
    case Ok(f) =>
      if recv.None? then (pm.PutFunc(f), None)
      else if |recv.value.list| == 0 then (pm, Some(NoReceivers))
      else
        var (recvTypeName, imp) := BaseTypeName(recv.value.list[0].typ);
        if imp then (pm, Some(ImportedReceiver))
        else
          var (pm1, k) := pm.AssureType(recvTypeName);
          (pm1.SetType(k, pm1.types[k].PutMethod(f)), None)
  }

  /** One declaration of `ReadFile`'s loop. */
  function DeclSpec(pm: PackageModel, d: Ast.Decl): (PackageModel, Option<Error>)
  {
    match d
    case GenDecl(tok, lparen, specs) =>
      (match tok
       case IMPORT => ImportsSpec(pm, specs)
       case CONST => (ValuesSpec(pm, tok, specs), None)
       case VAR => (ValuesSpec(pm, tok, specs), None)
       case TYPE => TypeDeclSpec(pm, lparen, specs))
    case FuncDecl(recv, name, typ) => ReadFuncSpec(pm, recv, name, typ)
    case OtherDecl => (pm, None)
  }

  /** `ReadFile`'s loop: the declarations in file order, up to the first
      error. */
  function DeclsSpec(pm: PackageModel, decls: seq<Ast.Decl>): (PackageModel, Option<Error>)
    decreases |decls|
  {
    if decls == [] then (pm, None)
    else
      var (pm1, err) := DeclSpec(pm, decls[0]);
      if err.Some? then (pm1, err) else DeclsSpec(pm1, decls[1..])
  }

  /** The package `ReadFile` starts from: the current one when it has the
      file's package name, a new empty one otherwise. */
  function StartPackage(current: Option<PackageModel>, file: Ast.File): PackageModel
  {
    if current.None? || current.value.name != file.name then EmptyPackage(file.name)
    else current.value
  }

  /** `ReadFile`. */
  function ReadFileSpec(current: Option<PackageModel>, file: Ast.File): (PackageModel, Option<Error>)
  {
    DeclsSpec(StartPackage(current, file), file.decls)
  }

  // ---------------------------------------------------------------------
  // Properties

  /** `readImport` appends exactly one import, with the alias or `""` and
      the unquoted path, or fails and appends nothing. */
  lemma ReadImportAppendsOne(pm: PackageModel, alias: Option<string>, path: Ast.BasicLit)
    ensures var (pm1, err) := ReadImportSpec(pm, alias, path);
      (err.Some? <==> Unquote(path.value).None?) &&
      (err.Some? ==> pm1 == pm) &&
      (err.None? ==> pm1 == pm.(imports := pm.imports + [Import(if alias.Some? then alias.value else "", Unquote(path.value).value)]))
  {
  }

  /** The variables `toVarArray` yields: one per field, named after the
      field's first name, typed by its rendering; a panic exactly when
      some field's type cannot be rendered. */
  lemma {:induction false} VarsAfterShape(acc: seq<Var>, list: seq<Ast.Field>)
    ensures VarsAfter(acc, list).Ok? <==> forall i :: 0 <= i < |list| ==> Renderable(list[i].typ)
    ensures VarsAfter(acc, list).Err? ==> VarsAfter(acc, list).error == Panic
    ensures VarsAfter(acc, list).Ok? ==>
      var vs := VarsAfter(acc, list).value;
      |vs| == |acc| + |list| && vs[..|acc|] == acc &&
      forall i :: 0 <= i < |list| ==>
        vs[|acc| + i] == Var(FirstName(list[i].names), TypeString(list[i].typ))
    decreases |list|
  {
    if list != [] && Renderable(list[0].typ) {
      var v := Var(FirstName(list[0].names), TypeString(list[0].typ));
      var tail := list[1..];
      VarsAfterShape(acc + [v], tail);
      assert forall i :: 1 <= i < |list| ==> list[i] == tail[i - 1];
      if VarsAfter(acc, list).Ok? {
        var vs := VarsAfter(acc, list).value;
        assert vs[..|acc| + 1] == acc + [v];
        assert vs[..|acc|] == (acc + [v])[..|acc|];
        forall i | 0 <= i < |list|
          ensures vs[|acc| + i] == Var(FirstName(list[i].names), TypeString(list[i].typ))
        {
          if i == 0 {
            assert vs[|acc|] == (acc + [v])[|acc|];
          } else {
            assert vs[|acc| + 1 + (i - 1)] == Var(FirstName(tail[i - 1].names), TypeString(tail[i - 1].typ));
          }
        }
      }
    }
  }

  /** `Parser.toFunc`: the name as given, one parameter and one result
      per field entry, and a panic as the only error. */
  lemma ParsedFuncShape(name: string, funcType: Option<Ast.Signature>)
    ensures ParsedFunc(name, funcType).Err? ==> ParsedFunc(name, funcType).error == Panic
    ensures ParsedFunc(name, funcType).Ok? ==>
      var fn := ParsedFunc(name, funcType).value;
      fn.name == name &&
      (funcType.None? ==> fn.params == [] && fn.results == []) &&
      (funcType.Some? ==> |fn.params| == |Ast.Fields(funcType.value.params)| &&
                          |fn.results| == |Ast.Fields(funcType.value.results)|)
  {
    if funcType.Some? {
      VarsAfterShape([], Ast.Fields(funcType.value.params));
      VarsAfterShape([], Ast.Fields(funcType.value.results));
    }
  }

  /** Parameters `(a, b int)` give `toFunc` of parser.go one variable, `a`,
      while the renderer's `toFunc` gives two. */
  lemma ParserKeepsFirstNameOnly()
    ensures var sig := Ast.Signature(Some(Ast.FieldList([Ast.Field(["a", "b"], Ast.Ident("int"), None)])), None);
      ParsedFunc("F", Some(sig)) == Ok(Func("F", [Var("a", "int")], [])) &&
      FuncOf("F", sig).params == [Var("a", "int"), Var("b", "int")]
  {
    var f := Ast.Field(["a", "b"], Ast.Ident("int"), None);
    var fl := Ast.FieldList([f]);
    assert VarOf(f) == Ok(Var("a", "int"));
    assert [f][0] == f && [f][1..] == [];
    assert [] + [Var("a", "int")] == [Var("a", "int")];
    assert VarsAfter([], [f]) == VarsAfter([Var("a", "int")], []);
    assert VarsOf(Some(fl)) == Ok([Var("a", "int")]);
    assert VarsOf(None) == Ok([]);
  }

  /** `u` is `t` with members appended and no other change, except that the
      struct flag may have been set. */
  predicate Extends(t: TypeModel, u: TypeModel)
  {
    u.name == t.name && u.defined == t.defined && u.isInterface == t.isInterface &&
    (t.isStruct ==> u.isStruct) &&
    |t.embeds| <= |u.embeds| && u.embeds[..|t.embeds|] == t.embeds &&
    |t.fields| <= |u.fields| && u.fields[..|t.fields|] == t.fields &&
    |t.methods| <= |u.methods| && u.methods[..|t.methods|] == t.methods
  }

  lemma ExtendsTrans(t: TypeModel, u: TypeModel, w: TypeModel)
    requires Extends(t, u) && Extends(u, w)
    ensures Extends(t, w)
  {
    assert w.embeds[..|t.embeds|] == w.embeds[..|u.embeds|][..|t.embeds|];
    assert w.fields[..|t.fields|] == w.fields[..|u.fields|][..|t.fields|];
    assert w.methods[..|t.methods|] == w.methods[..|u.methods|][..|t.methods|];
  }

  /** Every field the reader builds has a tag, `&Tag{}` when none is
      written, and every key in it is non-empty. */
  lemma FieldTag(f: Ast.Field)
    ensures FieldOf(f).Ok? ==> FieldOf(f).value.tag.Some?
    ensures FieldOf(f).Ok? && f.tag.None? ==> FieldOf(f).value.tag == Some(EmptyTag())
    ensures FieldOf(f).Ok? ==> forall j :: 0 <= j < |FieldOf(f).value.tag.value.values| ==>
      FieldOf(f).value.tag.value.values[j].name != ""
  {
    if FieldOf(f).Ok? && f.tag.Some? {
      var v := Unquote(f.tag.value.value).value;
      PairKeysAreKeys(v);
      assert forall j :: 0 <= j < |Pairs(v)| ==> Pairs(v)[j] in Pairs(v);
    }
  }

  lemma KeysNonEmptyPut(fields: seq<Field>, f: Field)
    requires KeysNonEmpty(fields)
    requires f.tag.Some? ==> forall j :: 0 <= j < |f.tag.value.values| ==> f.tag.value.values[j].name != ""
    ensures KeysNonEmpty(fields + [f])
  {
  }

  /** The struct loop only appends: named fields in order, at most one
      embed, never a method; the fields keep non-empty tag keys. */
  lemma {:induction false} StructSpecShape(list: seq<Ast.Field>, t: TypeModel)
    ensures var r := StructSpec(list, t).0;
      Extends(t, r) && r.isStruct == t.isStruct && r.methods == t.methods &&
      |r.embeds| <= |t.embeds| + 1 &&
      |r.fields| <= |t.fields| + |list| &&
      (KeysNonEmpty(t.fields) ==> KeysNonEmpty(r.fields))
    decreases |list|
  {
    if list != [] && FieldOf(list[0]).Ok? {
      var f := FieldOf(list[0]).value;
      FieldTag(list[0]);
      if f.name == "" {
        assert (t.embeds + [f.typ])[..|t.embeds|] == t.embeds;
      } else {
        var u := t.PutField(f);
        assert u.fields[..|t.fields|] == t.fields;
        if KeysNonEmpty(t.fields) {
          KeysNonEmptyPut(t.fields, f);
        }
        StructSpecShape(list[1..], u);
        ExtendsTrans(t, u, StructSpec(list[1..], u).0);
      }
    }
  }

  /** The fields of the first `k` entries, which are well-formed. */
  function NamedFields(list: seq<Ast.Field>, k: nat): seq<Field>
    requires k <= |list| && forall i :: 0 <= i < k ==> FieldOf(list[i]).Ok?
    decreases k
  {
    if k == 0 then [] else [FieldOf(list[0]).value] + NamedFields(list[1..], k - 1)
  }

  /** How the struct loop ends at position `k` of `list`, with `u` the type
      so far: at the end of the list, with the entry's error, or with the
      entry put as an embed of its rendered type. */
  function StructEnd(list: seq<Ast.Field>, k: nat, u: TypeModel): (TypeModel, Option<Error>)
    requires k <= |list|
  {
    if k == |list| then (u, None)
    else match FieldOf(list[k])
      case Err(e) => (u, Some(e))
      case Ok(_) => (u.PutEmbed(TypeString(list[k].typ)), None)
  }

  /** The struct loop in closed form.  `k` is the position of the first
      entry that is not a well-formed named field (or `|list|`): the `k`
      named fields before it are put in order, and the loop ends there. */
  lemma {:induction false} StructSpecContents(list: seq<Ast.Field>, t: TypeModel, k: nat)
    requires k <= |list|
    requires forall i :: 0 <= i < k ==> FieldOf(list[i]).Ok? && FieldOf(list[i]).value.name != ""
    requires k < |list| ==> FieldOf(list[k]).Err? || FirstName(list[k].names) == ""
    ensures StructSpec(list, t) == StructEnd(list, k, t.(fields := t.fields + NamedFields(list, k)))
    decreases k
  {
    if k == 0 {
      assert t.(fields := t.fields + []) == t;
      if list != [] {
        StructFrontEnds(list, t);
      }
    } else {
      var f := FieldOf(list[0]).value;
      NamedPrefixShift(list, k);
      StructSpecContents(list[1..], t.PutField(f), k - 1);
      StructEndShift(list, k, t.(fields := t.fields + NamedFields(list, k)));
      ConcatAssoc(t.fields, [f], NamedFields(list[1..], k - 1));
    }
  }

  /** Dropping a named front entry keeps the conditions on the rest. */
  lemma NamedPrefixShift(list: seq<Ast.Field>, k: nat)
    requires 0 < k <= |list|
    requires forall i :: 0 <= i < k ==> FieldOf(list[i]).Ok? && FieldOf(list[i]).value.name != ""
    requires k < |list| ==> FieldOf(list[k]).Err? || FirstName(list[k].names) == ""
    ensures forall i :: 0 <= i < k - 1 ==> FieldOf(list[1..][i]).Ok? && FieldOf(list[1..][i]).value.name != ""
    ensures k - 1 < |list| - 1 ==> FieldOf(list[1..][k - 1]).Err? || FirstName(list[1..][k - 1].names) == ""
  {
    assert forall i :: 0 <= i < k - 1 ==> list[1..][i] == list[i + 1];
  }

  lemma StructEndShift(list: seq<Ast.Field>, k: nat, u: TypeModel)
    requires 0 < k <= |list|
    ensures StructEnd(list[1..], k - 1, u) == StructEnd(list, k, u)
  {
    if k < |list| {
      assert list[1..][k - 1] == list[k];
    }
  }

  /** The loop ends at a front entry that is not a well-formed named field. */
  lemma StructFrontEnds(list: seq<Ast.Field>, t: TypeModel)
    requires list != [] && (FieldOf(list[0]).Err? || FirstName(list[0].names) == "")
    ensures StructSpec(list, t) == StructEnd(list, 0, t)
  {
  }

  /** The first embedded field ends the struct: nothing after it is read. */
  lemma {:induction false} EmbedEndsStruct(prefix: seq<Ast.Field>, f: Ast.Field, rest: seq<Ast.Field>, t: TypeModel)
    requires FieldOf(f).Ok? && FieldOf(f).value.name == ""
    ensures StructSpec(prefix + [f] + rest, t) == StructSpec(prefix + [f], t)
    decreases |prefix|
  {
    if prefix == [] {
      assert ([f] + rest)[1..] == rest;
    } else {
      assert (prefix + [f] + rest)[0] == prefix[0] && (prefix + [f])[0] == prefix[0];
      assert (prefix + [f] + rest)[1..] == prefix[1..] + [f] + rest;
      assert (prefix + [f])[1..] == prefix[1..] + [f];
      if FieldOf(prefix[0]).Ok? && FieldOf(prefix[0]).value.name != "" {
        EmbedEndsStruct(prefix[1..], f, rest, t.PutField(FieldOf(prefix[0]).value));
      }
    }
  }

  /** An interface member the loop puts as a method: it is named, its type
      is a function type, and converting it succeeds. */
  predicate MethodOk(f: Ast.Field)
  {
    FirstName(f.names) != "" && f.typ.FuncType? &&
    ParsedFunc(FirstName(f.names), Some(f.typ.sig)).Ok?
  }

  /** The methods of the first `k` members, which are all well-formed. */
  function InterfaceMethods(list: seq<Ast.Field>, k: nat): seq<Func>
    requires k <= |list| && forall i :: 0 <= i < k ==> MethodOk(list[i])
    decreases k
  {
    if k == 0 then []
    else
      assert MethodOk(list[0]);
      assert forall i :: 0 <= i < k - 1 ==> list[1..][i] == list[i + 1];
      [ParsedFunc(FirstName(list[0].names), Some(list[0].typ.sig)).value] + InterfaceMethods(list[1..], k - 1)
  }

  /** What the interface loop returns when it stops at position `k`:
      nothing at the end of the list, otherwise the error of that member
      (an unnamed member, a member that is not a function type, or the
      error of converting it).  A well-formed member does not stop the
      loop and gives nothing. */
  function InterfaceEnd(list: seq<Ast.Field>, k: nat): Option<Error>
    requires k <= |list|
  {
    if k == |list| then None
    else
      var name := FirstName(list[k].names);
      if name == "" then Some(EmbeddedInterface)
      else if !list[k].typ.FuncType? then Some(UnsupportedMethodType)
      else match ParsedFunc(name, Some(list[k].typ.sig))
        case Err(e) => Some(e)
        case Ok(_) => None
  }

  /** The interface loop in closed form.  `k` is the position of the first
      member that is unnamed, not a function type, or fails to convert (or
      `|list|`): the methods of the `k` members before it are put in order,
      and the loop stops there with that member's error. */
  lemma {:induction false} InterfaceSpecContents(list: seq<Ast.Field>, t: TypeModel, k: nat)
    requires k <= |list|
    requires forall i :: 0 <= i < k ==> MethodOk(list[i])
    requires k < |list| ==> !MethodOk(list[k])
    ensures InterfaceSpec(list, t) == (t.(methods := t.methods + InterfaceMethods(list, k)), InterfaceEnd(list, k))
    decreases k
  {
    if k == 0 {
      assert t.(methods := t.methods + []) == t;
    } else {
      var fn := ParsedFunc(FirstName(list[0].names), Some(list[0].typ.sig)).value;
      MethodsPrefixShift(list, k);
      InterfaceSpecContents(list[1..], t.PutMethod(fn), k - 1);
      InterfaceEndShift(list, k);
      ConcatAssoc(t.methods, [fn], InterfaceMethods(list[1..], k - 1));
    }
  }

  /** Dropping a well-formed front member keeps the conditions on the rest. */
  lemma MethodsPrefixShift(list: seq<Ast.Field>, k: nat)
    requires 0 < k <= |list|
    requires forall i :: 0 <= i < k ==> MethodOk(list[i])
    requires k < |list| ==> !MethodOk(list[k])
    ensures forall i :: 0 <= i < k - 1 ==> MethodOk(list[1..][i])
    ensures k - 1 < |list| - 1 ==> !MethodOk(list[1..][k - 1])
  {
    assert forall i :: 0 <= i < k - 1 ==> list[1..][i] == list[i + 1];
  }

  lemma InterfaceEndShift(list: seq<Ast.Field>, k: nat)
    requires 0 < k <= |list|
    ensures InterfaceEnd(list[1..], k - 1) == InterfaceEnd(list, k)
  {
    if k < |list| {
      assert list[1..][k - 1] == list[k];
    }
  }

  /** The interface loop only appends methods. */
  lemma {:induction false} InterfaceSpecShape(list: seq<Ast.Field>, t: TypeModel)
    ensures var r := InterfaceSpec(list, t).0;
      Extends(t, r) && r.isStruct == t.isStruct && r.fields == t.fields && r.embeds == t.embeds &&
      |r.methods| <= |t.methods| + |list|
    decreases |list|
  {
    if list != [] && FirstName(list[0].names) != "" && list[0].typ.FuncType? {
      var pf := ParsedFunc(FirstName(list[0].names), Some(list[0].typ.sig));
      if pf.Ok? {
        var u := t.PutMethod(pf.value);
        assert u.methods[..|t.methods|] == t.methods;
        InterfaceSpecShape(list[1..], u);
        ExtendsTrans(t, u, InterfaceSpec(list[1..], u).0);
      }
    }
  }

  /** `readTypeFields` keeps the type's name, its defined flag and its
      interface flag (which nothing sets), sets the struct flag exactly for
      a struct type, and only appends members. */
  lemma TypeFieldsShape(x: Ast.Expr, t: TypeModel)
    ensures var r := TypeFieldsSpec(x, t).0;
      Extends(t, r) && r.isStruct == (t.isStruct || x.StructType?) &&
      (KeysNonEmpty(t.fields) ==> KeysNonEmpty(r.fields))
  {
    match x
    case StructType(fl) =>
      if fl.Some? {
        StructSpecShape(fl.value.list, t.(isStruct := true));
      }
    case InterfaceType(fl) =>
      if fl.Some? {
        InterfaceSpecShape(fl.value.list, t);
      }
    case _ =>
  }

  /** Replacing a type by one of the same name keeps the names distinct. */
  lemma SetTypeKeepsDistinct(pm: PackageModel, k: nat, t: TypeModel)
    requires pm.TypeNamesDistinct() && k < |pm.types| && t.name == pm.types[k].name
    ensures pm.SetType(k, t).TypeNamesDistinct()
  {
  }

  /** `readType` never adds a second type of a name: it marks the one
      `assureType` hands out as defined, changes no other type and nothing
      outside the types. */
  lemma ReadTypeShape(pm: PackageModel, name: string, x: Ast.Expr)
    ensures var (r, _) := ReadTypeSpec(pm, name, x);
      var (pm1, k) := pm.AssureType(name);
      r.name == pm.name && r.imports == pm.imports && r.values == pm.values && r.funcs == pm.funcs &&
      |r.types| == |pm1.types| && r.types[k].name == name && r.types[k].defined &&
      Extends(pm1.types[k].(defined := true), r.types[k]) &&
      (forall i :: 0 <= i < |r.types| && i != k ==> r.types[i] == pm1.types[i]) &&
      (pm.TypeNamesDistinct() ==> r.TypeNamesDistinct())
  {
    var (pm1, k) := pm.AssureType(name);
    TypeFieldsShape(x, pm1.types[k].(defined := true));
    if pm.TypeNamesDistinct() {
      AssureTypeKeepsDistinct(pm, name);
      SetTypeKeepsDistinct(pm1, k, TypeFieldsSpec(x, pm1.types[k].(defined := true)).0);
    }
  }

  /** `readFunc` rejects an empty or imported receiver, and a panic, before
      anything changes; a plain function is put as is; a method never adds
      a second type of a name. */
  lemma ReadFuncShape(pm: PackageModel, recv: Option<Ast.FieldList>, name: string,
                      funcType: Option<Ast.Signature>)
    ensures var (r, err) := ReadFuncSpec(pm, recv, name, funcType);
      (err.Some? ==> r == pm) &&
      (err == Some(NoReceivers) <==> ParsedFunc(name, funcType).Ok? && recv.Some? && recv.value.list == []) &&
      (err == Some(ImportedReceiver) <==>
         ParsedFunc(name, funcType).Ok? && recv.Some? && recv.value.list != [] &&
         BaseTypeName(recv.value.list[0].typ).1) &&
      (recv.None? && err.None? ==> r == pm.PutFunc(ParsedFunc(name, funcType).value)) &&
      r.name == pm.name && r.imports == pm.imports && r.values == pm.values &&
      (pm.TypeNamesDistinct() ==> r.TypeNamesDistinct())
  {
    var pf := ParsedFunc(name, funcType);
    ParsedFuncShape(name, funcType);
    if pf.Ok? && recv.Some? && |recv.value.list| > 0 && !BaseTypeName(recv.value.list[0].typ).1 {
      var (pm1, k) := pm.AssureType(BaseTypeName(recv.value.list[0].typ).0);
      if pm.TypeNamesDistinct() {
        AssureTypeKeepsDistinct(pm, BaseTypeName(recv.value.list[0].typ).0);
        SetTypeKeepsDistinct(pm1, k, pm1.types[k].PutMethod(pf.value));
      }
    }
  }

  /** A method read before its type's declaration creates an undefined
      placeholder that carries the method; the declaration then fills in
      that same entry instead of adding a second one. */
  lemma MethodBeforeType(pm: PackageModel, recvName: string, f: Func, x: Ast.Expr)
    requires recvName !in TypeModelKeys(pm.types)
    ensures var recv := Some(Ast.FieldList([Ast.Field(["r"], Ast.StarExpr(Ast.Ident(recvName)), None)]));
      var (pm1, err1) := ReadFuncSpec(pm, recv, f.name, None);
      err1.None? && pm1.types == pm.types + [Placeholder(recvName).(methods := [Func(f.name, [], [])])] &&
      var (pm2, _) := ReadTypeSpec(pm1, recvName, x);
      |pm2.types| == |pm.types| + 1 && pm2.types[|pm.types|].defined &&
      |pm2.types[|pm.types|].methods| >= 1 && pm2.types[|pm.types|].methods[0] == Func(f.name, [], [])
  {
    var ks := TypeModelKeys(pm.types);
    var fn := Func(f.name, [], []);
    var recv := Some(Ast.FieldList([Ast.Field(["r"], Ast.StarExpr(Ast.Ident(recvName)), None)]));
    assert BaseTypeName(recv.value.list[0].typ) == (recvName, false);
    assert ParsedFunc(f.name, None) == Ok(fn);
    AssureTypeCases(pm, recvName);
    var pm1 := pm.AssureType(recvName).0.SetType(|pm.types|, Placeholder(recvName).PutMethod(fn));
    assert ReadFuncSpec(pm, recv, f.name, None) == (pm1, None);
    assert TypeModelKeys(pm1.types) == ks + [recvName];
    LookupPut(ks, recvName, recvName);
    assert pm1.AssureType(recvName) == (pm1, |pm.types|);
    assert [] + [fn] == [fn];
    assert pm1.types == pm.types + [Placeholder(recvName).(methods := [fn])];
    ReadTypeShape(pm1, recvName, x);
    var r := ReadTypeSpec(pm1, recvName, x).0;
    assert r.types[|pm.types|].methods[..1] == [fn];
    assert r.types[|pm.types|].methods[0] == r.types[|pm.types|].methods[..1][0];
  }

  /** The single-spec shortcut of the TYPE branch does what the general
      loop does. */
  lemma TypeShortcutIsLoop(pm: PackageModel, lparen: bool, specs: seq<Ast.Spec>)
    ensures TypeDeclSpec(pm, lparen, specs) == TypesSpec(pm, specs)
  {
    if |specs| == 1 {
      assert specs[1..] == [];
    }
  }

  /** The names of the value specs among `specs`, in order. */
  function SpecNames(specs: seq<Ast.Spec>): seq<string>
    decreases |specs|
  {
    if specs == [] then []
    else (if specs[0].ValueSpec? then specs[0].names else []) + SpecNames(specs[1..])
  }

  /** One `putValue` per name, in order, all with the same type name and
      constness. */
  lemma {:induction false} PutValuesShape(pm: PackageModel, names: seq<string>, typeName: string, isConst: bool)
    ensures PutValues(pm, names, typeName, isConst) ==
      pm.(values := pm.values + seq(|names|, i requires 0 <= i < |names| => Value(names[i], typeName, isConst)))
    decreases |names|
  {
    if names != [] {
      var pm1 := pm.PutValue(Value(names[0], typeName, isConst));
      PutValuesShape(pm1, names[1..], typeName, isConst);
      var tail := seq(|names| - 1, i requires 0 <= i < |names| - 1 => Value(names[1..][i], typeName, isConst));
      var all := seq(|names|, i requires 0 <= i < |names| => Value(names[i], typeName, isConst));
      assert all == [Value(names[0], typeName, isConst)] + tail;
      ConcatAssoc(pm.values, [Value(names[0], typeName, isConst)], tail);
    }
  }

  /** `r` is `pm` with values appended and nothing else changed; the new
      values carry the names `keys` in order, all have the empty type name,
      and only a const declaration makes constants. */
  ghost predicate ValuesAdded(pm: PackageModel, r: PackageModel, tok: Ast.Token, keys: seq<string>)
  {
    r == pm.(values := r.values) &&
    |pm.values| <= |r.values| && r.values[..|pm.values|] == pm.values &&
    ValueKeys(r.values[|pm.values|..]) == keys &&
    forall i :: |pm.values| <= i < |r.values| ==> r.values[i].typ == "" && (r.values[i].isConst ==> tok == Ast.CONST)
  }

  lemma ValuesAddedTrans(pm: PackageModel, pm1: PackageModel, r: PackageModel, tok: Ast.Token,
                         k1: seq<string>, k2: seq<string>)
    requires ValuesAdded(pm, pm1, tok, k1) && ValuesAdded(pm1, r, tok, k2)
    ensures ValuesAdded(pm, r, tok, k1 + k2)
  {
    assert r.values[..|pm.values|] == r.values[..|pm1.values|][..|pm.values|];
    assert r.values[|pm.values|..] == pm1.values[|pm.values|..] + r.values[|pm1.values|..];
    ValueKeysAppend(pm1.values[|pm.values|..], r.values[|pm1.values|..]);
  }

  /** One value spec of `readValue`. */
  lemma ValueSpecAdded(pm: PackageModel, tok: Ast.Token, s: Ast.Spec)
    requires s.ValueSpec?
    ensures ValuesAdded(pm, PutValues(pm, s.names, ValueKind(tok, s.valueType).0, ValueKind(tok, s.valueType).1), tok, s.names)
  {
    var (tn, c) := ValueKind(tok, s.valueType);
    PutValuesShape(pm, s.names, tn, c);
    var r := PutValues(pm, s.names, tn, c);
    assert r.values[..|pm.values|] == pm.values;
    assert ValueKeys(r.values[|pm.values|..]) == s.names;
  }

  /** `readValue` as written: only values are put, one per name in
      spec-then-name order; every one has the empty type name and is a
      constant only in a const declaration. */
  lemma {:induction false} ValuesSpecShape(pm: PackageModel, tok: Ast.Token, specs: seq<Ast.Spec>)
    ensures ValuesAdded(pm, ValuesSpec(pm, tok, specs), tok, SpecNames(specs))
    decreases |specs|
  {
    if specs == [] {
      assert ValuesSpec(pm, tok, specs).values[|pm.values|..] == [];
    } else {
      var r := ValuesSpec(pm, tok, specs);
      if specs[0].ValueSpec? {
        var (tn, c) := ValueKind(tok, specs[0].valueType);
        var pm1 := PutValues(pm, specs[0].names, tn, c);
        ValueSpecAdded(pm, tok, specs[0]);
        ValuesSpecShape(pm1, tok, specs[1..]);
        ValuesAddedTrans(pm, pm1, r, tok, specs[0].names, SpecNames(specs[1..]));
      } else {
        ValuesSpecShape(pm, tok, specs[1..]);
        assert SpecNames(specs) == [] + SpecNames(specs[1..]);
      }
    }
  }

  /** The values a list of specs declares, stated directly: for each value
      spec in order, one value per name, with the empty type name, constant
      exactly when the declaration is `const` and the spec writes a type. */
  function SpecValues(tok: Ast.Token, specs: seq<Ast.Spec>): seq<Value>
    decreases |specs|
  {
    if specs == [] then [] else ValuesOfSpec(tok, specs[0]) + SpecValues(tok, specs[1..])
  }

  /** The values one spec declares; none for a spec that is not a value spec. */
  function ValuesOfSpec(tok: Ast.Token, s: Ast.Spec): seq<Value>
  {
    if s.ValueSpec?
    then seq(|s.names|, i requires 0 <= i < |s.names| =>
           Value(s.names[i], "", tok == Ast.CONST && s.valueType.Some?))
    else []
  }

  /** `readValue` as written appends exactly `SpecValues` and changes
      nothing else: a value is constant if and only if it comes from a
      const spec with an explicit type, and no value gets a type name. */
  lemma {:induction false} ValuesSpecContents(pm: PackageModel, tok: Ast.Token, specs: seq<Ast.Spec>)
    ensures ValuesSpec(pm, tok, specs) == pm.(values := pm.values + SpecValues(tok, specs))
    decreases |specs|
  {
    if specs == [] {
      assert pm.values + [] == pm.values;
    } else if specs[0].ValueSpec? {
      var pm1 := pm.(values := pm.values + ValuesOfSpec(tok, specs[0]));
      OneValueSpec(pm, tok, specs[0]);
      ValuesSpecContents(pm1, tok, specs[1..]);
      ConcatAssoc(pm.values, ValuesOfSpec(tok, specs[0]), SpecValues(tok, specs[1..]));
    } else {
      ValuesSpecContents(pm, tok, specs[1..]);
      assert SpecValues(tok, specs) == [] + SpecValues(tok, specs[1..]);
    }
  }

  /** The names of one value spec are put as `ValuesOfSpec` says. */
  lemma OneValueSpec(pm: PackageModel, tok: Ast.Token, s: Ast.Spec)
    requires s.ValueSpec?
    ensures PutValues(pm, s.names, ValueKind(tok, s.valueType).0, ValueKind(tok, s.valueType).1) ==
      pm.(values := pm.values + ValuesOfSpec(tok, s))
  {
    var (tn, c) := ValueKind(tok, s.valueType);
    assert tn == "" && c == (tok == Ast.CONST && s.valueType.Some?);
    PutValuesShape(pm, s.names, tn, c);
  }

  /** `u` is `t` later in the read: the same name, members appended, and
      flags only ever set. */
  predicate Grows(t: TypeModel, u: TypeModel)
  {
    u.name == t.name && (t.defined ==> u.defined) && (t.isStruct ==> u.isStruct) &&
    u.isInterface == t.isInterface &&
    |t.embeds| <= |u.embeds| && u.embeds[..|t.embeds|] == t.embeds &&
    |t.fields| <= |u.fields| && u.fields[..|t.fields|] == t.fields &&
    |t.methods| <= |u.methods| && u.methods[..|t.methods|] == t.methods
  }

  /** `r` is `pm` later in the read: the same name, everything put so far
      still there in the same place, and every type only grown. */
  predicate PackageGrows(pm: PackageModel, r: PackageModel)
  {
    r.name == pm.name &&
    |pm.imports| <= |r.imports| && r.imports[..|pm.imports|] == pm.imports &&
    |pm.values| <= |r.values| && r.values[..|pm.values|] == pm.values &&
    |pm.funcs| <= |r.funcs| && r.funcs[..|pm.funcs|] == pm.funcs &&
    |pm.types| <= |r.types| &&
    forall i :: 0 <= i < |pm.types| ==> Grows(pm.types[i], r.types[i])
  }

  lemma GrowsTrans(t: TypeModel, u: TypeModel, w: TypeModel)
    requires Grows(t, u) && Grows(u, w)
    ensures Grows(t, w)
  {
    assert w.embeds[..|t.embeds|] == w.embeds[..|u.embeds|][..|t.embeds|];
    assert w.fields[..|t.fields|] == w.fields[..|u.fields|][..|t.fields|];
    assert w.methods[..|t.methods|] == w.methods[..|u.methods|][..|t.methods|];
  }

  lemma PackageGrowsTrans(pm: PackageModel, r: PackageModel, w: PackageModel)
    requires PackageGrows(pm, r) && PackageGrows(r, w)
    ensures PackageGrows(pm, w)
  {
    assert w.imports[..|pm.imports|] == w.imports[..|r.imports|][..|pm.imports|];
    assert w.values[..|pm.values|] == w.values[..|r.values|][..|pm.values|];
    assert w.funcs[..|pm.funcs|] == w.funcs[..|r.funcs|][..|pm.funcs|];
    forall i | 0 <= i < |pm.types| ensures Grows(pm.types[i], w.types[i]) {
      GrowsTrans(pm.types[i], r.types[i], w.types[i]);
    }
  }

  lemma GrowsRefl(pm: PackageModel)
    ensures PackageGrows(pm, pm)
  {
    assert pm.imports[..|pm.imports|] == pm.imports;
    assert pm.values[..|pm.values|] == pm.values;
    assert pm.funcs[..|pm.funcs|] == pm.funcs;
    forall i | 0 <= i < |pm.types| ensures Grows(pm.types[i], pm.types[i]) {
      var t := pm.types[i];
      assert t.embeds[..|t.embeds|] == t.embeds;
      assert t.fields[..|t.fields|] == t.fields;
      assert t.methods[..|t.methods|] == t.methods;
    }
  }

  /** `assureType` followed by an update of the type it hands out that
      only grows it. */
  lemma AssureThenGrow(pm: PackageModel, n: string, t: TypeModel)
    requires Grows(pm.AssureType(n).0.types[pm.AssureType(n).1], t)
    ensures PackageGrows(pm, pm.AssureType(n).0.SetType(pm.AssureType(n).1, t))
  {
    var (pm1, k) := pm.AssureType(n);
    AssureTypeCases(pm, n);
    GrowsRefl(pm);
    forall i | 0 <= i < |pm.types| ensures Grows(pm.types[i], pm1.SetType(k, t).types[i]) {
      if i == k {
        assert pm.types[i] == pm1.types[k];
      }
    }
  }

  /** Extends with the defined flag set is growth. */
  lemma ExtendsGrows(t: TypeModel, u: TypeModel)
    requires Extends(t.(defined := true), u)
    ensures Grows(t, u)
  {
  }

  /** Imports only append imports. */
  lemma {:induction false} ImportsSpecShape(pm: PackageModel, specs: seq<Ast.Spec>)
    ensures var r := ImportsSpec(pm, specs).0;
      r == pm.(imports := r.imports) && PackageGrows(pm, r)
    decreases |specs|
  {
    GrowsRefl(pm);
    if specs != [] {
      var pm1 := pm;
      if specs[0].ImportSpec? {
        pm1 := ReadImportSpec(pm, specs[0].alias, specs[0].path).0;
        assert pm1 == pm || pm1.imports[..|pm.imports|] == pm.imports;
        assert PackageGrows(pm, pm1);
      }
      ImportsSpecShape(pm1, specs[1..]);
      if ImportsSpec(pm, specs).0 != pm1 {
        PackageGrowsTrans(pm, pm1, ImportsSpec(pm1, specs[1..]).0);
      }
    }
  }

  /** The TYPE loop keeps everything outside the types and the type names
      distinct, and only grows the types. */
  lemma {:induction false} TypesSpecShape(pm: PackageModel, specs: seq<Ast.Spec>)
    ensures var r := TypesSpec(pm, specs).0;
      PackageGrows(pm, r) && r.imports == pm.imports && r.values == pm.values && r.funcs == pm.funcs &&
      (pm.TypeNamesDistinct() ==> r.TypeNamesDistinct())
    decreases |specs|
  {
    GrowsRefl(pm);
    if specs != [] {
      var pm1 := pm;
      if specs[0].TypeSpec? {
        var (pa, k) := pm.AssureType(specs[0].name);
        ReadTypeShape(pm, specs[0].name, specs[0].typ);
        pm1 := ReadTypeSpec(pm, specs[0].name, specs[0].typ).0;
        ExtendsGrows(pa.types[k], pm1.types[k]);
        AssureThenGrow(pm, specs[0].name, pm1.types[k]);
        assert pm1 == pa.SetType(k, pm1.types[k]);
      }
      TypesSpecShape(pm1, specs[1..]);
      if TypesSpec(pm, specs).0 != pm1 {
        PackageGrowsTrans(pm, pm1, TypesSpec(pm1, specs[1..]).0);
      }
    }
  }

  /** Values only append values. */
  lemma ValuesGrow(pm: PackageModel, tok: Ast.Token, specs: seq<Ast.Spec>)
    ensures PackageGrows(pm, ValuesSpec(pm, tok, specs)) && ValuesSpec(pm, tok, specs).types == pm.types
  {
    ValuesSpecShape(pm, tok, specs);
    GrowsRefl(pm);
  }

  /** `readFunc` only grows the package and keeps the type names distinct. */
  lemma ReadFuncGrows(pm: PackageModel, recv: Option<Ast.FieldList>, name: string,
                      funcType: Option<Ast.Signature>)
    ensures PackageGrows(pm, ReadFuncSpec(pm, recv, name, funcType).0)
    ensures pm.TypeNamesDistinct() ==> ReadFuncSpec(pm, recv, name, funcType).0.TypeNamesDistinct()
  {
    ReadFuncShape(pm, recv, name, funcType);
    GrowsRefl(pm);
    var pf := ParsedFunc(name, funcType);
    if pf.Ok? && recv.Some? && |recv.value.list| > 0 && !BaseTypeName(recv.value.list[0].typ).1 {
      var n := BaseTypeName(recv.value.list[0].typ).0;
      var (pm1, k) := pm.AssureType(n);
      var t := pm1.types[k];
      assert t.PutMethod(pf.value).methods[..|t.methods|] == t.methods;
      AssureThenGrow(pm, n, t.PutMethod(pf.value));
    } else if pf.Ok? && recv.None? {
      assert pm.PutFunc(pf.value).funcs[..|pm.funcs|] == pm.funcs;
    }
  }

  /** Every declaration only grows the package and keeps the type names
      distinct. */
  lemma DeclGrows(pm: PackageModel, d: Ast.Decl)
    ensures PackageGrows(pm, DeclSpec(pm, d).0)
    ensures pm.TypeNamesDistinct() ==> DeclSpec(pm, d).0.TypeNamesDistinct()
  {
    GrowsRefl(pm);
    match d
    case GenDecl(tok, lparen, specs) =>
      match tok {
        case IMPORT => ImportsSpecShape(pm, specs);
        case CONST => ValuesGrow(pm, tok, specs);
        case VAR => ValuesGrow(pm, tok, specs);
        case TYPE =>
          TypeShortcutIsLoop(pm, lparen, specs);
          TypesSpecShape(pm, specs);
      }
    case FuncDecl(recv, name, typ) => ReadFuncGrows(pm, recv, name, typ);
    case OtherDecl =>
  }

  /** The declarations of a file only grow the package: whatever was put
      before an error stays, and the type names stay distinct. */
  lemma {:induction false} DeclsGrow(pm: PackageModel, decls: seq<Ast.Decl>)
    ensures PackageGrows(pm, DeclsSpec(pm, decls).0)
    ensures pm.TypeNamesDistinct() ==> DeclsSpec(pm, decls).0.TypeNamesDistinct()
    decreases |decls|
  {
    GrowsRefl(pm);
    if decls != [] {
      DeclGrows(pm, decls[0]);
      var (pm1, err) := DeclSpec(pm, decls[0]);
      if err.None? {
        DeclsGrow(pm1, decls[1..]);
        PackageGrowsTrans(pm, pm1, DeclsSpec(pm1, decls[1..]).0);
      }
    }
  }

  /** Reading `a` then `b` is reading `a + b`: the second part is read only
      when the first gave no error. */
  lemma {:induction false} DeclsAppend(pm: PackageModel, a: seq<Ast.Decl>, b: seq<Ast.Decl>)
    ensures DeclsSpec(pm, a + b) ==
      var (pm1, err) := DeclsSpec(pm, a);
      if err.Some? then (pm1, err) else DeclsSpec(pm1, b)
    decreases |a|
  {
    if a == [] {
      assert a + b == b;
    } else {
      assert (a + b)[0] == a[0] && (a + b)[1..] == a[1..] + b;
      var (pm1, err) := DeclSpec(pm, a[0]);
      if err.None? {
        DeclsAppend(pm1, a[1..], b);
      }
    }
  }

  /** `ReadFile` gives a package named after the file.  It appends to the
      current package when that has the file's name and starts from an
      empty one otherwise; the type names stay distinct. */
  lemma ReadFileShape(current: Option<PackageModel>, file: Ast.File)
    ensures var (r, _) := ReadFileSpec(current, file);
      r.name == file.name &&
      (current.Some? && current.value.name == file.name ==> PackageGrows(current.value, r)) &&
      (current.None? || current.value.name != file.name ==> PackageGrows(EmptyPackage(file.name), r)) &&
      (current.None? || current.value.TypeNamesDistinct() ==> r.TypeNamesDistinct())
  {
    DeclsGrow(StartPackage(current, file), file.decls);
  }
}
