/** parser.go: the reader that walks a file's declarations and puts what
    it finds into the current `Package`.  Every method is proved to do to
    the package what the matching function of `ParserModel` states. */
module Parser {
  import opened Wrappers
  import opened Strconv
  import opened Tags
  import opened Srcdom
  import opened Astop
  import opened ParserModel
  import Ast

  class Parser {
    /** The package being built; nil until the first file is read. */
    var pkg: Package?

    /** `&Parser{}`. */
    constructor ()
      ensures pkg == null
    {
      pkg := null;
    }

    /** `toTag`: an absent tag is `&Tag{}`, a string literal is unquoted and
        parsed, any other literal is an error. */
    method ToTag(x: Option<Ast.BasicLit>) returns (r: Result<Tag, Error>)
      ensures r == TagOf(x)
    {
      if x.None? {
        return Ok(EmptyTag());
      }
      if x.value.kind != Ast.STRING {
        return Err(TagTokenError);
      }
      var v := Unquote(x.value.value);
      if v.None? {
        return Err(TagUnquoteError);
      }
      var tag := ParseTag(v.value);
      return Ok(tag);
    }

    /** `toField`. */
    method ToField(f: Ast.Field) returns (r: Result<Field, Error>)
      ensures r == FieldOf(f)
    {
      var tag := ToTag(f.tag);
      if tag.Err? {
        return Err(tag.error);
      }
      if !Renderable(f.typ) {
        return Err(Panic);
      }
      return Ok(Field(FirstName(f.names), TypeString(f.typ), Some(tag.value)));
    }

    /** `Parser.toVarArray`: one `toVar` per field, in order. */
    method ToVarArray(fl: Option<Ast.FieldList>) returns (r: Result<seq<Var>, Error>)
      ensures r == VarsOf(fl)
    {
      if fl.None? || |fl.value.list| == 0 {
        return Ok([]);
      }
      var list := fl.value.list;
      var vars: seq<Var> := [];
      var i := 0;
      while i < |list|
        invariant i <= |list|
        invariant VarsAfter(vars, list[i..]) == VarsOf(fl)
      {
        assert list[i..][0] == list[i] && list[i..][1..] == list[i + 1..];
        var v := VarOf(list[i]);
        if v.Err? {
          return Err(v.error);
        }
        vars := vars + [v.value];
        i := i + 1;
      }
      assert list[i..] == [];
      return Ok(vars);
    }

    /** `Parser.toFunc`. */
    method ToFunc(name: string, funcType: Option<Ast.Signature>) returns (r: Result<Func, Error>)
      ensures r == ParsedFunc(name, funcType)
    {
      if funcType.None? {
        return Ok(Func(name, [], []));
      }
      var params := ToVarArray(funcType.value.params);
      if params.Err? {
        return Err(params.error);
      }
      var results := ToVarArray(funcType.value.results);
      if results.Err? {
        return Err(results.error);
      }
      return Ok(Func(name, params.value, results.value));
    }

    /** `readImport`. */
    method ReadImport(alias: Option<string>, path: Ast.BasicLit) returns (err: Option<Error>)
      requires pkg != null && pkg.Valid()
      modifies pkg
      ensures pkg.Valid() && pkg.types == old(pkg.types)
      ensures (pkg.Model(), err) == ReadImportSpec(old(pkg.Model()), alias, path)
    {
      var p := Unquote(path.value);
      if p.None? {
        return Some(ImportPathError);
      }
      var name := "";
      if alias.Some? {
        name := alias.value;
      }
      pkg.PutImport(Import(name, p.value));
      return None;
    }

    /** The IMPORT branch of `ReadFile`. */
    method ReadImports(specs: seq<Ast.Spec>) returns (err: Option<Error>)
      requires pkg != null && pkg.Valid()
      modifies pkg
      ensures pkg.Valid() && pkg.types == old(pkg.types)
      ensures (pkg.Model(), err) == ImportsSpec(old(pkg.Model()), specs)
    {
      var i := 0;
      while i < |specs|
        invariant i <= |specs|
        invariant pkg.Valid() && pkg.types == old(pkg.types)
        invariant ImportsSpec(pkg.Model(), specs[i..]) == ImportsSpec(old(pkg.Model()), specs)
      {
        assert specs[i..][0] == specs[i] && specs[i..][1..] == specs[i + 1..];
        var s := specs[i];
        if s.ImportSpec? {
          err := ReadImport(s.alias, s.path);
          if err.Some? {
            return;
          }
        }
        i := i + 1;
      }
      return None;
    }

    /** `readValue`; it never fails. */
    method ReadValue(tok: Ast.Token, specs: seq<Ast.Spec>)
      requires pkg != null && pkg.Valid()
      modifies pkg
      ensures pkg.Valid() && pkg.types == old(pkg.types)
      ensures pkg.Model() == ValuesSpec(old(pkg.Model()), tok, specs)
    {
      var prev := "";
      var i := 0;
      while i < |specs|
        invariant i <= |specs|
        invariant pkg.Valid() && pkg.types == old(pkg.types)
        invariant ValuesSpec(pkg.Model(), tok, specs[i..]) == ValuesSpec(old(pkg.Model()), tok, specs)
      {
        assert specs[i..][0] == specs[i] && specs[i..][1..] == specs[i + 1..];
        var s := specs[i];
        if s.ValueSpec? {
          // baseTypeName(nil) is ("", false), so a spec without a type
          // keeps the empty type name.
          var typeName := "";
          var isConst := false;
          if s.valueType.Some? && tok == Ast.CONST {
            typeName := prev;
            isConst := true;
          }
          assert (typeName, isConst) == ValueKind(tok, s.valueType);
          PutNames(s.names, typeName, isConst);
        }
        i := i + 1;
      }
    }

    /** The inner loop of `readValue`: one `putValue` per name. */
    method PutNames(names: seq<string>, typeName: string, isConst: bool)
      requires pkg != null && pkg.Valid()
      modifies pkg
      ensures pkg.Valid() && pkg.types == old(pkg.types)
      ensures pkg.Model() == PutValues(old(pkg.Model()), names, typeName, isConst)
    {
      var j := 0;
      while j < |names|
        invariant j <= |names|
        invariant pkg.Valid() && pkg.types == old(pkg.types)
        invariant PutValues(pkg.Model(), names[j..], typeName, isConst) == PutValues(old(pkg.Model()), names, typeName, isConst)
      {
        assert names[j..][0] == names[j] && names[j..][1..] == names[j + 1..];
        pkg.PutValue(Value(names[j], typeName, isConst));
        j := j + 1;
      }
      assert names[j..] == [];
    }

    /** `readTypeFields`: fills in `typ` from a struct or interface type. */
    method ReadTypeFields(x: Ast.Expr, typ: Type) returns (err: Option<Error>)
      requires typ.Valid()
      modifies typ
      ensures typ.Valid()
      ensures (typ.Model(), err) == TypeFieldsSpec(x, old(typ.Model()))
    {
      match x
      case StructType(fl) =>
        typ.isStruct := true;
        if fl.None? || |fl.value.list| == 0 {
          return None;
        }
        var list := fl.value.list;
        ghost var start := typ.Model();
        var i := 0;
        while i < |list|
          invariant i <= |list| && typ.Valid()
          invariant StructSpec(list[i..], typ.Model()) == StructSpec(list, start)
        {
          assert list[i..][0] == list[i] && list[i..][1..] == list[i + 1..];
          var f := ToField(list[i]);
          if f.Err? {
            return Some(f.error);
          }
          if f.value.name == "" {
            // the `break` leaves the loop, and the method returns nil
            typ.PutEmbed(f.value.typ);
            return None;
          }
          typ.PutField(f.value);
          i := i + 1;
        }
        assert list[i..] == [];
        return None;
      case InterfaceType(fl) =>
        if fl.None? || |fl.value.list| == 0 {
          return None;
        }
        var list := fl.value.list;
        ghost var start := typ.Model();
        var i := 0;
        while i < |list|
          invariant i <= |list| && typ.Valid()
          invariant InterfaceSpec(list[i..], typ.Model()) == InterfaceSpec(list, start)
        {
          assert list[i..][0] == list[i] && list[i..][1..] == list[i + 1..];
          var m := list[i];
          var name := FirstName(m.names);
          if name == "" {
            return Some(EmbeddedInterface);
          }
          if !m.typ.FuncType? {
            return Some(UnsupportedMethodType);
          }
          var f := ToFunc(name, Some(m.typ.sig));
          if f.Err? {
            return Some(f.error);
          }
          typ.PutMethod(f.value);
          i := i + 1;
        }
        assert list[i..] == [];
        return None;
      case _ =>
        return None;
    }

    /** `readType`. */
    method ReadType(name: string, x: Ast.Expr) returns (err: Option<Error>)
      requires pkg != null && pkg.Valid()
      modifies pkg, pkg.types
      ensures pkg.Valid()
      ensures (pkg.Model(), err) == ReadTypeSpec(old(pkg.Model()), name, x)
      ensures old(pkg.types) <= pkg.types && forall i :: |old(pkg.types)| <= i < |pkg.types| ==> fresh(pkg.types[i])
    {
      ghost var spec := pkg.Model().AssureType(name);
      var typ := pkg.AssureType(name);
      assert pkg.Model() == spec.0;
      err := DefineType(typ, spec.1, x);
    }

    /** The rest of `readType` once `assureType` has handed out `typ`, the
        type at position `k`: it is marked defined and its fields are read,
        which changes that one type of the package and nothing else. */
    method DefineType(typ: Type, ghost k: nat, x: Ast.Expr) returns (err: Option<Error>)
      requires pkg != null && pkg.Valid() && k < |pkg.types| && typ == pkg.types[k]
      modifies typ
      ensures pkg.Valid() && pkg.types == old(pkg.types)
      ensures (pkg.Model(), err) ==
        (old(pkg.Model()).SetType(k, TypeFieldsSpec(x, old(pkg.Model()).types[k].(defined := true)).0),
         TypeFieldsSpec(x, old(pkg.Model()).types[k].(defined := true)).1)
    {
      typ.defined := true;
      err := ReadTypeFields(x, typ);
      forall i | 0 <= i < |pkg.types| && i != k
        ensures pkg.types[i].Valid() && pkg.types[i].Model() == old(pkg.Model()).types[i]
      {
        DistinctAt(pkg.types, i, k);
      }
      TypeReplaced(pkg, k, old(pkg.Model()));
    }

    /** The loop of the TYPE branch of `ReadFile`. */
    method ReadTypes(specs: seq<Ast.Spec>) returns (err: Option<Error>)
      requires pkg != null && pkg.Valid()
      modifies pkg, pkg.types
      ensures pkg.Valid()
      ensures (pkg.Model(), err) == TypesSpec(old(pkg.Model()), specs)
      ensures old(pkg.types) <= pkg.types && forall i :: |old(pkg.types)| <= i < |pkg.types| ==> fresh(pkg.types[i])
    {
      err := None;
      var i := 0;
      while i < |specs| && err.None?
        invariant i <= |specs|
        invariant pkg.Valid()
        invariant old(pkg.types) <= pkg.types && forall j :: |old(pkg.types)| <= j < |pkg.types| ==> fresh(pkg.types[j])
        invariant err.None? ==> TypesSpec(pkg.Model(), specs[i..]) == TypesSpec(old(pkg.Model()), specs)
        invariant err.Some? ==> (pkg.Model(), err) == TypesSpec(old(pkg.Model()), specs)
      {
        assert specs[i..][0] == specs[i] && specs[i..][1..] == specs[i + 1..];
        err := ReadSpec(specs[i]);
        i := i + 1;
      }
    }

    /** The TYPE branch of `ReadFile`'s loop, with its shortcut for a single
        unparenthesized spec. */
    method ReadTypeDecl(lparen: bool, specs: seq<Ast.Spec>) returns (err: Option<Error>)
      requires pkg != null && pkg.Valid()
      modifies pkg, pkg.types
      ensures pkg.Valid()
      ensures (pkg.Model(), err) == TypeDeclSpec(old(pkg.Model()), lparen, specs)
      ensures old(pkg.types) <= pkg.types && forall i :: |old(pkg.types)| <= i < |pkg.types| ==> fresh(pkg.types[i])
    {
      if |specs| == 1 && !lparen {
        err := ReadSpec(specs[0]);
      } else {
        err := ReadTypes(specs);
      }
    }

    /** One spec of the TYPE branch's loop. */
    method ReadSpec(s: Ast.Spec) returns (err: Option<Error>)
      requires pkg != null && pkg.Valid()
      modifies pkg, pkg.types
      ensures pkg.Valid()
      ensures (pkg.Model(), err) == TypeSpecStep(old(pkg.Model()), s)
      ensures old(pkg.types) <= pkg.types && forall i :: |old(pkg.types)| <= i < |pkg.types| ==> fresh(pkg.types[i])
    {
      err := None;
      if s.TypeSpec? {
        err := ReadType(s.name, s.typ);
      }
    }

    /** `readFunc`. */
    method ReadFunc(recv: Option<Ast.FieldList>, name: string, funcType: Option<Ast.Signature>)
      returns (err: Option<Error>)
      requires pkg != null && pkg.Valid()
      modifies pkg, pkg.types
      ensures pkg.Valid()
      ensures (pkg.Model(), err) == ReadFuncSpec(old(pkg.Model()), recv, name, funcType)
      ensures old(pkg.types) <= pkg.types && forall i :: |old(pkg.types)| <= i < |pkg.types| ==> fresh(pkg.types[i])
    {
      var f := ToFunc(name, funcType);
      if f.Err? {
        return Some(f.error);
      }
      if recv.Some? {
        if |recv.value.list| == 0 {
          return Some(NoReceivers);
        }
        var (recvTypeName, imp) := BaseTypeName(recv.value.list[0].typ);
        if imp {
          return Some(ImportedReceiver);
        }
        PutMethodOn(recvTypeName, f.value);
        return None;
      }
      pkg.PutFunc(f.value);
      return None;
    }

    /** `assureType(n).putMethod(fn)`, the receiver branch of `readFunc`. */
    method PutMethodOn(n: string, fn: Func)
      requires pkg != null && pkg.Valid()
      modifies pkg, pkg.types
      ensures pkg.Valid()
      ensures pkg.Model() == old(pkg.Model()).AssureType(n).0.SetType(
        old(pkg.Model()).AssureType(n).1,
        old(pkg.Model()).AssureType(n).0.types[old(pkg.Model()).AssureType(n).1].PutMethod(fn))
      ensures old(pkg.types) <= pkg.types && forall i :: |old(pkg.types)| <= i < |pkg.types| ==> fresh(pkg.types[i])
    {
      ghost var spec := pkg.Model().AssureType(n);
      var typ := pkg.AssureType(n);
      PutMethodAt(typ, spec.1, fn);
    }

    /** `putMethod` on the type at position `k` that `assureType` handed
        out to `readFunc`: only that type of the package changes. */
    method PutMethodAt(typ: Type, ghost k: nat, fn: Func)
      requires pkg != null && pkg.Valid() && k < |pkg.types| && typ == pkg.types[k]
      modifies typ
      ensures pkg.Valid()
      ensures pkg.Model() == old(pkg.Model()).SetType(k, old(pkg.Model()).types[k].PutMethod(fn))
    {
      typ.PutMethod(fn);
      forall i | 0 <= i < |pkg.types| && i != k
        ensures pkg.types[i].Valid() && pkg.types[i].Model() == old(pkg.Model()).types[i]
      {
        DistinctAt(pkg.types, i, k);
      }
      TypeReplaced(pkg, k, old(pkg.Model()));
    }

    /** One declaration of `ReadFile`'s loop. */
    method ReadDecl(d: Ast.Decl) returns (err: Option<Error>)
      requires pkg != null && pkg.Valid()
      modifies pkg, pkg.types
      ensures pkg.Valid()
      ensures (pkg.Model(), err) == DeclSpec(old(pkg.Model()), d)
      ensures old(pkg.types) <= pkg.types && forall i :: |old(pkg.types)| <= i < |pkg.types| ==> fresh(pkg.types[i])
    {
      err := None;
      match d {
        case GenDecl(tok, lparen, specs) =>
          match tok {
            case IMPORT =>
              err := ReadImports(specs);
            case CONST =>
              ReadValue(tok, specs);
            case VAR =>
              ReadValue(tok, specs);
            case TYPE =>
              err := ReadTypeDecl(lparen, specs);
          }
        case FuncDecl(recv, name, typ) =>
          err := ReadFunc(recv, name, typ);
        case OtherDecl =>
      }
    }

    /** `ReadFile`'s loop over the declarations. */
    method ReadDecls(decls: seq<Ast.Decl>) returns (err: Option<Error>)
      requires pkg != null && pkg.Valid()
      modifies pkg, pkg.types
      ensures pkg.Valid()
      ensures (pkg.Model(), err) == DeclsSpec(old(pkg.Model()), decls)
      ensures old(pkg.types) <= pkg.types && forall j :: |old(pkg.types)| <= j < |pkg.types| ==> fresh(pkg.types[j])
    {
      err := None;
      var i := 0;
      while i < |decls| && err.None?
        invariant i <= |decls|
        invariant pkg.Valid()
        invariant old(pkg.types) <= pkg.types && forall j :: |old(pkg.types)| <= j < |pkg.types| ==> fresh(pkg.types[j])
        invariant err.None? ==> DeclsSpec(pkg.Model(), decls[i..]) == DeclsSpec(old(pkg.Model()), decls)
        invariant err.Some? ==> (pkg.Model(), err) == DeclsSpec(old(pkg.Model()), decls)
      {
        assert decls[i..][0] == decls[i] && decls[i..][1..] == decls[i + 1..];
        err := ReadDecl(decls[i]);
        i := i + 1;
      }
    }

    /** `ReadFile`: starts a new package unless the current one has the
        file's package name, then reads the declarations in order and
        stops at the first error. */
    method ReadFile(file: Ast.File) returns (err: Option<Error>)
      requires pkg != null ==> pkg.Valid()
      modifies this, pkg, if pkg != null then pkg.types else []
      ensures pkg != null && pkg.Valid()
      ensures (pkg.Model(), err) == ReadFileSpec(if old(pkg) == null then None else Some(old(pkg.Model())), file)
      ensures pkg == old(pkg) || fresh(pkg)
      ensures forall j :: 0 <= j < |pkg.types| ==>
                fresh(pkg.types[j]) || (old(pkg) != null && j < |old(pkg.types)| && pkg.types[j] == old(pkg.types)[j])
    {
      StartFile(file);
      ghost var start := pkg.types;
      assert forall j :: 0 <= j < |start| ==> old(pkg) != null && j < |old(pkg.types)| && start[j] == old(pkg.types)[j];
      err := ReadDecls(file.decls);
    }

    /** The first step of `ReadFile`: a package of the file's name, the
        current one when its name matches. */
    method StartFile(file: Ast.File)
      requires pkg != null ==> pkg.Valid()
      modifies this
      ensures pkg != null && pkg.Valid()
      ensures pkg.Model() == StartPackage(if old(pkg) == null then None else Some(old(pkg.Model())), file)
      ensures pkg == old(pkg) || (fresh(pkg) && pkg.types == [])
    {
      if pkg == null || pkg.name != file.name {
        pkg := new Package(file.name);
      }
    }
  }
}
