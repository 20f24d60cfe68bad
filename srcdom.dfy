/** The package model of srcdom.go: packages, types, functions, values and
    fields, each kept in an append-only sequence beside a map from a name to
    the position of the newest entry of that name.

    `Package` and `Type` are classes because the reader changes them in
    place, and a `Type` handed out by `AssureType` is the same object that a
    later declaration fills in.  Their abstract values are `PackageModel`
    and `TypeModel`; every method that changes one states the new abstract
    value as a function of the old one. */
module Srcdom {
  import opened Wrappers
  import opened Indexed
  import opened GoStrings
  import opened Tags

  /** `isPublicName`: the name starts with an upper-case letter.  An empty
      name, and one whose first character is the replacement character
      U+FFFD (what decoding reports for an invalid or missing rune), is not
      public.  Upper case is the ASCII range `A`..`Z` here. */
  function IsPublicName(name: string): (r: bool)
    ensures r ==> name != [] && name[0] != '\U{FFFD}'
  {
    if name == [] || name[0] == '\U{FFFD}' then false
    else 'A' <= name[0] <= 'Z'
  }

  datatype Import = Import(name: string, path: string)

  datatype Var = Var(name: string, typ: string)

  datatype Field = Field(name: string, typ: string, tag: Option<Tag>)

  datatype Value = Value(name: string, typ: string, isConst: bool)
  {
    predicate IsPublic()
    {
      IsPublicName(name)
    }
  }

  datatype Func = Func(name: string, params: seq<Var>, results: seq<Var>)
  {
    predicate IsPublic()
    {
      IsPublicName(name)
    }

    /** `writeResults`: what it appends to the builder.  Nothing for no
        result, the type after a space for one, and the types in
        parentheses for two or more. */
    function ResultsClause(): (r: string)
      ensures |results| == 0 ==> r == ""
      ensures |results| == 1 ==> r == " " + results[0].typ
      ensures |results| >= 2 ==> r == " (" + TypesString(results) + ")"
    {
      var rets := TypesString(results);
      if |results| == 0 then ""
      else if |results| == 1 then " " + rets
      else " (" + rets + ")"
    }
  }

  function Types(vars: seq<Var>): (r: seq<string>)
    ensures |r| == |vars| && forall i :: 0 <= i < |vars| ==> r[i] == vars[i].typ
  {
    seq(|vars|, i requires 0 <= i < |vars| => vars[i].typ)
  }

  /** `typesString` (astop.go): the types of `vars` in order, separated by
      `", "`; empty for no variable. */
  function TypesString(vars: seq<Var>): (r: string)
    ensures |vars| == 1 ==> r == vars[0].typ
    ensures vars == [] ==> r == ""
  {
    Join(Types(vars), ", ")
  }

  /** The rendering of a list is its first type followed, when more come,
      by `", "` and the rendering of the rest. */
  lemma TypesStringCons(v: Var, vs: seq<Var>)
    ensures TypesString([v] + vs) == v.typ + (if vs == [] then "" else ", " + TypesString(vs))
  {
    assert Types([v] + vs) == [v.typ] + Types(vs);
    assert ([v.typ] + Types(vs))[1..] == Types(vs);
  }

  /** The names of the elements of each kept list, in order: the key list
      that the list's index is built over.  Each element type has its own
      copy, rather than one generic projection taking `T -> string`, for
      two reasons.  `TypeKeys` reads the `name` field of `Type` objects,
      so its projection would need a `reads` clause the others do not
      have.  And a higher-order argument would put function application
      into every index and lookup proof that uses these lists. */
  function ValueKeys(vs: seq<Value>): (r: seq<string>)
    ensures |r| == |vs| && forall i :: 0 <= i < |vs| ==> r[i] == vs[i].name
  {
    seq(|vs|, i requires 0 <= i < |vs| => vs[i].name)
  }

  lemma ValueKeysAppend(a: seq<Value>, b: seq<Value>)
    ensures ValueKeys(a + b) == ValueKeys(a) + ValueKeys(b)
  {
  }

  function FuncKeys(fs: seq<Func>): (r: seq<string>)
    ensures |r| == |fs| && forall i :: 0 <= i < |fs| ==> r[i] == fs[i].name
  {
    seq(|fs|, i requires 0 <= i < |fs| => fs[i].name)
  }

  function FieldKeys(fs: seq<Field>): (r: seq<string>)
    ensures |r| == |fs| && forall i :: 0 <= i < |fs| ==> r[i] == fs[i].name
  {
    seq(|fs|, i requires 0 <= i < |fs| => fs[i].name)
  }

  function TypeModelKeys(ts: seq<TypeModel>): (r: seq<string>)
    ensures |r| == |ts| && forall i :: 0 <= i < |ts| ==> r[i] == ts[i].name
  {
    seq(|ts|, i requires 0 <= i < |ts| => ts[i].name)
  }

  function TypeKeys(ts: seq<Type>): (r: seq<string>)
    ensures |r| == |ts| && forall i :: 0 <= i < |ts| ==> r[i] == ts[i].name
  {
    seq(|ts|, i requires 0 <= i < |ts| => ts[i].name)
  }

  /** The entry a lookup by name finds, given the position `Lookup` reports. */
  function Found<T>(xs: seq<T>, k: Option<nat>): Option<T>
  {
    if k.Some? && k.value < |xs| then Some(xs[k.value]) else None
  }

  /** `sortedNames`: the keys of `m` in ascending order. */
  method SortedNames(m: map<string, int>) returns (names: seq<string>)
    ensures StrictlySorted(names) && |names| == |m|
    ensures forall k :: k in names <==> k in m
  {
    var keys: seq<string> := [];
    var rest := m.Keys;
    while rest != {}
      invariant forall i, j :: 0 <= i < j < |keys| ==> keys[i] != keys[j]
      invariant forall k :: k in m <==> k in keys || k in rest
      invariant forall k :: k in keys ==> k !in rest
      invariant |keys| + |rest| == |m|
      decreases |rest|
    {
      var k :| k in rest;
      keys := keys + [k];
      rest := rest - {k};
    }
    SortDistinctCorrect(keys);
    names := SortDistinct(keys);
  }

  /** The abstract value of a `Type`. */
  datatype TypeModel = TypeModel(name: string, defined: bool, isStruct: bool, isInterface: bool,
                                 embeds: seq<string>, fields: seq<Field>, methods: seq<Func>)
  {
    function PutEmbed(n: string): TypeModel
    {
      this.(embeds := embeds + [n])
    }

    function PutField(f: Field): TypeModel
    {
      this.(fields := fields + [f])
    }

    function PutMethod(fn: Func): TypeModel
    {
      this.(methods := methods + [fn])
    }
  }

  /** `&Type{Name: name}`: a type known by name only. */
  function Placeholder(name: string): TypeModel
  {
    TypeModel(name, false, false, false, [], [], [])
  }

  /** The abstract value of a `Package`. */
  datatype PackageModel = PackageModel(name: string, imports: seq<Import>, values: seq<Value>,
                                       funcs: seq<Func>, types: seq<TypeModel>)
  {
    function PutImport(i: Import): PackageModel
    {
      this.(imports := imports + [i])
    }

    function PutValue(v: Value): PackageModel
    {
      this.(values := values + [v])
    }

    function PutFunc(fn: Func): PackageModel
    {
      this.(funcs := funcs + [fn])
    }

    function PutType(t: TypeModel): PackageModel
    {
      this.(types := types + [t])
    }

    /** Replaces the type at position `k`, which the reader fills in after
        `assureType` handed it out. */
    function SetType(k: nat, t: TypeModel): PackageModel
      requires k < |types|
    {
      this.(types := types[k := t])
    }

    /** `assureType`: the package after it and the position of the type it
        returns, the newest one of that name or a new placeholder. */
    function AssureType(n: string): (r: (PackageModel, nat))
      ensures r.1 < |r.0.types| && r.0.types[r.1].name == n
    {
      match Lookup(TypeModelKeys(types), n)
      case Some(k) => (this, k)
      case None => (PutType(Placeholder(n)), |types|)
    }

    /** No two types of the package share a name. */
    ghost predicate TypeNamesDistinct()
    {
      forall i, j :: 0 <= i < j < |types| ==> types[i].name != types[j].name
    }
  }

  /** `&Package{Name: name}`. */
  function EmptyPackage(name: string): PackageModel
  {
    PackageModel(name, [], [], [], [])
  }

  /** `assureType` on a name already present returns that type and changes
      nothing; otherwise it appends exactly one placeholder with only the
      name set.  Either way the type names are the old ones plus `n`. */
  lemma AssureTypeCases(pm: PackageModel, n: string)
    ensures n in TypeModelKeys(pm.types) ==>
      pm.AssureType(n).0 == pm && pm.types[pm.AssureType(n).1].name == n
    ensures n !in TypeModelKeys(pm.types) ==>
      pm.AssureType(n) == (pm.(types := pm.types + [Placeholder(n)]), |pm.types|)
    ensures forall x :: x in TypeModelKeys(pm.AssureType(n).0.types) <==>
      x in TypeModelKeys(pm.types) || x == n
  {
    var ks := TypeModelKeys(pm.types);
    if n !in ks {
      assert TypeModelKeys(pm.types + [Placeholder(n)]) == ks + [n];
    }
  }

  /** `assureType` is idempotent: asking again for the same name returns
      the same position and leaves the package as the first call left it. */
  lemma AssureTypeIdempotent(pm: PackageModel, n: string)
    ensures pm.AssureType(n).0.AssureType(n) == pm.AssureType(n)
  {
    var (pm1, k) := pm.AssureType(n);
    var ks := TypeModelKeys(pm.types);
    if n !in ks {
      assert TypeModelKeys(pm1.types) == ks + [n];
      LookupPut(ks, n, n);
    }
  }

  /** `assureType` keeps the type names distinct. */
  lemma AssureTypeKeepsDistinct(pm: PackageModel, n: string)
    requires pm.TypeNamesDistinct()
    ensures pm.AssureType(n).0.TypeNamesDistinct()
  {
    var ks := TypeModelKeys(pm.types);
    if n !in ks {
      forall i | 0 <= i < |pm.types| ensures pm.types[i].name != n {
        assert ks[i] == pm.types[i].name;
      }
    }
  }

  /** The fields whose tag is present and matches `name` and `value`. */
  function TagHits(fields: seq<Field>, name: string, value: Option<string>): seq<Field>
  {
    if fields == [] then []
    else
      var f := fields[0];
      (if f.tag.Some? && f.tag.value.Match(name, value) then [f] else []) +
      TagHits(fields[1..], name, value)
  }

  lemma TagHitsStep(fields: seq<Field>, i: nat, name: string, value: Option<string>)
    requires i < |fields|
    ensures TagHits(fields[i..], name, value) ==
      (if fields[i].tag.Some? && fields[i].tag.value.Match(name, value) then [fields[i]] else []) +
      TagHits(fields[i + 1..], name, value)
  {
    assert fields[i..][1..] == fields[i + 1..];
  }

  /** Every recorded key of every present tag is non-empty: true of the
      tags the parser attaches. */
  ghost predicate KeysNonEmpty(fields: seq<Field>)
  {
    forall i :: 0 <= i < |fields| && fields[i].tag.Some? ==>
      forall j :: 0 <= j < |fields[i].tag.value.values| ==> fields[i].tag.value.values[j].name != ""
  }

  /** A query for the empty key finds nothing among non-empty keys. */
  lemma {:induction false} NoHitsForEmptyKey(fields: seq<Field>, value: Option<string>)
    requires KeysNonEmpty(fields)
    ensures TagHits(fields, "", value) == []
  {
    if fields != [] {
      assert KeysNonEmpty(fields[1..]) by {
        forall i | 0 <= i < |fields[1..]| ensures fields[1..][i] == fields[i + 1] {
        }
      }
      NoHitsForEmptyKey(fields[1..], value);
    }
  }

  /** A type of the package: its flags and three indexed collections. */
  class Type {
    const name: string
    var defined: bool
    var isStruct: bool
    var isInterface: bool
    var embeds: seq<string>
    var embedIdx: map<string, int>
    var fields: seq<Field>
    var fieldIdx: map<string, int>
    var methods: seq<Func>
    var methodIdx: map<string, int>

    ghost predicate Valid()
      reads this
    {
      embedIdx == Index(embeds) &&
      fieldIdx == Index(FieldKeys(fields)) &&
      methodIdx == Index(FuncKeys(methods))
    }

    ghost function Model(): TypeModel
      reads this
    {
      TypeModel(name, defined, isStruct, isInterface, embeds, fields, methods)
    }

    /** `&Type{Name: name}`. */
    constructor (name: string)
      ensures Valid() && Model() == Placeholder(name)
    {
      this.name := name;
      defined, isStruct, isInterface := false, false, false;
      embeds, embedIdx := [], map[];
      fields, fieldIdx := [], map[];
      methods, methodIdx := [], map[];
    }

    predicate IsPublic()
    {
      IsPublicName(name)
    }

    method PutEmbed(typeName: string)
      requires Valid()
      modifies this
      ensures Valid() && Model() == old(Model()).PutEmbed(typeName)
      ensures embedIdx == old(embedIdx)[typeName := old(|embeds|)]
    {
      IndexPut(embeds, typeName);
      var idx := |embeds|;
      embedIdx := embedIdx[typeName := idx];
      embeds := embeds + [typeName];
    }

    /** `Embed`: whether `n` was ever put as an embedded type. */
    function Embed(n: string): (ok: bool)
      reads this
      requires Valid()
      ensures ok <==> n in embeds
    {
      IndexIsNewest(embeds);
      n in embedIdx
    }

    method PutField(f: Field)
      requires Valid()
      modifies this
      ensures Valid() && Model() == old(Model()).PutField(f)
      ensures fieldIdx == old(fieldIdx)[f.name := old(|fields|)]
    {
      assert FieldKeys(fields + [f]) == FieldKeys(fields) + [f.name];
      IndexPut(FieldKeys(fields), f.name);
      var idx := |fields|;
      fieldIdx := fieldIdx[f.name := idx];
      fields := fields + [f];
    }

    /** `Field`: the newest field named `n`, or none when no field was put
        under that name. */
    function Field(n: string): (r: Option<Field>)
      reads this
      requires Valid()
      ensures r == Found(fields, Lookup(FieldKeys(fields), n))
      ensures r.None? <==> n !in FieldKeys(fields)
    {
      IndexIsNewest(FieldKeys(fields));
      if n in fieldIdx then Some(fields[fieldIdx[n]]) else None
    }

    method PutMethod(fn: Func)
      requires Valid()
      modifies this
      ensures Valid() && Model() == old(Model()).PutMethod(fn)
      ensures methodIdx == old(methodIdx)[fn.name := old(|methods|)]
    {
      assert FuncKeys(methods + [fn]) == FuncKeys(methods) + [fn.name];
      IndexPut(FuncKeys(methods), fn.name);
      var idx := |methods|;
      methodIdx := methodIdx[fn.name := idx];
      methods := methods + [fn];
    }

    /** `Method`: the newest method named `n`, or none. */
    function Method(n: string): (r: Option<Func>)
      reads this
      requires Valid()
      ensures r == Found(methods, Lookup(FuncKeys(methods), n))
      ensures r.None? <==> n !in FuncKeys(methods)
    {
      IndexIsNewest(FuncKeys(methods));
      if n in methodIdx then Some(methods[methodIdx[n]]) else None
    }

    /** `FieldsByTag`: the query is never read, so the fields are matched
        against the empty key with no value. */
    method FieldsByTag(tagQuery: string) returns (hits: seq<Field>)
      ensures hits == TagHits(fields, "", None)
      ensures KeysNonEmpty(fields) ==> hits == []
    {
      hits := [];
      var name := "";
      var value: Option<string> := None;
      var i := 0;
      while i < |fields|
        invariant i <= |fields|
        invariant hits + TagHits(fields[i..], name, value) == TagHits(fields, name, value)
      {
        var f := fields[i];
        TagHitsStep(fields, i, name, value);
        if f.tag.Some? && f.tag.value.Match(name, value) {
          ConcatAssoc(hits, [f], TagHits(fields[i + 1..], name, value));
          hits := hits + [f];
        }
        i := i + 1;
      }
      assert fields[|fields|..] == [];
      if KeysNonEmpty(fields) {
        NoHitsForEmptyKey(fields, None);
      }
    }
  }

  /** The abstract values of the types `ts`, in order. */
  ghost function TypeModels(ts: seq<Type>): (r: seq<TypeModel>)
    reads ts
    ensures |r| == |ts|
  {
    seq(|ts|, i requires 0 <= i < |ts| reads ts => ts[i].Model())
  }

  /** No type object occurs twice: none is among the ones before it. */
  ghost predicate Distinct(ts: seq<Type>)
  {
    forall i :: 0 <= i < |ts| ==> ts[i] !in ts[..i]
  }

  /** Two positions of a sequence of distinct types hold different objects. */
  lemma DistinctAt(ts: seq<Type>, i: nat, j: nat)
    requires Distinct(ts) && i < |ts| && j < |ts| && i != j
    ensures ts[i] != ts[j]
  {
    if i < j {
      assert ts[..j][i] == ts[i];
    } else {
      assert ts[..i][j] == ts[j];
    }
  }

  /** The types are distinct objects and each is valid. */
  ghost predicate TypesValid(ts: seq<Type>)
    reads ts
  {
    Distinct(ts) && forall i :: 0 <= i < |ts| ==> ts[i].Valid()
  }

  /** Types whose objects have not changed keep their validity and model. */
  twostate lemma TypesUnchanged(ts: seq<Type>)
    requires forall i :: 0 <= i < |ts| ==> unchanged(ts[i])
    ensures TypesValid(ts) == old(TypesValid(ts))
    ensures TypeModels(ts) == old(TypeModels(ts))
  {
  }

  lemma TypesAppend(ts: seq<Type>, t: Type)
    requires TypesValid(ts) && t.Valid() && t !in ts
    ensures TypesValid(ts + [t])
    ensures TypeModels(ts + [t]) == TypeModels(ts) + [t.Model()]
  {
    forall i | 0 <= i < |ts + [t]|
      ensures (ts + [t])[i] !in (ts + [t])[..i]
    {
      assert (ts + [t])[..i] == if i < |ts| then ts[..i] else ts;
    }
  }

  /** A package: its name, imports, and indexed values, funcs and types. */
  class Package {
    var name: string
    var imports: seq<Import>
    var values: seq<Value>
    var valIdx: map<string, int>
    var funcs: seq<Func>
    var funIdx: map<string, int>
    var types: seq<Type>
    var typIdx: map<string, int>

    /** The types are distinct objects, each valid, and every index maps a
        name to the newest entry of that name. */
    ghost predicate Valid()
      reads this, types
    {
      TypesValid(types) && Indexed()
    }

    /** Every index maps a name to the newest entry of that name. */
    ghost predicate Indexed()
      reads this
    {
      valIdx == Index(ValueKeys(values)) &&
      funIdx == Index(FuncKeys(funcs)) &&
      typIdx == Index(TypeKeys(types))
    }

    ghost function Model(): PackageModel
      reads this, types
    {
      PackageModel(name, imports, values, funcs, TypeModels(types))
    }

    /** `&Package{Name: name}`. */
    constructor (name: string)
      ensures Valid() && Model() == EmptyPackage(name) && types == []
    {
      this.name := name;
      imports := [];
      values, valIdx := [], map[];
      funcs, funIdx := [], map[];
      types, typIdx := [], map[];
    }

    method PutImport(i: Import)
      requires Valid()
      modifies this
      ensures Valid() && Model() == old(Model()).PutImport(i) && types == old(types)
    {
      imports := imports + [i];
      TypesUnchanged(types);
    }

    method PutValue(v: Value)
      requires Valid()
      modifies this
      ensures Valid() && Model() == old(Model()).PutValue(v) && types == old(types)
      ensures valIdx == old(valIdx)[v.name := old(|values|)]
    {
      assert ValueKeys(values + [v]) == ValueKeys(values) + [v.name];
      IndexPut(ValueKeys(values), v.name);
      var idx := |values|;
      valIdx := valIdx[v.name := idx];
      values := values + [v];
      TypesUnchanged(types);
    }

    /** `Value`: the newest value named `n`, or none. */
    function Value(n: string): (r: Option<Value>)
      reads this, types
      requires Valid()
      ensures r == Found(values, Lookup(ValueKeys(values), n))
      ensures r.None? <==> n !in ValueKeys(values)
    {
      IndexIsNewest(ValueKeys(values));
      if n in valIdx then Some(values[valIdx[n]]) else None
    }

    /** `ValueNames`: every value name once, ascending. */
    method ValueNames() returns (names: seq<string>)
      requires Valid()
      ensures StrictlySorted(names)
      ensures forall n :: n in names <==> n in ValueKeys(values)
    {
      IndexIsNewest(ValueKeys(values));
      names := SortedNames(valIdx);
    }

    method PutFunc(fn: Func)
      requires Valid()
      modifies this
      ensures Valid() && Model() == old(Model()).PutFunc(fn) && types == old(types)
      ensures funIdx == old(funIdx)[fn.name := old(|funcs|)]
    {
      assert FuncKeys(funcs + [fn]) == FuncKeys(funcs) + [fn.name];
      IndexPut(FuncKeys(funcs), fn.name);
      var idx := |funcs|;
      funIdx := funIdx[fn.name := idx];
      funcs := funcs + [fn];
      TypesUnchanged(types);
    }

    /** `Func`: the newest function named `n`, or none. */
    function Func(n: string): (r: Option<Func>)
      reads this, types
      requires Valid()
      ensures r == Found(funcs, Lookup(FuncKeys(funcs), n))
      ensures r.None? <==> n !in FuncKeys(funcs)
    {
      IndexIsNewest(FuncKeys(funcs));
      if n in funIdx then Some(funcs[funIdx[n]]) else None
    }

    /** `FuncNames`: every function name once, ascending. */
    method FuncNames() returns (names: seq<string>)
      requires Valid()
      ensures StrictlySorted(names)
      ensures forall n :: n in names <==> n in FuncKeys(funcs)
    {
      IndexIsNewest(FuncKeys(funcs));
      names := SortedNames(funIdx);
    }

    /** `putType`; its one caller passes a type that is not in the package
        yet. */
    method PutType(typ: Type)
      requires Valid() && typ.Valid() && typ !in types
      modifies this
      ensures Valid() && Model() == old(Model()).PutType(typ.Model())
      ensures types == old(types) + [typ]
      ensures typIdx == old(typIdx)[typ.name := old(|types|)]
    {
      assert TypeKeys(types + [typ]) == TypeKeys(types) + [typ.name];
      IndexPut(TypeKeys(types), typ.name);
      var idx := |types|;
      typIdx := typIdx[typ.name := idx];
      types := types + [typ];
      TypesUnchanged(old(types));
      TypesAppend(old(types), typ);
    }

    /** `Type`: the newest type named `n`, or none. */
    function Type(n: string): (r: Option<Type>)
      reads this, types
      requires Valid()
      ensures r == Found(types, Lookup(TypeKeys(types), n))
      ensures r.None? <==> n !in TypeKeys(types)
    {
      IndexIsNewest(TypeKeys(types));
      if n in typIdx then Some(types[typIdx[n]]) else None
    }

    /** `TypeNames`: every type name once, ascending. */
    method TypeNames() returns (names: seq<string>)
      requires Valid()
      ensures StrictlySorted(names)
      ensures forall n :: n in names <==> n in TypeKeys(types)
    {
      IndexIsNewest(TypeKeys(types));
      names := SortedNames(typIdx);
    }

    /** `assureType`: the existing type named `n`, or a new placeholder put
        at the end.  The returned object is the one at the position the
        model reports, so changing it later changes that type. */
    method AssureType(n: string) returns (typ: Type)
      requires Valid()
      modifies this
      ensures Valid() && Model() == old(Model()).AssureType(n).0
      ensures typ == types[old(Model()).AssureType(n).1]
      ensures old(types) <= types && forall i :: old(|types|) <= i < |types| ==> fresh(types[i])
    {
      ghost var spec := Model().AssureType(n);
      assert TypeModelKeys(TypeModels(types)) == TypeKeys(types);
      var found := Type(n);
      if found.Some? {
        typ := found.value;
        assert spec == (Model(), typIdx[n]);
        return;
      }
      assert spec == (Model().PutType(Placeholder(n)), |types|);
      typ := new Type(n);
      PutType(typ);
      assert forall i :: old(|types|) <= i < |types| ==> types[i] == typ;
    }
  }

  /** A package whose indexes are intact, whose types are distinct objects,
      and whose every type except the one at `k` is valid and has the model
      it has in `before`: the package is valid and its model is `before`
      with the type at `k` replaced by that type's current model. */
  lemma TypeReplaced(p: Package, k: nat, before: PackageModel)
    requires p.Indexed() && k < |p.types| && |before.types| == |p.types|
    requires Distinct(p.types)
    requires before.name == p.name && before.imports == p.imports &&
             before.values == p.values && before.funcs == p.funcs
    requires p.types[k].Valid()
    requires forall i :: 0 <= i < |p.types| && i != k ==>
               p.types[i].Valid() && p.types[i].Model() == before.types[i]
    ensures p.Valid()
    ensures p.Model() == before.SetType(k, p.types[k].Model())
  {
    assert TypeModels(p.types) == before.types[k := p.types[k].Model()];
  }
}
