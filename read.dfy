/** read.go: choosing the files of a directory by their build constraints,
    choosing the package among those left, and scanning its files in order
    with a fresh `Parser`.

    The directory has already been parsed: `ReadDir` starts from the map of
    packages that `parser.ParseDir` returns, and the recognisers of
    constraint comments are the parameter `syn`.  Go's map iteration order
    is arbitrary; the methods here pick the next key with `:|`, and their
    contracts hold whichever key is picked. */
module Read {
  import opened Wrappers
  import opened GoStrings
  import opened Srcdom
  import opened ParserModel
  import opened Constraint
  import Parser
  import Ast

  /** The errors `readDir` reports once the directory is parsed. */
  datatype ReadError =
    | ConstraintError(msg: string)                  // extractBuildDirectives failed
    | MultiplePackages                              // "multiple packages in directory"
    | MultipleNonTestPackages(target: string, other: string)
    | ScanError(err: Error)                         // ScanFile failed

  // ---------------------------------------------------------------------
  // joinExprListWithOrExpr

  /** `joinExprListWithOrExpr`: the elements of a non-empty list joined by
      `||`, nested to the right. */
  function JoinOr(list: seq<Expr>): (r: Expr)
    requires |list| > 0
    ensures |list| == 1 ==> r == list[0]
  {
    if |list| == 1 then list[0] else Or(list[0], JoinOr(list[1..]))
  }

  /** The operands of a right-nested chain of `||`. */
  function Disjuncts(e: Expr): seq<Expr>
  {
    if e.Or? then [e.x] + Disjuncts(e.y) else [e]
  }

  /** The joined expression holds exactly when some element of the list
      holds. */
  lemma {:induction false} JoinOrEval(list: seq<Expr>, ok: string -> bool)
    requires |list| > 0
    ensures Eval(JoinOr(list), ok) <==> exists i :: 0 <= i < |list| && Eval(list[i], ok)
  {
    if |list| > 1 {
      var tail := list[1..];
      JoinOrEval(tail, ok);
      if Eval(JoinOr(tail), ok) {
        var i :| 0 <= i < |tail| && Eval(tail[i], ok);
        assert Eval(list[i + 1], ok);
      }
      if exists i :: 0 <= i < |list| && Eval(list[i], ok) {
        var i :| 0 <= i < |list| && Eval(list[i], ok);
        if i > 0 {
          assert Eval(tail[i - 1], ok);
        }
      }
    }
  }

  /** The chain keeps the list's order: undoing it gives the list back, as
      long as no element is itself an `||`. */
  lemma {:induction false} JoinOrInOrder(list: seq<Expr>)
    requires |list| > 0
    requires forall i :: 0 <= i < |list| ==> !list[i].Or?
    ensures Disjuncts(JoinOr(list)) == list
  {
    if |list| > 1 {
      JoinOrInOrder(list[1..]);
      assert list == [list[0]] + list[1..];
    }
  }

  // ---------------------------------------------------------------------
  // extractBuildDirectives

  /** The text of every comment in the groups before the first group that
      starts at or after the package clause, in source order. */
  function Preamble(groups: seq<Ast.CommentGroup>, package: int): seq<string>
  {
    if groups == [] || groups[0].pos >= package then []
    else groups[0].list + Preamble(groups[1..], package)
  }

  /** A parse result as `extractBuildDirectives` returns it. */
  function Parsed(p: Result<Expr, string>): Result<Option<Expr>, string>
  {
    if p.Ok? then Ok(Some(p.value)) else Err(p.error)
  }

  /** The outcome of reading the comment texts `texts` once the `+build`
      lines `acc` have been parsed: `Ok(None)` for no constraint. */
  function Directives(texts: seq<string>, syn: Syntax, acc: seq<Expr>): Result<Option<Expr>, string>
  {
    if texts == [] then (if acc == [] then Ok(None) else Ok(Some(JoinOr(acc))))
    else if syn.isGoBuild(texts[0]) then Parsed(syn.parse(texts[0]))
    else if !syn.isPlusBuild(texts[0]) then Directives(texts[1..], syn, acc)
    else
      var p := syn.parse(texts[0]);
      if p.Err? then Err(p.error) else Directives(texts[1..], syn, acc + [p.value])
  }

  /** The build constraint of a file. */
  function BuildDirectives(file: Ast.File, syn: Syntax): Result<Option<Expr>, string>
  {
    Directives(Preamble(file.comments, file.package), syn, [])
  }

  /** The comment at position `c` of a group decides the outcome or is
      stepped over. */
  lemma DirectivesAt(list: seq<string>, c: nat, rest: seq<string>, syn: Syntax, acc: seq<Expr>)
    requires c < |list|
    ensures Directives(list[c..] + rest, syn, acc) ==
            if syn.isGoBuild(list[c]) then Parsed(syn.parse(list[c]))
            else if !syn.isPlusBuild(list[c]) then Directives(list[c + 1..] + rest, syn, acc)
            else if syn.parse(list[c]).Err? then Err(syn.parse(list[c]).error)
            else Directives(list[c + 1..] + rest, syn, acc + [syn.parse(list[c]).value])
  {
    assert (list[c..] + rest)[0] == list[c];
    assert (list[c..] + rest)[1..] == list[c + 1..] + rest;
  }

  /** The comments of a group that starts before the package clause come
      first. */
  lemma PreambleAt(groups: seq<Ast.CommentGroup>, g: nat, package: int)
    requires g < |groups| && groups[g].pos < package
    ensures Preamble(groups[g..], package) == groups[g].list + Preamble(groups[g + 1..], package)
  {
    assert groups[g..][1..] == groups[g + 1..];
  }

  /** `extractBuildDirectives`: the constraint of `file`, `Ok(None)` when it
      has none. */
  method ExtractBuildDirectives(file: Ast.File, syn: Syntax) returns (r: Result<Option<Expr>, string>)
    ensures r == BuildDirectives(file, syn)
  {
    var plusBuilds: seq<Expr> := [];
    var groups := file.comments;
    var g := 0;
    while g < |groups| && groups[g].pos < file.package
      invariant g <= |groups|
      invariant Directives(Preamble(groups[g..], file.package), syn, plusBuilds) == BuildDirectives(file, syn)
    {
      PreambleAt(groups, g, file.package);
      var done;
      done, r, plusBuilds := ScanGroup(groups[g].list, Preamble(groups[g + 1..], file.package), syn, plusBuilds);
      if done {
        return;
      }
      g := g + 1;
    }
    assert g < |groups| ==> groups[g..][0] == groups[g];
    if |plusBuilds| == 0 {
      r := Ok(None);
    } else {
      r := Ok(Some(JoinOr(plusBuilds)));
    }
  }

  /** The inner loop of `extractBuildDirectives` over the comments `list`
      of one group, followed by the comments `rest`: either a comment
      decides the outcome `r`, or the `+build` lines of the group are
      appended to `acc`. */
  method ScanGroup(list: seq<string>, ghost rest: seq<string>, syn: Syntax, acc: seq<Expr>)
      returns (done: bool, r: Result<Option<Expr>, string>, plusBuilds: seq<Expr>)
    ensures done ==> r == Directives(list + rest, syn, acc)
    ensures !done ==> Directives(rest, syn, plusBuilds) == Directives(list + rest, syn, acc)
  {
    plusBuilds := acc;
    done, r := false, Ok(None);
    var c := 0;
    assert list[c..] == list;
    while c < |list|
      invariant c <= |list|
      invariant Directives(list[c..] + rest, syn, plusBuilds) == Directives(list + rest, syn, acc)
    {
      var text := list[c];
      DirectivesAt(list, c, rest, syn, plusBuilds);
      if syn.isGoBuild(text) {
        return true, Parsed(syn.parse(text)), plusBuilds;
      }
      if !syn.isPlusBuild(text) {
        c := c + 1;
        continue;
      }
      var p := syn.parse(text);
      if p.Err? {
        return true, Err(p.error), plusBuilds;
      }
      plusBuilds := plusBuilds + [p.value];
      c := c + 1;
    }
    assert list[c..] + rest == rest;
  }

  /** Groups from the first one at or after the package clause on are never
      looked at. */
  lemma {:induction false} PreambleStopsAtPackage(g: seq<Ast.CommentGroup>, h: seq<Ast.CommentGroup>, package: int)
    requires forall i :: 0 <= i < |g| ==> g[i].pos < package
    requires h != [] && h[0].pos >= package
    ensures Preamble(g + h, package) == Preamble(g, package)
  {
    if g != [] {
      assert (g + h)[0] == g[0];
      assert (g + h)[1..] == g[1..] + h;
      PreambleStopsAtPackage(g[1..], h, package);
    } else {
      assert g + h == h;
    }
  }

  /** The first `//go:build` line decides: its parse result, constraint or
      error, is the outcome, and the `+build` lines before it only matter
      if one of them fails to parse. */
  lemma {:induction false} GoBuildWins(texts: seq<string>, syn: Syntax, acc: seq<Expr>, k: nat)
    requires k < |texts| && syn.isGoBuild(texts[k])
    requires forall i :: 0 <= i < k ==> !syn.isGoBuild(texts[i])
    requires forall i :: 0 <= i < k ==> syn.isPlusBuild(texts[i]) ==> syn.parse(texts[i]).Ok?
    ensures Directives(texts, syn, acc) == Parsed(syn.parse(texts[k]))
  {
    if k > 0 {
      var acc' := if syn.isPlusBuild(texts[0]) then acc + [syn.parse(texts[0]).value] else acc;
      GoBuildWins(texts[1..], syn, acc', k - 1);
    }
  }

  /** Before any `//go:build` line, the first `+build` line that fails to
      parse makes the outcome its error. */
  lemma {:induction false} PlusBuildErrorWins(texts: seq<string>, syn: Syntax, acc: seq<Expr>, k: nat)
    requires k < |texts| && !syn.isGoBuild(texts[k]) && syn.isPlusBuild(texts[k])
    requires syn.parse(texts[k]).Err?
    requires forall i :: 0 <= i < k ==> !syn.isGoBuild(texts[i])
    requires forall i :: 0 <= i < k ==> syn.isPlusBuild(texts[i]) ==> syn.parse(texts[i]).Ok?
    ensures Directives(texts, syn, acc) == Err(syn.parse(texts[k]).error)
  {
    if k > 0 {
      var acc' := if syn.isPlusBuild(texts[0]) then acc + [syn.parse(texts[0]).value] else acc;
      PlusBuildErrorWins(texts[1..], syn, acc', k - 1);
    }
  }

  /** With no `//go:build` line and every `+build` line parsed, the outcome
      is no constraint when there is no `+build` line; otherwise it is a
      constraint that holds exactly when one of the lines holds. */
  lemma {:induction false} PlusBuildsOr(texts: seq<string>, syn: Syntax, acc: seq<Expr>, ok: string -> bool)
    requires forall i :: 0 <= i < |texts| ==> !syn.isGoBuild(texts[i])
    requires forall i :: 0 <= i < |texts| ==> syn.isPlusBuild(texts[i]) ==> syn.parse(texts[i]).Ok?
    ensures Directives(texts, syn, acc).Ok?
    ensures Directives(texts, syn, acc).value.None? <==>
            acc == [] && forall i :: 0 <= i < |texts| ==> !syn.isPlusBuild(texts[i])
    ensures Directives(texts, syn, acc).value.Some? ==>
            (Eval(Directives(texts, syn, acc).value.value, ok) <==>
             (exists j :: 0 <= j < |acc| && Eval(acc[j], ok)) ||
             (exists i :: 0 <= i < |texts| && syn.isPlusBuild(texts[i]) && Eval(syn.parse(texts[i]).value, ok)))
  {
    if texts == [] {
      if acc != [] {
        JoinOrEval(acc, ok);
      }
    } else {
      var t := texts[1..];
      var acc' := if syn.isPlusBuild(texts[0]) then acc + [syn.parse(texts[0]).value] else acc;
      PlusBuildsOr(t, syn, acc', ok);
      PlusBuildsOrStep(texts, syn, acc, ok);
    }
  }

  /** The two disjunctions of `PlusBuildsOr` agree before and after one
      comment is stepped over. */
  lemma PlusBuildsOrStep(texts: seq<string>, syn: Syntax, acc: seq<Expr>, ok: string -> bool)
    requires texts != []
    requires forall i :: 0 <= i < |texts| ==> syn.isPlusBuild(texts[i]) ==> syn.parse(texts[i]).Ok?
    ensures var acc' := if syn.isPlusBuild(texts[0]) then acc + [syn.parse(texts[0]).value] else acc;
            ((exists j :: 0 <= j < |acc| && Eval(acc[j], ok)) ||
             (exists i :: 0 <= i < |texts| && syn.isPlusBuild(texts[i]) && Eval(syn.parse(texts[i]).value, ok)))
            <==>
            ((exists j :: 0 <= j < |acc'| && Eval(acc'[j], ok)) ||
             (exists i :: 0 <= i < |texts[1..]| && syn.isPlusBuild(texts[1..][i]) && Eval(syn.parse(texts[1..][i]).value, ok)))
    ensures var acc' := if syn.isPlusBuild(texts[0]) then acc + [syn.parse(texts[0]).value] else acc;
            (acc == [] && forall i :: 0 <= i < |texts| ==> !syn.isPlusBuild(texts[i])) <==>
            (acc' == [] && forall i :: 0 <= i < |texts[1..]| ==> !syn.isPlusBuild(texts[1..][i]))
  {
    var acc' := if syn.isPlusBuild(texts[0]) then acc + [syn.parse(texts[0]).value] else acc;
    var t := texts[1..];
    if exists i :: 0 <= i < |texts| && syn.isPlusBuild(texts[i]) && Eval(syn.parse(texts[i]).value, ok) {
      var i :| 0 <= i < |texts| && syn.isPlusBuild(texts[i]) && Eval(syn.parse(texts[i]).value, ok);
      if i == 0 {
        assert acc'[|acc|] == syn.parse(texts[0]).value;
      } else {
        assert t[i - 1] == texts[i];
      }
    }
    if exists j :: 0 <= j < |acc| && Eval(acc[j], ok) {
      var j :| 0 <= j < |acc| && Eval(acc[j], ok);
      assert acc'[j] == acc[j];
    }
    if exists j :: 0 <= j < |acc'| && Eval(acc'[j], ok) {
      var j :| 0 <= j < |acc'| && Eval(acc'[j], ok);
      if j < |acc| {
        assert acc[j] == acc'[j];
      } else {
        assert syn.isPlusBuild(texts[0]) && acc'[j] == syn.parse(texts[0]).value;
      }
    }
    if exists i :: 0 <= i < |t| && syn.isPlusBuild(t[i]) && Eval(syn.parse(t[i]).value, ok) {
      var i :| 0 <= i < |t| && syn.isPlusBuild(t[i]) && Eval(syn.parse(t[i]).value, ok);
      assert texts[i + 1] == t[i];
    }
    if !(forall i :: 0 <= i < |t| ==> !syn.isPlusBuild(t[i])) {
      var i :| 0 <= i < |t| && syn.isPlusBuild(t[i]);
      assert texts[i + 1] == t[i];
    }
  }

  // ---------------------------------------------------------------------
  // Filtering files and packages

  /** `func(tag string) bool { return tags[tag] }`: a tag missing from the
      map is false. */
  function Satisfied(tags: map<string, bool>): string -> bool
  {
    t => t in tags && tags[t]
  }

  /** Whether `readDir` keeps a file with constraint `d`: it has none, or
      the constraint holds under `tags`. */
  predicate Keeps(d: Option<Expr>, tags: map<string, bool>)
  {
    d.None? || Eval(d.value, Satisfied(tags))
  }

  /** Some file's constraint cannot be read. */
  ghost predicate SomeFileFails(files: map<string, Ast.File>, syn: Syntax)
  {
    exists f :: f in files && BuildDirectives(files[f], syn).Err?
  }

  /** The files whose constraint reads and holds. */
  ghost function KeptFiles(files: map<string, Ast.File>, syn: Syntax, tags: map<string, bool>): map<string, Ast.File>
  {
    map f | f in files && BuildDirectives(files[f], syn).Ok? && Keeps(BuildDirectives(files[f], syn).value, tags) :: files[f]
  }

  /** The files left while the loop over `files` has still to look at
      those in `rest`. */
  ghost function FilesLeft(files: map<string, Ast.File>, rest: set<string>, syn: Syntax, tags: map<string, bool>): map<string, Ast.File>
  {
    map f | f in files && (f in rest || (BuildDirectives(files[f], syn).Ok? && Keeps(BuildDirectives(files[f], syn).value, tags))) :: files[f]
  }

  /** Looking at file `f` deletes it exactly when its constraint does not
      hold. */
  lemma FilesLeftStep(files: map<string, Ast.File>, rest: set<string>, f: string, syn: Syntax, tags: map<string, bool>)
    requires f in rest && f in files && BuildDirectives(files[f], syn).Ok?
    ensures FilesLeft(files, rest - {f}, syn, tags) ==
            if Keeps(BuildDirectives(files[f], syn).value, tags) then FilesLeft(files, rest, syn, tags)
            else FilesLeft(files, rest, syn, tags) - {f}
  {
  }

  lemma FilesLeftDone(files: map<string, Ast.File>, syn: Syntax, tags: map<string, bool>)
    ensures FilesLeft(files, {}, syn, tags) == KeptFiles(files, syn, tags)
  {
  }

  /** The inner loop of `readDir` (read.go:100-111): deletes from `files`
      every file whose constraint does not hold, or reports the error of a
      constraint that cannot be read. */
  method FilterFiles(files: map<string, Ast.File>, syn: Syntax, tags: map<string, bool>)
      returns (r: Result<map<string, Ast.File>, string>)
    ensures r.Err? <==> SomeFileFails(files, syn)
    ensures r.Err? ==> exists f :: f in files && BuildDirectives(files[f], syn) == Err(r.error)
    ensures r.Ok? ==> r.value == KeptFiles(files, syn, tags)
  {
    var kept := files;
    var rest := files.Keys;
    while rest != {}
      invariant rest <= files.Keys
      invariant forall f :: f in files && f !in rest ==> BuildDirectives(files[f], syn).Ok?
      invariant kept == FilesLeft(files, rest, syn, tags)
      decreases |rest|
    {
      var f :| f in rest;
      var d := ExtractBuildDirectives(files[f], syn);
      if d.Err? {
        return Err(d.error);
      }
      FilesLeftStep(files, rest, f, syn, tags);
      if d.value.Some? && !Eval(d.value.value, Satisfied(tags)) {
        kept := kept - {f};
      }
      rest := rest - {f};
    }
    FilesLeftDone(files, syn, tags);
    r := Ok(kept);
  }

  /** Some file of some package has a constraint that cannot be read. */
  ghost predicate SomePackageFails(pkgs: map<string, Ast.Package>, syn: Syntax)
  {
    exists p :: p in pkgs && SomeFileFails(pkgs[p].files, syn)
  }

  /** The packages with at least one kept file, holding only those files. */
  ghost function KeptPackages(pkgs: map<string, Ast.Package>, syn: Syntax, tags: map<string, bool>): map<string, Ast.Package>
  {
    map p | p in pkgs && KeptFiles(pkgs[p].files, syn, tags) != map[] ::
      pkgs[p].(files := KeptFiles(pkgs[p].files, syn, tags))
  }

  /** The packages left while the loop over `pkgs` has still to filter
      those in `rest`. */
  ghost function PackagesLeft(pkgs: map<string, Ast.Package>, rest: set<string>, syn: Syntax, tags: map<string, bool>): map<string, Ast.Package>
  {
    map p | p in pkgs && (p in rest || KeptFiles(pkgs[p].files, syn, tags) != map[]) ::
      if p in rest then pkgs[p] else pkgs[p].(files := KeptFiles(pkgs[p].files, syn, tags))
  }

  /** Filtering package `p` replaces its files by the kept ones, and deletes
      it when none is kept. */
  lemma PackagesLeftStep(pkgs: map<string, Ast.Package>, rest: set<string>, p: string, syn: Syntax, tags: map<string, bool>)
    requires p in rest && p in pkgs
    ensures PackagesLeft(pkgs, rest - {p}, syn, tags) ==
            var kept := PackagesLeft(pkgs, rest, syn, tags)[p := pkgs[p].(files := KeptFiles(pkgs[p].files, syn, tags))];
            if KeptFiles(pkgs[p].files, syn, tags) == map[] then kept - {p} else kept
  {
  }

  lemma PackagesLeftDone(pkgs: map<string, Ast.Package>, syn: Syntax, tags: map<string, bool>)
    ensures PackagesLeft(pkgs, {}, syn, tags) == KeptPackages(pkgs, syn, tags)
  {
  }

  /** The outer loop of `readDir` (read.go:96-116): filters the files of
      every package and deletes the packages left with none. */
  method FilterPackages(pkgs: map<string, Ast.Package>, syn: Syntax, tags: map<string, bool>)
      returns (r: Result<map<string, Ast.Package>, string>)
    ensures r.Err? <==> SomePackageFails(pkgs, syn)
    ensures r.Err? ==> exists p, f :: p in pkgs && f in pkgs[p].files &&
                                      BuildDirectives(pkgs[p].files[f], syn) == Err(r.error)
    ensures r.Ok? ==> r.value == KeptPackages(pkgs, syn, tags)
  {
    var kept := pkgs;
    var rest := pkgs.Keys;
    while rest != {}
      invariant rest <= pkgs.Keys
      invariant forall p :: p in pkgs && p !in rest ==> !SomeFileFails(pkgs[p].files, syn)
      invariant kept == PackagesLeft(pkgs, rest, syn, tags)
      decreases |rest|
    {
      var p :| p in rest;
      var files := FilterFiles(pkgs[p].files, syn, tags);
      if files.Err? {
        return Err(files.error);
      }
      PackagesLeftStep(pkgs, rest, p, syn, tags);
      kept := kept[p := pkgs[p].(files := files.value)];
      if |files.value| == 0 {
        kept := kept - {p};
      }
      rest := rest - {p};
    }
    PackagesLeftDone(pkgs, syn, tags);
    r := Ok(kept);
  }

  // ---------------------------------------------------------------------
  // Choosing the package

  /** Two of the packages are a target and its `_test` package. */
  ghost predicate TestPair(pkgs: map<string, Ast.Package>)
  {
    exists a, b :: a in pkgs && b in pkgs && pkgs[a].name + "_test" == pkgs[b].name
  }

  /** The packages `readDir` can choose from: one, or a target and its
      `_test` package. */
  ghost predicate Selectable(pkgs: map<string, Ast.Package>)
  {
    |pkgs| == 1 || (|pkgs| == 2 && TestPair(pkgs))
  }

  /** The package `readDir` scans: the only one, or of a target and its
      `_test` package the test package exactly when `testPackage` is set. */
  ghost function Chosen(pkgs: map<string, Ast.Package>, testPackage: bool): (c: Ast.Package)
    requires Selectable(pkgs)
    ensures |pkgs| == 1 ==> exists a :: a in pkgs && c == pkgs[a]
    ensures |pkgs| == 2 ==> exists a, b :: a in pkgs && b in pkgs && pkgs[a].name + "_test" == pkgs[b].name &&
                                           c == if testPackage then pkgs[b] else pkgs[a]
  {
    if |pkgs| == 1 then
      var a :| a in pkgs; pkgs[a]
    else
      var a, b :| a in pkgs && b in pkgs && pkgs[a].name + "_test" == pkgs[b].name;
      if testPackage then pkgs[b] else pkgs[a]
  }

  /** A map with one key has no other. */
  lemma OneKey(pkgs: map<string, Ast.Package>, a: string, b: string)
    requires |pkgs| == 1 && a in pkgs && b in pkgs
    ensures a == b
  {
    if a != b {
      assert {a, b} <= pkgs.Keys;
      assert |{a, b}| == 2;
      SubsetSize({a, b}, pkgs.Keys);
    }
  }

  /** A map with two keys has no third. */
  lemma TwoKeys(pkgs: map<string, Ast.Package>, a: string, b: string, c: string)
    requires |pkgs| == 2 && a in pkgs && b in pkgs && c in pkgs && a != b
    ensures c == a || c == b
  {
    if c != a && c != b {
      assert {a, b, c} <= pkgs.Keys;
      assert |{a, b, c}| == 3;
      SubsetSize({a, b, c}, pkgs.Keys);
    }
  }

  lemma SubsetSize(s: set<string>, t: set<string>)
    requires s <= t
    ensures |s| <= |t|
  {
    assert t == s + (t - s);
  }

  /** A single package is the one chosen. */
  lemma ChosenOne(pkgs: map<string, Ast.Package>, a: string, testPackage: bool)
    requires |pkgs| == 1 && a in pkgs
    ensures Selectable(pkgs) && Chosen(pkgs, testPackage) == pkgs[a]
  {
    var c :| c in pkgs && Chosen(pkgs, testPackage) == pkgs[c];
    OneKey(pkgs, a, c);
  }

  /** Of two packages, `x` named no longer than `y`, a target and its
      `_test` package can only be `x` and `y` in that order. */
  lemma ChosenTwo(pkgs: map<string, Ast.Package>, x: string, y: string, testPackage: bool)
    requires |pkgs| == 2 && x in pkgs && y in pkgs && x != y && |pkgs[x].name| <= |pkgs[y].name|
    ensures TestPair(pkgs) <==> pkgs[x].name + "_test" == pkgs[y].name
    ensures TestPair(pkgs) ==> Chosen(pkgs, testPackage) == if testPackage then pkgs[y] else pkgs[x]
  {
    if TestPair(pkgs) {
      var u, v :| u in pkgs && v in pkgs && pkgs[u].name + "_test" == pkgs[v].name &&
                  Chosen(pkgs, testPackage) == if testPackage then pkgs[v] else pkgs[u];
      TwoKeys(pkgs, x, y, u);
      TwoKeys(pkgs, x, y, v);
    }
  }

  /** The target and `_test` check of `readDir` (read.go:126-141), for the
      one or two packages left: the shorter-named package must be the
      other's name without `_test`. */
  method SelectPackage(pkgs: map<string, Ast.Package>, testPackage: bool) returns (r: Result<Ast.Package, ReadError>)
    requires 0 < |pkgs| <= 2
    ensures r.Ok? <==> Selectable(pkgs)
    ensures r.Ok? ==> r.value == Chosen(pkgs, testPackage)
    ensures r.Err? ==> exists a, b :: a in pkgs && b in pkgs && a != b && |pkgs[a].name| <= |pkgs[b].name| &&
                                      r.error == MultipleNonTestPackages(pkgs[a].name, pkgs[b].name)
  {
    var a :| a in pkgs;
    var pkg := pkgs[a];
    if |pkgs| == 1 {
      ChosenOne(pkgs, a, testPackage);
      return Ok(pkg);
    }
    assert |pkgs.Keys - {a}| == 1;
    var b :| b in pkgs.Keys - {a};
    var testPkg := pkgs[b];
    ghost var x, y := a, b;
    if |pkg.name| > |testPkg.name| {
      pkg, testPkg := testPkg, pkg;
      x, y := b, a;
    }
    ChosenTwo(pkgs, x, y, testPackage);
    if pkg.name + "_test" != testPkg.name {
      return Err(MultipleNonTestPackages(pkg.name, testPkg.name));
    }
    if testPackage {
      pkg := testPkg;
    }
    r := Ok(pkg);
  }

  // ---------------------------------------------------------------------
  // Scanning the chosen package

  /** `sortFileNames`: the file names in ascending order. */
  method SortFileNames(src: map<string, Ast.File>) returns (names: seq<string>)
    ensures StrictlySorted(names) && |names| == |src|
    ensures forall n :: n in names <==> n in src
    ensures names == SortedKeys(src.Keys)
  {
    var keys: seq<string> := [];
    var rest := src.Keys;
    while rest != {}
      invariant forall i, j :: 0 <= i < j < |keys| ==> keys[i] != keys[j]
      invariant forall k :: k in src <==> k in keys || k in rest
      invariant forall k :: k in keys ==> k !in rest
      invariant |keys| + |rest| == |src|
      decreases |rest|
    {
      var k :| k in rest;
      keys := keys + [k];
      rest := rest - {k};
    }
    SortDistinctCorrect(keys);
    names := SortDistinct(keys);
    SortedKeysCorrect(src.Keys);
    StrictlySortedUnique(names, SortedKeys(src.Keys));
  }

  /** The files of `files` in the order of `names`. */
  function InOrder(files: map<string, Ast.File>, names: seq<string>): (r: seq<Ast.File>)
    requires forall n :: n in names ==> n in files
    ensures |r| == |names| && forall i :: 0 <= i < |names| ==> r[i] == files[names[i]]
  {
    seq(|names|, i requires 0 <= i < |names| => files[names[i]])
  }

  /** What a `Parser` holding `current` ends up with after `ScanFile` on
      each of `files` in turn, stopping at the first error. */
  function ScanSpec(current: Option<PackageModel>, files: seq<Ast.File>): (Option<PackageModel>, Option<Error>)
    decreases |files|
  {
    if files == [] then (current, None)
    else
      var (m, err) := ReadFileSpec(current, files[0]);
      if err.Some? then (Some(m), err) else ScanSpec(Some(m), files[1..])
  }

  /** The files of `pkg` in ascending file-name order. */
  ghost function ScanOrder(pkg: Ast.Package): seq<Ast.File>
  {
    SortedKeysCorrect(pkg.files.Keys);
    InOrder(pkg.files, SortedKeys(pkg.files.Keys))
  }

  /** The last loop of `readDir` (read.go:142-150): a fresh `Parser` scans
      the files of `pkg` in ascending file-name order and stops at the
      first error. */
  method ScanPackage(pkg: Ast.Package) returns (r: Result<Package, Error>)
    requires |pkg.files| > 0
    ensures ScanSpec(None, ScanOrder(pkg)).1.Some? ==> r == Err(ScanSpec(None, ScanOrder(pkg)).1.value)
    ensures ScanSpec(None, ScanOrder(pkg)).1.None? ==>
              r.Ok? && fresh(r.value) && r.value.Valid() && ScanSpec(None, ScanOrder(pkg)).0 == Some(r.value.Model())
  {
    var names := SortFileNames(pkg.files);
    var fs := seq(|names|, i requires 0 <= i < |names| => pkg.files[names[i]]);
    assert fs == ScanOrder(pkg);
    r := ScanFiles(fs);
  }

  /** `ScanFile` on each of `fs` in turn with a fresh `Parser`, stopping at
      the first error. */
  method ScanFiles(fs: seq<Ast.File>) returns (r: Result<Package, Error>)
    requires |fs| > 0
    ensures ScanSpec(None, fs).1.Some? ==> r == Err(ScanSpec(None, fs).1.value)
    ensures ScanSpec(None, fs).1.None? ==>
              r.Ok? && fresh(r.value) && r.value.Valid() && ScanSpec(None, fs).0 == Some(r.value.Model())
  {
    var p := new Parser.Parser();
    ghost var cur: Option<PackageModel> := None;
    var err: Option<Error> := None;
    var i := 0;
    while i < |fs| && err.None?
      invariant i <= |fs|
      invariant fresh(p)
      invariant i > 0 ==> p.pkg != null
      invariant p.pkg != null ==> fresh(p.pkg) && p.pkg.Valid()
      invariant p.pkg != null ==> forall j :: 0 <= j < |p.pkg.types| ==> fresh(p.pkg.types[j])
      invariant cur == if p.pkg == null then None else Some(p.pkg.Model())
      invariant err.None? ==> ScanSpec(cur, fs[i..]) == ScanSpec(None, fs)
      invariant err.Some? ==> (cur, err) == ScanSpec(None, fs)
    {
      ghost var before := cur;
      err := p.ReadFile(fs[i]);
      cur := Some(p.pkg.Model());
      ScanStep(before, fs, i, cur.value, err);
      i := i + 1;
    }
    if err.Some? {
      return Err(err.value);
    }
    return Ok(p.pkg);
  }

  /** One `ScanFile` of the scan. */
  lemma ScanStep(cur: Option<PackageModel>, fs: seq<Ast.File>, i: nat, m: PackageModel, err: Option<Error>)
    requires i < |fs| && (m, err) == ReadFileSpec(cur, fs[i])
    ensures ScanSpec(cur, fs[i..]) == if err.Some? then (Some(m), err) else ScanSpec(Some(m), fs[i + 1..])
  {
    assert fs[i..][1..] == fs[i + 1..];
  }

  // ---------------------------------------------------------------------
  // readDir

  /** `readDir` after `parser.ParseDir` (read.go:96-150): filters the
      files of `pkgMap` by their build constraints under `tags`, chooses
      the package and scans it. */
  method ReadDir(pkgMap: map<string, Ast.Package>, testPackage: bool, tags: map<string, bool>, syn: Syntax)
      returns (r: Result<Package, ReadError>)
    ensures r.Err? && r.error.ConstraintError? <==> SomePackageFails(pkgMap, syn)
    ensures r.Err? && r.error.ConstraintError? ==>
              exists p, f :: p in pkgMap && f in pkgMap[p].files &&
                             BuildDirectives(pkgMap[p].files[f], syn) == Err(r.error.msg)
    ensures !SomePackageFails(pkgMap, syn) ==>
              var kept := KeptPackages(pkgMap, syn, tags);
              && (|kept| == 0 ==> r.Ok? && fresh(r.value) && r.value.Valid() && r.value.Model() == EmptyPackage(""))
              && (|kept| > 2 ==> r == Err(MultiplePackages))
              && (|kept| == 2 && !TestPair(kept) ==>
                    exists a, b :: a in kept && b in kept && a != b && |kept[a].name| <= |kept[b].name| &&
                                   r == Err(MultipleNonTestPackages(kept[a].name, kept[b].name)))
              && (Selectable(kept) ==>
                    var (m, err) := ScanSpec(None, ScanOrder(Chosen(kept, testPackage)));
                    && (err.Some? ==> r == Err(ScanError(err.value)))
                    && (err.None? ==> r.Ok? && fresh(r.value) && r.value.Valid() && m == Some(r.value.Model())))
  {
    var filtered := FilterPackages(pkgMap, syn, tags);
    if filtered.Err? {
      return Err(ConstraintError(filtered.error));
    }
    var kept := filtered.value;
    if |kept| == 0 {
      var empty := new Package("");
      return Ok(empty);
    }
    if |kept| > 2 {
      return Err(MultiplePackages);
    }
    var sel := SelectPackage(kept, testPackage);
    if sel.Err? {
      return Err(sel.error);
    }
    var chosen := sel.value;
    assert chosen in kept.Values;
    assert |chosen.files| > 0;
    var scanned := ScanPackage(chosen);
    if scanned.Err? {
      return Err(ScanError(scanned.error));
    }
    r := Ok(scanned.value);
  }
}
