/** `regexp.MustCompile(`\s+`).Split(s, -1)`: the cut of a string at every
    maximal run of RE2 white space.  RE2's `\s` is exactly the five
    characters tab, newline, form feed, carriage return and space.

    Go's `Regexp.Split` returns `[""]` for the empty string and otherwise one
    piece before every match plus the piece after the last one, so a leading
    or trailing run yields an empty first or last piece. */
module TextSplit {

  predicate IsSpace(c: char)
  {
    c == '\t' || c == '\n' || c == '\U{000C}' || c == '\r' || c == ' '
  }

  /** Index of the first white-space character at or after `i`, or `|s|`. */
  function NextSpace(s: string, i: nat): (k: nat)
    requires i <= |s|
    ensures i <= k <= |s|
    ensures k < |s| ==> IsSpace(s[k])
    ensures forall j :: i <= j < k ==> !IsSpace(s[j])
    decreases |s| - i
  {
    if i == |s| || IsSpace(s[i]) then i else NextSpace(s, i + 1)
  }

  /** Index just after the run of white space starting at `i`. */
  function RunEnd(s: string, i: nat): (k: nat)
    requires i <= |s|
    ensures i <= k <= |s|
    ensures k < |s| ==> !IsSpace(s[k])
    ensures forall j :: i <= j < k ==> IsSpace(s[j])
    decreases |s| - i
  {
    if i < |s| && IsSpace(s[i]) then RunEnd(s, i + 1) else i
  }

  /** The pieces of `s` between the maximal white-space runs. */
  function Split(s: string): seq<string>
    decreases |s|
  {
    var i := NextSpace(s, 0);
    if i == |s| then [s]
    else
      var j := RunEnd(s, i);
      [s[..i]] + Split(s[j..])
  }

  /** Number of maximal white-space runs in `s`, counted left to right:
      a white-space character starts a run unless the one before it was
      white space too. */
  function Runs(s: string): nat
  {
    RunsAfter(s, false)
  }

  function RunsAfter(s: string, afterSpace: bool): nat
    decreases |s|
  {
    if s == [] then 0
    else (if IsSpace(s[0]) && !afterSpace then 1 else 0) + RunsAfter(s[1..], IsSpace(s[0]))
  }

  /** The characters of `s` that are not white space, in order. */
  function Squeeze(s: string): string
    decreases |s|
  {
    if s == [] then ""
    else (if IsSpace(s[0]) then "" else [s[0]]) + Squeeze(s[1..])
  }

  function Concat(xs: seq<string>): string
  {
    if xs == [] then "" else xs[0] + Concat(xs[1..])
  }

  lemma {:induction false} RunsAfterWord(w: string, t: string, afterSpace: bool)
    requires forall j :: 0 <= j < |w| ==> !IsSpace(w[j])
    requires w != [] || !afterSpace
    ensures RunsAfter(w + t, afterSpace) == RunsAfter(t, false)
    decreases |w|
  {
    if w == [] {
      assert w + t == t;
    } else {
      assert (w + t)[1..] == w[1..] + t;
      RunsAfterWord(w[1..], t, false);
    }
  }

  lemma {:induction false} RunsAfterSpaces(sp: string, t: string)
    requires forall j :: 0 <= j < |sp| ==> IsSpace(sp[j])
    requires t == [] || !IsSpace(t[0])
    ensures RunsAfter(sp + t, true) == RunsAfter(t, false)
    decreases |sp|
  {
    if sp == [] {
      assert sp + t == t;
    } else {
      assert (sp + t)[1..] == sp[1..] + t;
      RunsAfterSpaces(sp[1..], t);
    }
  }

  /** There is one more piece than there are white-space runs; in particular
      the empty string gives one (empty) piece. */
  lemma {:induction false} SplitCount(s: string)
    ensures |Split(s)| == Runs(s) + 1
    decreases |s|
  {
    var i := NextSpace(s, 0);
    if i == |s| {
      assert s + [] == s;
      RunsAfterWord(s, [], false);
    } else {
      var j := RunEnd(s, i);
      assert Split(s) == [s[..i]] + Split(s[j..]);
      SplitCount(s[j..]);
      RunsStep(s, i, j);
    }
  }

  /** A word up to `i`, then a white-space run up to `j`, then a string not
      starting with white space: that run counts once and the rest counts on
      its own. */
  lemma RunsStep(s: string, i: nat, j: nat)
    requires i < j <= |s|
    requires forall k :: 0 <= k < i ==> !IsSpace(s[k])
    requires forall k :: i <= k < j ==> IsSpace(s[k])
    requires j < |s| ==> !IsSpace(s[j])
    ensures RunsAfter(s, false) == 1 + RunsAfter(s[j..], false)
  {
    var w, sp, t := s[..i], s[i..j], s[j..];
    WordThenRun(s, i, j);
    RunsAfterWord(w, sp + t, false);
    assert (sp + t)[0] == s[i] && (sp + t)[1..] == sp[1..] + t;
    forall k | 0 <= k < |sp| - 1
      ensures IsSpace(sp[1..][k])
    {
      assert sp[1..][k] == sp[k + 1];
    }
    assert t != [] ==> t[0] == s[j];
    RunsAfterSpaces(sp[1..], t);
  }

  /** `s` cut into a word before `i`, a white-space run up to `j` and the
      rest. */
  lemma WordThenRun(s: string, i: nat, j: nat)
    requires i <= j <= |s|
    requires forall k :: 0 <= k < i ==> !IsSpace(s[k])
    requires forall k :: i <= k < j ==> IsSpace(s[k])
    ensures s == s[..i] + (s[i..j] + s[j..])
    ensures forall k :: 0 <= k < i ==> !IsSpace(s[..i][k])
    ensures forall k :: 0 <= k < j - i ==> IsSpace(s[i..j][k])
  {
    assert s == s[..i] + (s[i..j] + s[j..]);
    forall k | 0 <= k < j - i
      ensures IsSpace(s[i..j][k])
    {
      assert s[i..j][k] == s[i + k];
    }
  }

  /** No piece holds white space. */
  lemma {:induction false} SplitPiecesHaveNoSpace(s: string)
    ensures forall p :: p in Split(s) ==> forall k :: 0 <= k < |p| ==> !IsSpace(p[k])
    decreases |s|
  {
    var i := NextSpace(s, 0);
    if i < |s| {
      SplitPiecesHaveNoSpace(s[RunEnd(s, i)..]);
    }
  }

  lemma {:induction false} SqueezeAppend(a: string, b: string)
    ensures Squeeze(a + b) == Squeeze(a) + Squeeze(b)
    decreases |a|
  {
    if a != [] {
      assert (a + b)[1..] == a[1..] + b;
      SqueezeAppend(a[1..], b);
    } else {
      assert a + b == b;
    }
  }

  lemma {:induction false} SqueezeSpaceFree(s: string, spaces: bool)
    requires forall j :: 0 <= j < |s| ==> IsSpace(s[j]) == spaces
    ensures spaces ==> Squeeze(s) == ""
    ensures !spaces ==> Squeeze(s) == s
    decreases |s|
  {
    if s != [] {
      SqueezeSpaceFree(s[1..], spaces);
      assert s == [s[0]] + s[1..];
    }
  }

  lemma {:induction false} SqueezeWordThenSpaces(w: string, sp: string, t: string)
    requires forall j :: 0 <= j < |w| ==> !IsSpace(w[j])
    requires forall j :: 0 <= j < |sp| ==> IsSpace(sp[j])
    ensures Squeeze(w + (sp + t)) == w + Squeeze(t)
  {
    SqueezeAppend(w, sp + t);
    SqueezeAppend(sp, t);
    SqueezeSpaceFree(w, false);
    SqueezeSpaceFree(sp, true);
    assert Squeeze(sp + t) == Squeeze(t);
  }

  /** Splitting loses exactly the white space: the pieces put back together
      are the string with its white-space characters removed. */
  lemma {:induction false} SplitKeepsText(s: string)
    ensures Concat(Split(s)) == Squeeze(s)
    decreases |s|
  {
    var i := NextSpace(s, 0);
    if i == |s| {
      SqueezeSpaceFree(s, false);
    } else {
      var j := RunEnd(s, i);
      var w, sp, t := s[..i], s[i..j], s[j..];
      var rest := Split(t);
      assert Split(s) == [w] + rest;
      assert ([w] + rest)[1..] == rest;
      assert Concat(Split(s)) == w + Concat(rest);
      SplitKeepsText(t);
      WordThenRun(s, i, j);
      SqueezeWordThenSpaces(w, sp, t);
    }
  }

  /** A string without white space is its own single piece: a comma, for
      instance, separates nothing. */
  lemma SplitSpaceFree(s: string)
    requires forall j :: 0 <= j < |s| ==> !IsSpace(s[j])
    ensures Split(s) == [s]
  {
  }
}
