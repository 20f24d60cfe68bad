/** The pieces of Go's `strings` and `sort` packages the model relies on:
    the ordering of strings, sorting a slice of distinct strings, and joining
    strings with a separator.

    Go compares strings byte by byte.  Strings are sequences of characters
    here; comparing code points gives the same order as comparing their UTF-8
    encodings, so `Less` is Go's `<` on strings. */
module GoStrings {

  /** Go's `a < b` on strings: lexicographic, a proper prefix is smaller. */
  predicate Less(a: string, b: string)
    decreases |a|
  {
    if |a| == 0 then |b| > 0
    else if |b| == 0 then false
    else a[0] < b[0] || (a[0] == b[0] && Less(a[1..], b[1..]))
  }

  lemma {:induction false} LessIrreflexive(a: string)
    ensures !Less(a, a)
    decreases |a|
  {
    if |a| > 0 {
      LessIrreflexive(a[1..]);
    }
  }

  lemma {:induction false} LessTransitive(a: string, b: string, c: string)
    requires Less(a, b) && Less(b, c)
    ensures Less(a, c)
    decreases |a|
  {
    if |a| > 0 && a[0] == b[0] && b[0] == c[0] {
      LessTransitive(a[1..], b[1..], c[1..]);
    }
  }

  /** Any two different strings are ordered one way or the other. */
  lemma {:induction false} LessTotal(a: string, b: string)
    requires a != b
    ensures Less(a, b) || Less(b, a)
    decreases |a|
  {
    if |a| > 0 && |b| > 0 && a[0] == b[0] {
      assert a == [a[0]] + a[1..] && b == [b[0]] + b[1..];
      LessTotal(a[1..], b[1..]);
    }
  }

  lemma {:induction false} LessAsymmetric(a: string, b: string)
    requires Less(a, b)
    ensures !Less(b, a)
  {
    if Less(b, a) {
      LessTransitive(a, b, a);
      LessIrreflexive(a);
    }
  }

  /** Strictly ascending: what `sort.Strings` produces from distinct strings. */
  ghost predicate StrictlySorted(s: seq<string>)
  {
    forall i, j :: 0 <= i < j < |s| ==> Less(s[i], s[j])
  }

  /** Inserts `x` at its place in ascending `s`. */
  function Insert(s: seq<string>, x: string): seq<string>
  {
    if s == [] then [x]
    else if Less(x, s[0]) then [x] + s
    else [s[0]] + Insert(s[1..], x)
  }

  lemma {:induction false} InsertSorted(s: seq<string>, x: string)
    requires StrictlySorted(s) && x !in s
    ensures StrictlySorted(Insert(s, x))
    ensures |Insert(s, x)| == |s| + 1
    ensures forall y :: y in Insert(s, x) <==> y in s || y == x
  {
    if s == [] {
    } else if Less(x, s[0]) {
      forall j | 0 < j < |s| ensures Less(x, s[j]) {
        LessTransitive(x, s[0], s[j]);
      }
    } else {
      LessTotal(x, s[0]);
      assert s == [s[0]] + s[1..];
      InsertSorted(s[1..], x);
      var t := Insert(s[1..], x);
      forall k | 0 <= k < |t| ensures Less(s[0], t[k]) {
        assert t[k] in t;
      }
    }
  }

  /** Sorts distinct strings ascending, as `sort.Strings` does. */
  function SortDistinct(s: seq<string>): seq<string>
  {
    if s == [] then [] else Insert(SortDistinct(s[..|s| - 1]), s[|s| - 1])
  }

  /** The sort of distinct strings is strictly ascending and holds exactly
      the same strings. */
  lemma {:induction false} SortDistinctCorrect(s: seq<string>)
    requires forall i, j :: 0 <= i < j < |s| ==> s[i] != s[j]
    ensures StrictlySorted(SortDistinct(s))
    ensures |SortDistinct(s)| == |s|
    ensures forall y :: y in SortDistinct(s) <==> y in s
  {
    if s != [] {
      var init, last := s[..|s| - 1], s[|s| - 1];
      assert s == init + [last];
      SortDistinctCorrect(init);
      InsertSorted(SortDistinct(init), last);
    }
  }

  /** A strictly sorted sequence holds no duplicates. */
  lemma StrictlySortedDistinct(s: seq<string>)
    requires StrictlySorted(s)
    ensures forall i, j :: 0 <= i < j < |s| ==> s[i] != s[j]
  {
    forall i, j | 0 <= i < j < |s| ensures s[i] != s[j] {
      LessIrreflexive(s[i]);
    }
  }

  /** Some string of a non-empty set is not greater than any other. */
  lemma {:induction false} MinimumExists(ks: set<string>)
    requires ks != {}
    ensures exists m :: m in ks && forall k :: k in ks ==> !Less(k, m)
    decreases |ks|
  {
    var x :| x in ks;
    var rest := ks - {x};
    if rest == {} {
      forall k | k in ks ensures !Less(k, x) {
        assert k !in rest;
        LessIrreflexive(k);
      }
    } else {
      MinimumExists(rest);
      var y :| y in rest && forall k :: k in rest ==> !Less(k, y);
      var m := if Less(x, y) then x else y;
      forall k | k in ks ensures !Less(k, m) {
        if k == x {
          if Less(x, y) {
            LessIrreflexive(x);
          }
        } else {
          assert k in rest;
          if Less(x, y) && Less(k, x) {
            LessTransitive(k, x, y);
          }
        }
      }
      assert m in ks;
    }
  }

  /** The least string of a non-empty set. */
  ghost function Least(ks: set<string>): (m: string)
    requires ks != {}
    ensures m in ks && forall k :: k in ks ==> !Less(k, m)
  {
    MinimumExists(ks);
    var m :| m in ks && forall k :: k in ks ==> !Less(k, m);
    m
  }

  /** A set of strings in ascending order, built by taking out the least
      string again and again: the reference order of a sorted key list. */
  ghost function SortedKeys(ks: set<string>): seq<string>
    decreases |ks|
  {
    if ks == {} then [] else [Least(ks)] + SortedKeys(ks - {Least(ks)})
  }

  /** `SortedKeys` is strictly ascending and holds exactly the set. */
  lemma {:induction false} SortedKeysCorrect(ks: set<string>)
    ensures StrictlySorted(SortedKeys(ks))
    ensures |SortedKeys(ks)| == |ks|
    ensures forall k :: k in SortedKeys(ks) <==> k in ks
    decreases |ks|
  {
    if ks != {} {
      var m := Least(ks);
      var rest := SortedKeys(ks - {m});
      SortedKeysCorrect(ks - {m});
      forall j | 0 <= j < |rest| ensures Less(m, rest[j]) {
        assert rest[j] in ks - {m};
        LessTotal(m, rest[j]);
      }
    }
  }

  /** Two strictly ascending sequences of the same strings are equal: a
      sorted key list is determined by its keys. */
  lemma {:induction false} StrictlySortedUnique(a: seq<string>, b: seq<string>)
    requires StrictlySorted(a) && StrictlySorted(b)
    requires forall x :: x in a <==> x in b
    ensures a == b
    decreases |a|
  {
    if a != [] {
      assert a[0] in b;
    }
    if b != [] {
      assert b[0] in a;
    }
    if a != [] {
      if a[0] != b[0] {
        var i :| 0 <= i < |a| && a[i] == b[0];
        var j :| 0 <= j < |b| && b[j] == a[0];
        assert Less(a[0], b[0]);
        assert Less(b[0], a[0]);
        LessAsymmetric(a[0], b[0]);
      }
      forall x ensures x in a[1..] <==> x in b[1..] {
        if x in a[1..] {
          var i :| 1 <= i < |a| && a[i] == x;
          assert Less(a[0], x);
          LessIrreflexive(x);
          assert x in b && x != b[0];
        }
        if x in b[1..] {
          var j :| 1 <= j < |b| && b[j] == x;
          assert Less(b[0], x);
          LessIrreflexive(x);
          assert x in a && x != a[0];
        }
      }
      StrictlySortedUnique(a[1..], b[1..]);
      assert a == [a[0]] + a[1..];
      assert b == [b[0]] + b[1..];
    }
  }

  /** `strings.Join`: the elements in order with `sep` between neighbours. */
  function Join(xs: seq<string>, sep: string): (r: string)
    ensures |xs| == 1 ==> r == xs[0]
    ensures xs == [] ==> r == ""
  {
    if xs == [] then ""
    else if |xs| == 1 then xs[0]
    else xs[0] + sep + Join(xs[1..], sep)
  }

  /** `n` copies of `s` one after another. */
  function Repeat(s: string, n: nat): (r: string)
    ensures |r| == n * |s|
  {
    if n == 0 then "" else s + Repeat(s, n - 1)
  }
}
