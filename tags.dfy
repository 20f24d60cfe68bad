/** Struct-field tags: the `key:"value"` lexer of srcdom.go (the convention
    of `reflect.StructTag.Lookup`), the indexed collection of its pairs, and
    the query operations `has` and `match`.

    A `Tag` is a value here.  In the source it is a pointer that `parseTag`
    fills through `putTagValue` before handing it out, and that nothing
    changes afterwards. */
module Tags {
  import opened Wrappers
  import opened Indexed
  import opened TextSplit
  import opened Strconv

  /** One `key:"value"` pair: its key, its unquoted value and the value's
      white-space separated tokens. */
  datatype TagValue = TagValue(name: string, raw: string, values: seq<string>)
  {
    /** `TagValue.has`: some token equals `value` exactly. */
    predicate Has(value: string)
    {
      HasToken(values, value)
    }
  }

  predicate HasToken(tokens: seq<string>, value: string)
  {
    exists i :: 0 <= i < |tokens| && tokens[i] == value
  }

  /** `parseTagValue`: the value split at every run of white space. */
  function ParseTagValue(name: string, s: string): TagValue
  {
    TagValue(name, s, Split(s))
  }

  /** A pair keeps its key and raw value; its tokens are one more than the
      value's white-space runs, hold no white space, and put back together
      give the value without its white space. */
  lemma ParseTagValueTokens(name: string, s: string)
    ensures ParseTagValue(name, s).name == name && ParseTagValue(name, s).raw == s
    ensures |ParseTagValue(name, s).values| == Runs(s) + 1
    ensures forall t :: t in ParseTagValue(name, s).values ==> forall k :: 0 <= k < |t| ==> !IsSpace(t[k])
    ensures Concat(ParseTagValue(name, s).values) == Squeeze(s)
  {
    SplitCount(s);
    SplitPiecesHaveNoSpace(s);
    SplitKeepsText(s);
  }

  function Names(vs: seq<TagValue>): (r: seq<string>)
    ensures |r| == |vs| && forall i :: 0 <= i < |vs| ==> r[i] == vs[i].name
  {
    seq(|vs|, i requires 0 <= i < |vs| => vs[i].name)
  }

  /** A parsed tag: the raw text, the pairs in order and the index from key
      to the newest pair with that key. */
  datatype Tag = Tag(raw: string, values: seq<TagValue>, valueIdx: map<string, int>)
  {
    ghost predicate Valid()
    {
      valueIdx == Index(Names(values))
    }

    /** `Tag.TagValue`: the newest pair with key `n`; the source reports
        `false` as its second result even when it finds one. */
    function TagValue(n: string): (r: (Option<TagValue>, bool))
      requires Valid()
      ensures !r.1
      ensures r.0.None? <==> n !in Names(values)
      ensures r.0.Some? ==> r.0.value.name == n
      ensures r.0.Some? ==> exists i :: 0 <= i < |values| && values[i] == r.0.value &&
                                        forall j :: i < j < |values| ==> values[j].name != n
    {
      IndexIsNewest(Names(values));
      if n in valueIdx then (Some(values[valueIdx[n]]), false) else (None, false)
    }

    /** `putTagValue`: appends `v` and points its key at the new slot. */
    function PutTagValue(v: TagValue): (t: Tag)
      requires Valid()
      ensures t.Valid()
      ensures t.raw == raw && t.values == values + [v]
      ensures t.valueIdx == valueIdx[v.name := |values|]
    {
      assert Names(values + [v]) == Names(values) + [v.name];
      IndexPut(Names(values), v.name);
      Tag(raw, values + [v], valueIdx[v.name := |values|])
    }

    /** `match`: some pair has key `name` and, when a value is asked for,
        a token equal to it. */
    function Match(name: string, value: Option<string>): (r: bool)
      ensures r <==> exists i :: 0 <= i < |values| && values[i].name == name &&
                                 (value.None? || values[i].Has(value.value))
    {
      MatchIn(values, name, value)
    }
  }

  function MatchIn(vs: seq<TagValue>, name: string, value: Option<string>): (r: bool)
    ensures r <==> exists i :: 0 <= i < |vs| && vs[i].name == name &&
                               (value.None? || vs[i].Has(value.value))
  {
    if vs == [] then false
    else if vs[0].name == name && (value.None? || vs[0].Has(value.value)) then true
    else
      assert forall i :: 1 <= i < |vs| ==> vs[i] == vs[1..][i - 1];
      MatchIn(vs[1..], name, value)
  }

  /** A byte that may appear in a key: above space, not `:`, `"` or DEL. */
  predicate KeyChar(c: char)
  {
    c > ' ' && c != ':' && c != '"' && c != '\U{007F}'
  }

  /** End of the run of spaces (0x20 only) starting at `i`. */
  function SkipSpaces(s: string, i: nat): (k: nat)
    requires i <= |s|
    ensures i <= k <= |s| && (k < |s| ==> s[k] != ' ')
    decreases |s| - i
  {
    if i < |s| && s[i] == ' ' then SkipSpaces(s, i + 1) else i
  }

  /** End of the run of key characters starting at `i`. */
  function KeyEnd(s: string, i: nat): (k: nat)
    requires i <= |s|
    ensures i <= k <= |s| && (k < |s| ==> !KeyChar(s[k]))
    ensures forall j :: i <= j < k ==> KeyChar(s[j])
    decreases |s| - i
  {
    if i < |s| && KeyChar(s[i]) then KeyEnd(s, i + 1) else i
  }

  /** Position of the closing quote when scanning from `i`, a backslash
      skipping the character after it; `|s|` or more when there is none. */
  function QuoteEnd(s: string, i: nat): (k: nat)
    requires i <= |s| + 1
    ensures i <= k <= |s| + 1 && (k < |s| ==> s[k] == '"')
    decreases |s| + 2 - i
  {
    if i < |s| && s[i] != '"' then
      (if s[i] == '\\' then QuoteEnd(s, i + 2) else QuoteEnd(s, i + 1))
    else i
  }

  /** One pass of the lexer's loop: the pair at the front of `tag` and what
      follows it, or `None` when the loop stops there. */
  datatype Scan = Scan(pair: TagValue, rest: string)

  function Step(tag: string): (r: Option<Scan>)
    ensures r.Some? ==> |r.value.rest| < |tag|
  {
    Lex(tag[SkipSpaces(tag, 0)..])
  }

  /** The pass after the leading spaces are skipped. */
  function Lex(t: string): (r: Option<Scan>)
    ensures r.Some? ==> |r.value.rest| < |t|
  {
    if t == "" then None else LexKey(t, KeyEnd(t, 0))
  }

  /** The key ends at `k`; it must be followed by `:"`. */
  function LexKey(t: string, k: nat): (r: Option<Scan>)
    requires k <= |t|
    ensures r.Some? ==> |r.value.rest| < |t|
  {
    if k == 0 || k + 1 >= |t| || t[k] != ':' || t[k + 1] != '"' then None
    else LexValue(t[..k], t[k + 1..])
  }

  /** `u` starts with the opening quote of the value of key `name`. */
  function LexValue(name: string, u: string): (r: Option<Scan>)
    requires u != []
    ensures r.Some? ==> |r.value.rest| < |u|
  {
    var e := QuoteEnd(u, 1);
    if e >= |u| then None
    else
      match Unquote(u[..e + 1])
      case None => None
      case Some(v) => Some(Scan(ParseTagValue(name, v), u[e + 1..]))
  }

  /** All pairs `parseTag` records, left to right. */
  function Pairs(tag: string): seq<TagValue>
    decreases |tag|
  {
    match Step(tag)
    case None => []
    case Some(sc) => [sc.pair] + Pairs(sc.rest)
  }

  /** The tag `parseTag(raw)` returns. */
  function ParsedTag(raw: string): Tag
  {
    Tag(raw, Pairs(raw), Index(Names(Pairs(raw))))
  }

  /** `parseTag`: lexes `key:"value"` pairs until the text ends or stops
      being well formed; whatever was recorded up to then is kept. */
  method ParseTag(tag0: string) returns (dst: Tag)
    ensures dst == ParsedTag(tag0)
  {
    dst := Tag(tag0, [], map[]);
    var tag := tag0;
    ghost var stopped := false;
    while tag != ""
      invariant dst.raw == tag0 && dst.Valid()
      invariant dst.values + Pairs(tag) == Pairs(tag0)
      invariant !stopped
      decreases |tag|
    {
      ghost var start := tag;
      // Skip leading space.
      var i := 0;
      while i < |tag| && tag[i] == ' '
        invariant i <= |tag| && SkipSpaces(tag, i) == SkipSpaces(tag, 0)
      {
        i := i + 1;
      }
      tag := tag[i..];
      assert Step(start) == Lex(tag);
      if tag == "" {
        PairsStop(start);
        stopped := true;
        break;
      }
      // Scan to colon.
      i := 0;
      while i < |tag| && KeyChar(tag[i])
        invariant i <= |tag| && KeyEnd(tag, i) == KeyEnd(tag, 0)
      {
        i := i + 1;
      }
      assert Step(start) == LexKey(tag, i);
      if i == 0 || i + 1 >= |tag| || tag[i] != ':' || tag[i + 1] != '"' {
        PairsStop(start);
        stopped := true;
        break;
      }
      var name := tag[..i];
      tag := tag[i + 1..];
      ghost var u := tag;
      assert Step(start) == LexValue(name, u);
      // Scan quoted string to find value.
      i := 1;
      while i < |tag| && tag[i] != '"'
        invariant 1 <= i <= |tag| + 1 && QuoteEnd(tag, i) == QuoteEnd(tag, 1)
        decreases |tag| + 2 - i
      {
        if tag[i] == '\\' {
          i := i + 1;
        }
        i := i + 1;
      }
      assert QuoteEnd(u, 1) == i;
      if i >= |tag| {
        PairsStop(start);
        stopped := true;
        break;
      }
      var qvalue := tag[..i + 1];
      tag := tag[i + 1..];
      var value := Unquote(qvalue);
      LexValueAt(name, u, i);
      if value.None? {
        PairsStop(start);
        stopped := true;
        break;
      }
      var tv := ParseTagValue(name, value.value);
      PairsNext(start, dst.values, tv, tag);
      dst := dst.PutTagValue(tv);
    }
    if stopped {
      assert dst.values + [] == Pairs(tag0);
    } else {
      PairsStop(tag);
    }
    assert dst.values == Pairs(tag0);
  }

  lemma LexValueAt(name: string, u: string, e: nat)
    requires e < |u| && QuoteEnd(u, 1) == e
    ensures LexValue(name, u) ==
      if Unquote(u[..e + 1]).None? then None
      else Some(Scan(ParseTagValue(name, Unquote(u[..e + 1]).value), u[e + 1..]))
  {
  }

  lemma PairsStop(tag: string)
    requires tag == [] || Step(tag).None?
    ensures Pairs(tag) == []
  {
  }

  lemma PairsNext(tag: string, done: seq<TagValue>, tv: TagValue, rest: string)
    requires Step(tag) == Some(Scan(tv, rest))
    ensures done + Pairs(tag) == (done + [tv]) + Pairs(rest)
  {
    assert Pairs(tag) == [tv] + Pairs(rest);
    ConcatAssoc(done, [tv], Pairs(rest));
  }

  /** Every recorded key is non-empty and made of key characters only. */
  lemma {:induction false} PairKeysAreKeys(tag: string)
    ensures forall p :: p in Pairs(tag) ==> p.name != "" && forall k :: 0 <= k < |p.name| ==> KeyChar(p.name[k])
    decreases |tag|
  {
    match Step(tag)
    case None =>
    case Some(sc) =>
      PairKeysAreKeys(sc.rest);
  }

  /** A tag whose front cannot be lexed records nothing. */
  lemma MalformedRecordsNothing(tag: string)
    requires Step(tag).None?
    ensures Pairs(tag) == [] && ParsedTag(tag).values == []
  {
  }

  /** A key in the sense of the lexer, and a value that needs no escaping. */
  ghost predicate WellFormedPair(k: string, v: string)
  {
    k != "" && (forall i :: 0 <= i < |k| ==> KeyChar(k[i])) &&
    (forall i :: 0 <= i < |v| ==> v[i] != '"' && v[i] != '\\' && v[i] != '\n')
  }

  /** The text `k:"v" ` for each pair, one after another. */
  function Format(kvs: seq<(string, string)>): string
  {
    if kvs == [] then "" else PairText(kvs[0].0, kvs[0].1) + " " + Format(kvs[1..])
  }

  /** What the lexer records for `kvs`. */
  function Expected(kvs: seq<(string, string)>): seq<TagValue>
  {
    if kvs == [] then [] else [ParseTagValue(kvs[0].0, kvs[0].1)] + Expected(kvs[1..])
  }

  lemma {:induction false} SkipSpacesShift(s: string, i: nat)
    requires i <= |s|
    ensures SkipSpaces(" " + s, i + 1) == SkipSpaces(s, i) + 1
    decreases |s| - i
  {
    if i < |s| && s[i] == ' ' {
      SkipSpacesShift(s, i + 1);
    }
  }

  /** Leading spaces are skipped before each pair. */
  lemma StepAfterSpace(s: string)
    ensures Step(" " + s) == Step(s)
  {
    SkipSpacesShift(s, 0);
    assert (" " + s)[SkipSpaces(" " + s, 0)..] == s[SkipSpaces(s, 0)..];
  }

  lemma {:induction false} KeyEndOfKey(k: string, rest: string)
    requires forall i :: 0 <= i < |k| ==> KeyChar(k[i])
    requires rest != [] && rest[0] == ':'
    ensures KeyEnd(k + rest, 0) == |k|
  {
    var s := k + rest;
    var i := 0;
    while i < |k|
      invariant i <= |k| && KeyEnd(s, i) == KeyEnd(s, 0)
    {
      i := i + 1;
    }
  }

  lemma {:induction false} QuoteEndPlain(v: string, rest: string, i: nat)
    requires forall j :: 0 <= j < |v| ==> v[j] != '"' && v[j] != '\\'
    requires 1 <= i <= |v| + 1
    ensures QuoteEnd("\"" + v + "\"" + rest, i) == |v| + 1
    decreases |v| + 1 - i
  {
    var u := "\"" + v + "\"" + rest;
    assert u[|v| + 1] == '"';
    if i <= |v| {
      assert u[i] == v[i - 1];
      QuoteEndPlain(v, rest, i + 1);
    }
  }

  function PairText(k: string, v: string): string
  {
    k + ":\"" + v + "\""
  }

  /** A well-formed pair at the front is recorded and lexing resumes right
      after its closing quote. */
  lemma StepPair(k: string, v: string, rest: string)
    requires WellFormedPair(k, v)
    ensures Step(PairText(k, v) + rest) == Some(Scan(ParseTagValue(k, v), rest))
  {
    var tag := PairText(k, v) + rest;
    assert tag[0] == k[0];
    assert tag[SkipSpaces(tag, 0)..] == tag;
    var u := "\"" + v + "\"" + rest;
    assert tag == k + (":" + u);
    KeyEndOfKey(k, ":" + u);
    assert LexKey(tag, |k|) == LexValue(k, u) by {
      assert tag[..|k|] == k && tag[|k| + 1..] == u;
    }
    QuoteEndPlain(v, rest, 1);
    assert u[..|v| + 2] == "\"" + v + "\"";
    QuotedRoundTrip(v);
    assert u[|v| + 2..] == rest;
  }

  /** Lexing well-formed pairs followed by any text records those pairs, in
      order, and then whatever the text yields: `Format(kvs)` lexes back to
      `kvs` exactly, and a malformed remainder keeps the pairs before it. */
  lemma {:induction false} PairsOfFormat(kvs: seq<(string, string)>, tail: string)
    requires forall i :: 0 <= i < |kvs| ==> WellFormedPair(kvs[i].0, kvs[i].1)
    ensures Pairs(Format(kvs) + tail) == Expected(kvs) + Pairs(tail)
    decreases |kvs|
  {
    if kvs == [] {
      assert Format(kvs) + tail == tail;
    } else {
      var pv, rest := ParseTagValue(kvs[0].0, kvs[0].1), Expected(kvs[1..]);
      assert Pairs(Format(kvs[1..]) + tail) == rest + Pairs(tail) by {
        assert forall i :: 0 <= i < |kvs[1..]| ==> kvs[1..][i] == kvs[i + 1];
        PairsOfFormat(kvs[1..], tail);
      }
      assert Pairs(Format(kvs) + tail) == [pv] + Pairs(Format(kvs[1..]) + tail) by {
        PairsOfFormatStep(kvs, tail);
      }
      assert Expected(kvs) == [pv] + rest;
      ConcatAssoc([pv], rest, Pairs(tail));
    }
  }

  lemma ConcatAssoc<T>(a: seq<T>, b: seq<T>, c: seq<T>)
    ensures a + (b + c) == (a + b) + c
  {
  }

  lemma PairsOfFormatStep(kvs: seq<(string, string)>, tail: string)
    requires kvs != [] && WellFormedPair(kvs[0].0, kvs[0].1)
    ensures Pairs(Format(kvs) + tail) == [ParseTagValue(kvs[0].0, kvs[0].1)] + Pairs(Format(kvs[1..]) + tail)
  {
    FormatCons(kvs, tail);
    PairsPair(kvs[0].0, kvs[0].1, Format(kvs[1..]) + tail);
  }

  lemma FormatCons(kvs: seq<(string, string)>, tail: string)
    requires kvs != []
    ensures Format(kvs) + tail == PairText(kvs[0].0, kvs[0].1) + (" " + (Format(kvs[1..]) + tail))
  {
  }

  lemma PairsPair(k: string, v: string, after: string)
    requires WellFormedPair(k, v)
    ensures Pairs(PairText(k, v) + (" " + after)) == [ParseTagValue(k, v)] + Pairs(after)
  {
    StepPair(k, v, " " + after);
    StepAfterSpace(after);
  }

  /** A value without white space is a single token, whatever else it
      holds (commas are not separators): with such a pair at the front,
      `match` finds its key with and without the whole value as the query,
      and no other string is one of that pair's tokens. */
  lemma SpaceFreeValueIsOneToken(k: string, v: string, rest: string)
    requires WellFormedPair(k, v)
    requires forall i :: 0 <= i < |v| ==> !IsSpace(v[i])
    ensures var t := ParsedTag(PairText(k, v) + rest);
      t.values != [] && t.values[0] == TagValue(k, v, [v]) &&
      t.Match(k, None) && t.Match(k, Some(v)) &&
      forall w :: t.values[0].Has(w) <==> w == v
  {
    FrontPairRecorded(k, v, rest);
    SplitSpaceFree(v);
    var t := ParsedTag(PairText(k, v) + rest);
    assert t.values[0] == TagValue(k, v, [v]);
    OneTokenHas(t.values[0], v);
  }

  lemma FrontPairRecorded(k: string, v: string, rest: string)
    requires WellFormedPair(k, v)
    ensures ParsedTag(PairText(k, v) + rest).values == [ParseTagValue(k, v)] + Pairs(rest)
  {
    StepPair(k, v, rest);
  }

  lemma OneTokenHas(tv: TagValue, v: string)
    requires tv.values == [v]
    ensures forall w :: tv.Has(w) <==> w == v
  {
    assert tv.values[0] == v;
  }
}
