/** The slice-plus-map pattern every `put*` method of the package follows:
    an append-only sequence of entries and a map from an entry's name to the
    position of the newest entry of that name.

    `Index(keys)` is the map that putting the names `keys` one after another
    produces, starting from an empty (or nil) map. */
module Indexed {
  import opened Wrappers

  /** The map after putting `keys[0]`, ..., `keys[|keys|-1]` in turn:
      `idx[key] = len(slice)` before each append. */
  function Index(keys: seq<string>): map<string, int>
    decreases |keys|
  {
    if keys == [] then map[]
    else Index(keys[..|keys| - 1])[keys[|keys| - 1] := |keys| - 1]
  }

  /** Putting one more name updates only that name's position. */
  lemma IndexPut(keys: seq<string>, k: string)
    ensures Index(keys + [k]) == Index(keys)[k := |keys|]
  {
    assert (keys + [k])[..|keys|] == keys;
  }

  /** A name is indexed exactly when it was ever put, and then its position
      holds the newest entry of that name: entries put earlier under the same
      name stay in the sequence but no lookup reaches them. */
  lemma {:induction false} IndexIsNewest(keys: seq<string>)
    ensures forall k :: k in Index(keys) <==> k in keys
    ensures forall k :: k in Index(keys) ==>
      0 <= Index(keys)[k] < |keys| && keys[Index(keys)[k]] == k &&
      forall j :: Index(keys)[k] < j < |keys| ==> keys[j] != k
    decreases |keys|
  {
    if keys != [] {
      var init := keys[..|keys| - 1];
      assert keys == init + [keys[|keys| - 1]];
      IndexIsNewest(init);
    }
  }

  /** Position of the entry a lookup by `k` finds, or `None` when `k` was never put. */
  function Lookup(keys: seq<string>, k: string): (r: Option<nat>)
    ensures r.None? <==> k !in keys
    ensures r.Some? ==> r.value < |keys| && keys[r.value] == k
    ensures r.Some? ==> forall j :: r.value < j < |keys| ==> keys[j] != k
  {
    IndexIsNewest(keys);
    if k in Index(keys) then Some(Index(keys)[k] as nat) else None
  }

  /** After putting `k`, a lookup by `k` finds the new entry and a lookup by
      any other name finds what it found before. */
  lemma LookupPut(keys: seq<string>, k: string, n: string)
    ensures Lookup(keys + [k], n) == if n == k then Some(|keys|) else Lookup(keys, n)
  {
    IndexPut(keys, k);
    IndexIsNewest(keys);
    IndexIsNewest(keys + [k]);
  }
}
