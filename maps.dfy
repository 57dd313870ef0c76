/** Go map iteration and map building from a slice. A `range` over a map visits every key once,
    in an order the language leaves open; the model takes that order as given by RangeOrder. */
module Maps {

  /** No element occurs twice. */
  ghost predicate Distinct<T>(s: seq<T>)
  {
    forall i, j :: 0 <= i < j < |s| ==> s[i] != s[j]
  }

  /** The keys of `m` in the order one `range` loop visits them: each key exactly once. */
  method RangeOrder<K, V>(m: map<K, V>) returns (keys: seq<K>)
    ensures Distinct(keys)
    ensures forall k :: k in keys <==> k in m
  {
    keys := [];
    var pending := m.Keys;
    while pending != {}
      invariant pending <= m.Keys
      invariant forall k :: k in keys <==> k in m && k !in pending
      invariant Distinct(keys)
      decreases pending
    {
      var k :| k in pending;
      keys := keys + [k];
      pending := pending - {k};
    }
  }

  /** `m[key(x)] = x` for every x of `xs` in turn: the map a loop over the slice builds. */
  function KeyedBy<T>(xs: seq<T>, key: T -> string): (r: map<string, T>)
    ensures forall k :: k in r ==> exists i :: 0 <= i < |xs| && key(xs[i]) == k
    ensures forall i :: 0 <= i < |xs| ==> key(xs[i]) in r
    ensures forall k :: k in r ==> key(r[k]) == k && r[k] in xs
  {
    if |xs| == 0 then map[]
    else KeyedBy(xs[..|xs| - 1], key)[key(xs[|xs| - 1]) := xs[|xs| - 1]]
  }

  /** One more element of the slice: its key now maps to it. */
  lemma KeyedByNext<T>(xs: seq<T>, key: T -> string, i: nat)
    requires i < |xs|
    ensures KeyedBy(xs[..i + 1], key) == KeyedBy(xs[..i], key)[key(xs[i]) := xs[i]]
  {
    assert xs[..i + 1][..i] == xs[..i];
  }

  /** When two elements share a key, the later one wins. */
  lemma {:induction false} KeyedByLast<T>(xs: seq<T>, key: T -> string, i: nat)
    requires i < |xs|
    requires forall j :: i < j < |xs| ==> key(xs[j]) != key(xs[i])
    ensures KeyedBy(xs, key)[key(xs[i])] == xs[i]
  {
    if i < |xs| - 1 {
      KeyedByLast(xs[..|xs| - 1], key, i);
    }
  }
}
