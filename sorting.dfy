/** The order-based sorts of the source (slices.Sort, slices.SortFunc) are unstable library
    calls: what they promise is a sorted permutation, and nothing about ties. SortBy is an
    insertion sort that keeps exactly that promise. */
module Sorting {

  /** `le` is total and transitive on the elements of `s`. */
  ghost predicate TotalPreorderOn<T>(s: seq<T>, le: (T, T) -> bool)
  {
    && (forall a, b :: a in s && b in s ==> le(a, b) || le(b, a))
    && (forall a, b, c :: a in s && b in s && c in s && le(a, b) && le(b, c) ==> le(a, c))
  }

  /** Every element is `le` every later one. */
  ghost predicate SortedBy<T>(s: seq<T>, le: (T, T) -> bool)
  {
    forall i, j :: 0 <= i < j < |s| ==> le(s[i], s[j])
  }

  /** Returns the elements of `s`, each as often as in `s`, in `le` order. */
  method SortBy<T>(s: seq<T>, le: (T, T) -> bool) returns (r: seq<T>)
    requires TotalPreorderOn(s, le)
    ensures SortedBy(r, le)
    ensures multiset(r) == multiset(s)
  {
    r := [];
    var i := 0;
    while i < |s|
      invariant 0 <= i <= |s|
      invariant multiset(r) == multiset(s[..i])
      invariant forall k :: 0 <= k < |r| ==> r[k] in s
      invariant SortedBy(r, le)
    {
      r := Insert(r, s[i], le, s);
      assert s[..i + 1] == s[..i] + [s[i]];
      i := i + 1;
    }
    assert s[..i] == s;
  }

  /** Puts `x` into the sorted `r` after every element that is `le` it. */
  method Insert<T>(r: seq<T>, x: T, le: (T, T) -> bool, ghost s: seq<T>) returns (r': seq<T>)
    requires TotalPreorderOn(s, le) && x in s
    requires forall k :: 0 <= k < |r| ==> r[k] in s
    requires SortedBy(r, le)
    ensures multiset(r') == multiset(r) + multiset{x}
    ensures forall k :: 0 <= k < |r'| ==> r'[k] in s
    ensures SortedBy(r', le)
  {
    var j := 0;
    while j < |r| && le(r[j], x)
      invariant 0 <= j <= |r|
      invariant forall k :: 0 <= k < j ==> le(r[k], x)
    {
      j := j + 1;
    }
    if j < |r| {
      assert le(x, r[j]);
    }
    r' := r[..j] + [x] + r[j..];
    assert r == r[..j] + r[j..];
    InsertedSorted(r, x, j, le, s);
  }

  /** Placing `x` at position `j` keeps `r` sorted when everything before `j` is `le` x and
      `x` is `le` the element at `j`. */
  lemma InsertedSorted<T>(r: seq<T>, x: T, j: nat, le: (T, T) -> bool, s: seq<T>)
    requires TotalPreorderOn(s, le) && x in s
    requires forall k :: 0 <= k < |r| ==> r[k] in s
    requires SortedBy(r, le) && j <= |r|
    requires forall k :: 0 <= k < j ==> le(r[k], x)
    requires j < |r| ==> le(x, r[j])
    ensures SortedBy(r[..j] + [x] + r[j..], le)
  {
    var r' := r[..j] + [x] + r[j..];
    forall a, b | 0 <= a < b < |r'|
      ensures le(r'[a], r'[b])
    {
      if a < j && b == j {
      } else if a == j {
        assert r'[b] == r[b - 1];
        if b - 1 > j {
          assert le(r[j], r[b - 1]);
        }
      } else if b < j {
        assert r'[a] == r[a] && r'[b] == r[b];
      } else if a < j {
        assert r'[a] == r[a] && r'[b] == r[b - 1];
      } else {
        assert r'[a] == r[a - 1] && r'[b] == r[b - 1];
      }
    }
  }
}
