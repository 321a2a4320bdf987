/** An insertion sort by non-increasing integer key, standing for Python's
    `sorted(items, key=..., reverse=True)`: the result is ordered by
    non-increasing key and is a rearrangement of the input. Ties come out
    in reverse input order, where Python keeps input order. The inputs
    the source sorts this way (the files taken from the `last_modified`
    dict, a counter's items) come in dict order, which the source leaves
    unspecified, so neither tie order is the source's. The scan order of
    equally old files, and with it which of their records sets the first
    and last recorded times, is therefore a choice of this model. */
module Sorting {

  /** Keys that do not increase along the sequence. */
  predicate NonIncreasingBy<T>(s: seq<T>, key: T -> int)
  {
    forall i, j :: 0 <= i < j < |s| ==> key(s[i]) >= key(s[j])
  }

  /** Places `x` after every leading element whose key is at least its own. */
  function InsertBy<T>(x: T, s: seq<T>, key: T -> int): (r: seq<T>)
    ensures |r| == |s| + 1
    ensures r[0] == x || (s != [] && r[0] == s[0])
  {
    if s == [] then [x]
    else if key(s[0]) >= key(x) then [s[0]] + InsertBy(x, s[1..], key)
    else [x] + s
  }

  /** Inserting into an ordered sequence keeps it ordered. */
  lemma {:induction false} InsertSorted<T>(x: T, s: seq<T>, key: T -> int)
    requires NonIncreasingBy(s, key)
    ensures NonIncreasingBy(InsertBy(x, s, key), key)
  {
    if s != [] && key(s[0]) >= key(x) {
      var rest := InsertBy(x, s[1..], key);
      InsertSorted(x, s[1..], key);
      var r := [s[0]] + rest;
      assert key(s[0]) >= key(rest[0]);
      forall i, j | 0 <= i < j < |r| ensures key(r[i]) >= key(r[j]) {
        if i > 0 {
          assert r[i] == rest[i - 1] && r[j] == rest[j - 1];
        } else {
          assert r[j] == rest[j - 1];
          assert j - 1 == 0 || key(rest[0]) >= key(rest[j - 1]);
        }
      }
    }
  }

  /** Inserting adds exactly `x` to the multiset of elements. */
  lemma {:induction false} InsertPermutes<T>(x: T, s: seq<T>, key: T -> int)
    ensures multiset(InsertBy(x, s, key)) == multiset(s) + multiset{x}
  {
    if s != [] && key(s[0]) >= key(x) {
      InsertPermutes(x, s[1..], key);
      assert s == [s[0]] + s[1..];
    }
  }

  /** `sorted(s, key=key, reverse=True)`, except that tied elements come
      out in reverse input order. */
  function SortBy<T>(s: seq<T>, key: T -> int): (r: seq<T>)
    ensures |r| == |s|
  {
    if s == [] then [] else InsertBy(s[0], SortBy(s[1..], key), key)
  }

  /** The sort orders by non-increasing key and only rearranges. */
  lemma {:induction false} SortBySorts<T>(s: seq<T>, key: T -> int)
    ensures NonIncreasingBy(SortBy(s, key), key)
    ensures multiset(SortBy(s, key)) == multiset(s)
  {
    if s != [] {
      SortBySorts(s[1..], key);
      InsertSorted(s[0], SortBy(s[1..], key), key);
      InsertPermutes(s[0], SortBy(s[1..], key), key);
      assert s == [s[0]] + s[1..];
    }
  }
}
