/** The hand-written `Counter`: a dictionary from elements to integer
    counts read with a default of 0, its `update`, its multiset operators
    `+`, `-`, `|`, `&`, and `most_common()`. The operators are stated against
    the multiset a counter stands for. */
module Counters {
  import opened Sums
  import opened Sorting

  /** A counter's contents: element to count; missing elements read 0. */
  type Counts<K> = map<K, int>

  /** `c[k] += 1` */
  function Inc<K(!new)>(c: Counts<K>, k: K): (r: Counts<K>)
    ensures k in r && r[k] == Get(c, k) + 1
    ensures forall j :: j != k ==> Get(r, j) == Get(c, j)
    ensures r.Keys == c.Keys + {k}
  {
    c[k := Get(c, k) + 1]
  }

  /** An increment adds one to the total of the counts. */
  lemma SumInc<K(!new)>(c: Counts<K>, k: K)
    ensures Sum(Inc(c, k)) == Sum(c) + 1
  {
    SumUpdate(c, k, Get(c, k) + 1);
  }

  /** Counting is order-free: two increments commute. */
  lemma IncCommutes<K(!new)>(c: Counts<K>, a: K, b: K)
    ensures Inc(Inc(c, a), b) == Inc(Inc(c, b), a)
  {
  }

  /** The multiset a counter stands for: every element with a positive count,
      that many times (`elements()`). */
  ghost function Elements<K(!new)>(c: Counts<K>): multiset<K>
    decreases |c|
  {
    if c == map[] then multiset{}
    else
      var k :| k in c;
      Elements(c - {k})[k := Pos(c[k])]
  }

  function Pos(n: int): nat { if n > 0 then n else 0 }

  lemma {:induction false} ElementsCount<K(!new)>(c: Counts<K>, x: K)
    ensures Elements(c)[x] == Pos(Get(c, x))
    decreases |c|
  {
    if c != map[] {
      var k :| k in c && Elements(c) == Elements(c - {k})[k := Pos(c[k])];
      if x != k {
        assert Get(c - {k}, x) == Get(c, x);
        ElementsCount(c - {k}, x);
        var e := Elements(c - {k});
        assert e[k := Pos(c[k])][x] == e[x];
      }
    }
  }

  /** Every count is positive: the form the operators produce. */
  predicate PositiveCounts<K(!new)>(c: Counts<K>) { forall k :: k in c ==> c[k] > 0 }

  predicate NonNegativeCounts<K(!new)>(c: Counts<K>) { forall k :: k in c ==> c[k] >= 0 }

  /** `self + other`: counts added; only positive results are kept. */
  function Add<K(!new)>(a: Counts<K>, b: Counts<K>): (r: Counts<K>)
    ensures PositiveCounts(r)
    ensures forall k :: Get(r, k) == Pos(Get(a, k) + Get(b, k))
  {
    map k | k in a.Keys + b.Keys && Get(a, k) + Get(b, k) > 0 :: Get(a, k) + Get(b, k)
  }

  /** `self - other`: counts subtracted; only positive results are kept. */
  function Sub<K(!new)>(a: Counts<K>, b: Counts<K>): (r: Counts<K>)
    ensures PositiveCounts(r)
    ensures forall k :: Get(r, k) == Pos(Get(a, k) - Get(b, k))
  {
    map k | k in a.Keys + b.Keys && Get(a, k) - Get(b, k) > 0 :: Get(a, k) - Get(b, k)
  }

  function Max(x: int, y: int): int { if x >= y then x else y }

  function Min(x: int, y: int): int { if x <= y then x else y }

  /** `self | other`: the larger count of the two; only positive results. */
  function Union<K(!new)>(a: Counts<K>, b: Counts<K>): (r: Counts<K>)
    ensures PositiveCounts(r)
    ensures forall k :: Get(r, k) == Pos(Max(Get(a, k), Get(b, k)))
  {
    map k | k in a.Keys + b.Keys && Max(Get(a, k), Get(b, k)) > 0 :: Max(Get(a, k), Get(b, k))
  }

  /** `self & other`: over the elements present in both, the smaller count;
      only positive results. */
  function Intersect<K(!new)>(a: Counts<K>, b: Counts<K>): (r: Counts<K>)
    ensures PositiveCounts(r)
    ensures r.Keys <= a.Keys * b.Keys
    ensures forall k :: k in a && k in b ==> Get(r, k) == Pos(Min(a[k], b[k]))
  {
    map k | k in a.Keys * b.Keys && Min(a[k], b[k]) > 0 :: Min(a[k], b[k])
  }

  /** For counters without negative counts, `+` is the sum of multisets. */
  lemma AddIsMultisetSum<K(!new)>(a: Counts<K>, b: Counts<K>)
    requires NonNegativeCounts(a) && NonNegativeCounts(b)
    ensures Elements(Add(a, b)) == Elements(a) + Elements(b)
  {
    forall x ensures Elements(Add(a, b))[x] == (Elements(a) + Elements(b))[x] {
      ElementsCount(Add(a, b), x);
      ElementsCount(a, x);
      ElementsCount(b, x);
    }
  }

  /** For counters without negative counts, `-` is multiset difference. */
  lemma SubIsMultisetDifference<K(!new)>(a: Counts<K>, b: Counts<K>)
    requires NonNegativeCounts(a) && NonNegativeCounts(b)
    ensures Elements(Sub(a, b)) == Elements(a) - Elements(b)
  {
    forall x ensures Elements(Sub(a, b))[x] == (Elements(a) - Elements(b))[x] {
      ElementsCount(Sub(a, b), x);
      ElementsCount(a, x);
      ElementsCount(b, x);
    }
  }

  /** `|` takes, element by element, the larger multiplicity. */
  lemma UnionIsMultisetMax<K(!new)>(a: Counts<K>, b: Counts<K>, x: K)
    ensures Elements(Union(a, b))[x] == Max(Elements(a)[x], Elements(b)[x])
  {
    ElementsCount(Union(a, b), x);
    ElementsCount(a, x);
    ElementsCount(b, x);
  }

  /** `&` is multiset intersection (the smaller multiplicity). */
  lemma IntersectIsMultisetIntersection<K(!new)>(a: Counts<K>, b: Counts<K>)
    ensures Elements(Intersect(a, b)) == Elements(a) * Elements(b)
  {
    forall x ensures Elements(Intersect(a, b))[x] == (Elements(a) * Elements(b))[x] {
      ElementsCount(Intersect(a, b), x);
      ElementsCount(a, x);
      ElementsCount(b, x);
    }
  }

  // ---------------------------------------------------------------------
  // most_common()

  /** The count of an (element, count) pair. */
  function CountOf<K>(p: (K, int)): int { p.1 }

  /** Counts that do not increase along the sequence. */
  predicate NonIncreasing<K(!new)>(s: seq<(K, int)>)
  {
    NonIncreasingBy(s, CountOf)
  }

  /** `r` lists each key of `done` once, in non-increasing count order,
      with its count in `c`. */
  predicate Listed<K(!new)>(r: seq<(K, int)>, c: Counts<K>, done: set<K>)
  {
    && NonIncreasing(r)
    && (forall i :: 0 <= i < |r| ==> r[i].0 in done && r[i].0 in c && c[r[i].0] == r[i].1)
    && (forall i, j :: 0 <= i < j < |r| ==> r[i].0 != r[j].0)
    && (forall k :: k in done ==> exists i :: 0 <= i < |r| && r[i].0 == k)
  }

  /** `most_common()` with no limit: every (element, count) pair once, in
      non-increasing count order. Python's sort decides the order among equal
      counts; here it is left unspecified. */
  ghost function MostCommon<K(!new)>(c: Counts<K>): (r: seq<(K, int)>)
    ensures Listed(r, c, c.Keys)
    ensures |r| == |c|
    decreases |c|
  {
    if c == map[] then []
    else
      var k :| k in c;
      var rest := MostCommon(c - {k});
      RemoveKey(c, k);
      ListedWider(rest, c - {k}, c, c.Keys - {k});
      InsertEntry(rest, c, c.Keys - {k}, k);
      InsertBy((k, c[k]), rest, CountOf)
  }

  /** Removing a present key: one entry fewer, the others unchanged. */
  lemma RemoveKey<K(!new)>(c: Counts<K>, k: K)
    requires k in c
    ensures |c - {k}| == |c| - 1
    ensures (c - {k}).Keys == c.Keys - {k} && c.Keys == (c.Keys - {k}) + {k}
    ensures forall j :: j in c - {k} ==> j in c && c[j] == (c - {k})[j]
  {
    assert (c - {k}).Keys == c.Keys - {k};
    assert |c.Keys - {k}| == |c.Keys| - 1;
  }

  /** A listing against a smaller counter is one against the larger. */
  lemma ListedWider<K(!new)>(r: seq<(K, int)>, small: Counts<K>, c: Counts<K>, done: set<K>)
    requires Listed(r, small, done)
    requires forall k :: k in small ==> k in c && c[k] == small[k]
    ensures Listed(r, c, done)
  {
  }

  /** Inserting a key not yet listed keeps the listing well formed. */
  lemma InsertEntry<K(!new)>(r: seq<(K, int)>, c: Counts<K>, done: set<K>, k: K)
    requires Listed(r, c, done) && k in c && k !in done
    ensures Listed(InsertBy((k, c[k]), r, CountOf), c, done + {k})
  {
    var r' := InsertBy((k, c[k]), r, CountOf);
    InsertSorted((k, c[k]), r, CountOf);
    InsertPermutes((k, c[k]), r, CountOf);
    InsertedItems(r, r', c, done, k);
    InsertedDistinct(r, r', c, done, k);
    InsertedCovers(r, r', c, done, k);
  }

  lemma InsertedItems<K(!new)>(r: seq<(K, int)>, r': seq<(K, int)>, c: Counts<K>, done: set<K>, k: K)
    requires forall i :: 0 <= i < |r| ==> r[i].0 in done && r[i].0 in c && c[r[i].0] == r[i].1
    requires k in c && multiset(r') == multiset(r) + multiset{(k, c[k])}
    ensures forall i :: 0 <= i < |r'| ==> r'[i].0 in done + {k} && r'[i].0 in c && c[r'[i].0] == r'[i].1
  {
    forall i | 0 <= i < |r'|
      ensures r'[i].0 in done + {k} && r'[i].0 in c && c[r'[i].0] == r'[i].1
    {
      assert r'[i] in multiset(r');
      if r'[i] != (k, c[k]) {
        assert r'[i] in multiset(r);
        var j :| 0 <= j < |r| && r[j] == r'[i];
      }
    }
  }

  lemma InsertedDistinct<K(!new)>(r: seq<(K, int)>, r': seq<(K, int)>, c: Counts<K>, done: set<K>, k: K)
    requires forall i :: 0 <= i < |r| ==> r[i].0 in done
    requires forall i, j :: 0 <= i < j < |r| ==> r[i].0 != r[j].0
    requires k in c && k !in done && multiset(r') == multiset(r) + multiset{(k, c[k])}
    ensures forall i, j :: 0 <= i < j < |r'| ==> r'[i].0 != r'[j].0
  {
    forall i, j | 0 <= i < j < |r'| ensures r'[i].0 != r'[j].0 {
      DistinctAfterInsert(r, r', k, c[k], i, j);
    }
  }

  lemma InsertedCovers<K(!new)>(r: seq<(K, int)>, r': seq<(K, int)>, c: Counts<K>, done: set<K>, k: K)
    requires forall q :: q in done ==> exists i :: 0 <= i < |r| && r[i].0 == q
    requires k in c && multiset(r') == multiset(r) + multiset{(k, c[k])}
    ensures forall q :: q in done + {k} ==> exists i :: 0 <= i < |r'| && r'[i].0 == q
  {
    forall q | q in done + {k} ensures exists i :: 0 <= i < |r'| && r'[i].0 == q {
      if q == k {
        assert (k, c[k]) in multiset(r');
        var i :| 0 <= i < |r'| && r'[i] == (k, c[k]);
      } else {
        var j :| 0 <= j < |r| && r[j].0 == q;
        assert r[j] in multiset(r');
        var i :| 0 <= i < |r'| && r'[i] == r[j];
      }
    }
  }

  /** Inserting an entry for a key the sequence does not mention keeps the
      keys distinct. */
  lemma DistinctAfterInsert<K(!new)>(r: seq<(K, int)>, r': seq<(K, int)>, k: K, n: int, i: int, j: int)
    requires forall a, b :: 0 <= a < b < |r| ==> r[a].0 != r[b].0
    requires forall a :: 0 <= a < |r| ==> r[a].0 != k
    requires multiset(r') == multiset(r) + multiset{(k, n)}
    requires 0 <= i < j < |r'|
    ensures r'[i].0 != r'[j].0
  {
    var p, q := r'[i], r'[j];
    assert p in multiset(r') && q in multiset(r');
    assert (k, n) !in multiset(r);
    assert multiset(r')[(k, n)] == 1;
    if p.0 == k {
      assert p !in r;
      assert p == (k, n);
    }
    if q.0 == k {
      assert q !in r;
      assert q == (k, n);
    }
    if p == q {
      DuplicateCount(r', i, j);
      if p != (k, n) {
        var a :| 0 <= a < |r| && r[a] == p;
        SingleCount(r, a);
      }
    } else if p.0 != k && q.0 != k {
      var a :| 0 <= a < |r| && r[a] == p;
      var b :| 0 <= b < |r| && r[b] == q;
      assert a != b;
    }
  }

  /** Two positions holding the same value make its multiplicity at least 2. */
  lemma DuplicateCount<T>(s: seq<T>, i: int, j: int)
    requires 0 <= i < j < |s| && s[i] == s[j]
    ensures multiset(s)[s[i]] >= 2
  {
    assert s == s[..i] + [s[i]] + s[i + 1..j] + [s[j]] + s[j + 1..];
  }

  /** With distinct keys, an entry occurs once. */
  lemma SingleCount<K(!new)>(s: seq<(K, int)>, a: int)
    requires forall x, y :: 0 <= x < y < |s| ==> s[x].0 != s[y].0
    requires 0 <= a < |s|
    ensures multiset(s)[s[a]] == 1
  {
    assert s == s[..a] + [s[a]] + s[a + 1..];
    assert forall x :: 0 <= x < a ==> s[..a][x] != s[a];
    assert s[a] !in s[..a];
    var t := s[a + 1..];
    forall y | 0 <= y < |t| ensures t[y] != s[a] {
      assert t[y] == s[a + 1 + y];
    }
    assert s[a] !in s[a + 1..];
  }

  // ---------------------------------------------------------------------
  // update()

  /** A counter object, updated in place by `update`. */
  class Counter<K(==,!new)> {
    var counts: Counts<K>

    constructor ()
      ensures counts == map[]
    {
      counts := map[];
    }

    /** `__missing__`: an absent element reads as 0. */
    function Count(k: K): (n: int)
      reads this
      ensures k !in counts ==> n == 0
      ensures k in counts ==> n == counts[k]
    {
      Get(counts, k)
    }

    /** `update(iterable)`: each occurrence adds one to its element. */
    method UpdateFromSeq(xs: seq<K>)
      modifies this
      ensures forall k :: Get(counts, k) == Get(old(counts), k) + multiset(xs)[k]
      ensures forall k :: k in counts <==> k in old(counts) || k in xs
    {
      var m := counts;
      var i := 0;
      while i < |xs|
        invariant 0 <= i <= |xs|
        invariant forall k :: Get(m, k) == Get(counts, k) + multiset(xs[..i])[k]
        invariant forall k :: k in m <==> k in counts || k in xs[..i]
      {
        assert xs[..i + 1] == xs[..i] + [xs[i]];
        m := m[xs[i] := Get(m, xs[i]) + 1];
        i := i + 1;
      }
      assert xs[..i] == xs;
      counts := m;
    }

    /** `update(mapping)`: the mapping's counts are added. */
    method UpdateFromCounts(other: Counts<K>)
      modifies this
      ensures forall k :: Get(counts, k) == Get(old(counts), k) + Get(other, k)
      ensures forall k :: k in counts <==> k in old(counts) || k in other
    {
      var m0 := counts;
      var m := m0;
      var todo := other.Keys;
      while todo != {}
        invariant todo <= other.Keys
        invariant forall k :: Get(m, k) == Get(m0, k) + (if k in todo then 0 else Get(other, k))
        invariant forall k :: k in m <==> k in m0 || (k in other && k !in todo)
        decreases |todo|
      {
        var k :| k in todo;
        m := m[k := Get(m, k) + other[k]];
        todo := todo - {k};
      }
      counts := m;
    }
  }
}
