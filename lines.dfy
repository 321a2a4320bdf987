/** Line structure of a log file's text: `str.split('\n')`, the lines a
    forward read of a file yields, and the filters and reversals the reverse
    reader's correctness is stated with. */
module Lines {

  /** `s.split('\n')`: the newline-separated fragments, at least one. */
  function Split(s: string): (r: seq<string>)
    ensures |r| >= 1
  {
    if s == [] then [[]]
    else
      var rest := Split(s[1..]);
      if s[0] == '\n' then [[]] + rest
      else [[s[0]] + rest[0]] + rest[1..]
  }

  /** `'\n'.join(parts)` */
  function Join(parts: seq<string>): string
  {
    if parts == [] then []
    else if |parts| == 1 then parts[0]
    else parts[0] + "\n" + Join(parts[1..])
  }

  /** The elements of `s` that are not the empty string, in order. */
  function NonEmpty(s: seq<string>): seq<string>
  {
    if s == [] then []
    else (if s[0] != [] then [s[0]] else []) + NonEmpty(s[1..])
  }

  function Reverse<T>(s: seq<T>): (r: seq<T>)
    ensures |r| == |s|
  {
    if s == [] then [] else Reverse(s[1..]) + [s[0]]
  }

  function Concat(s: seq<string>): string
  {
    if s == [] then [] else s[0] + Concat(s[1..])
  }

  /** The lines `for line in file` yields: every newline-terminated line
      with its terminator, then an unterminated last line if there is one. */
  function ForwardLines(s: string): seq<string>
    decreases |s|
  {
    if s == [] then []
    else
      var i := FirstNewline(s);
      if i == |s| then [s] else [s[..i + 1]] + ForwardLines(s[i + 1..])
  }

  /** Index of the first '\n' in `s`, or |s| if there is none. */
  function FirstNewline(s: string): (i: nat)
    ensures i <= |s|
    ensures forall j :: 0 <= j < i ==> s[j] != '\n'
    ensures i < |s| ==> s[i] == '\n'
  {
    if s == [] then 0 else if s[0] == '\n' then 0 else 1 + FirstNewline(s[1..])
  }

  // ---------------------------------------------------------------------
  // Split

  /** No fragment holds a line break, and joining the fragments with
      line breaks gives the text back. */
  lemma {:induction false} SplitJoin(s: string)
    ensures Join(Split(s)) == s
    ensures forall i :: 0 <= i < |Split(s)| ==> '\n' !in Split(s)[i]
  {
    if s != [] {
      SplitJoin(s[1..]);
      var rest := Split(s[1..]);
      if s[0] == '\n' {
        assert Split(s) == [[]] + rest;
        assert Join(Split(s)) == [] + "\n" + Join(rest);
      } else {
        var r := [[s[0]] + rest[0]] + rest[1..];
        assert Split(s) == r;
        if |rest| == 1 {
          assert Join(r) == [s[0]] + rest[0];
        } else {
          assert r[1..] == rest[1..];
          assert Join(rest) == rest[0] + "\n" + Join(rest[1..]);
        }
        forall i | 0 <= i < |r| ensures '\n' !in r[i] {
          if i > 0 { assert r[i] == rest[i]; }
        }
      }
    }
  }

  /** Two fragment lists with the last fragment of `a` fused to the first
      of `b`: how the fragments of a concatenation relate to its parts'. */
  function Fuse(a: seq<string>, b: seq<string>): seq<string>
    requires |a| >= 1 && |b| >= 1
  {
    a[..|a| - 1] + [a[|a| - 1] + b[0]] + b[1..]
  }

  lemma FuseEmptyHead(a: seq<string>, b: seq<string>)
    requires |a| >= 1 && |b| >= 1
    ensures Fuse([[]] + a, b) == [[]] + Fuse(a, b)
  {
    var a' := [[]] + a;
    assert a'[..|a'| - 1] == [[]] + a[..|a| - 1];
  }

  lemma FuseCharHead(c: char, a: seq<string>, b: seq<string>)
    requires |a| >= 1 && |b| >= 1
    ensures var f := Fuse(a, b);
      [[c] + f[0]] + f[1..] == Fuse([[c] + a[0]] + a[1..], b)
  {
    var f := Fuse(a, b);
    var a' := [[c] + a[0]] + a[1..];
    if |a| == 1 {
      assert f[0] == a[0] + b[0];
      assert f[1..] == b[1..];
      assert a'[..|a'| - 1] == [];
      assert a'[|a'| - 1] + b[0] == [c] + f[0];
    } else {
      assert f[0] == a[0];
      assert f[1..] == a[1..|a| - 1] + [a[|a| - 1] + b[0]] + b[1..];
      assert a'[..|a'| - 1] == [[c] + a[0]] + a[1..|a| - 1];
    }
  }

  /** Splitting a concatenation: the last fragment of `x` and the first of
      `y` fuse into one. */
  lemma {:induction false} SplitAppend(x: string, y: string)
    ensures Split(x + y) == Fuse(Split(x), Split(y))
  {
    if x == [] {
      assert x + y == y;
      var sy := Split(y);
      assert Fuse([[]], sy) == [[] + sy[0]] + sy[1..];
      assert [] + sy[0] == sy[0];
      assert [sy[0]] + sy[1..] == sy;
    } else {
      assert (x + y)[1..] == x[1..] + y;
      SplitAppend(x[1..], y);
      if x[0] == '\n' {
        FuseEmptyHead(Split(x[1..]), Split(y));
      } else {
        FuseCharHead(x[0], Split(x[1..]), Split(y));
      }
    }
  }

  /** A text that ends in a line break splits with an empty last fragment. */
  lemma EndsWithNewline(s: string)
    requires s != [] && s[|s| - 1] == '\n'
    ensures |Split(s)| >= 2 && Split(s)[|Split(s)| - 1] == []
  {
    var x := s[..|s| - 1];
    assert s == x + "\n";
    SplitAppend(x, "\n");
    assert Split("\n") == [[], []];
    assert Split(s) == Fuse(Split(x), [[], []]);
  }

  // ---------------------------------------------------------------------
  // NonEmpty and Reverse

  lemma {:induction false} NonEmptyAppend(a: seq<string>, b: seq<string>)
    ensures NonEmpty(a + b) == NonEmpty(a) + NonEmpty(b)
  {
    if a != [] {
      assert (a + b)[1..] == a[1..] + b;
      NonEmptyAppend(a[1..], b);
    } else {
      assert a + b == b;
    }
  }

  lemma {:induction false} ReverseAppend<T>(a: seq<T>, b: seq<T>)
    ensures Reverse(a + b) == Reverse(b) + Reverse(a)
  {
    if a == [] {
      assert a + b == b;
    } else {
      assert (a + b)[1..] == a[1..] + b;
      ReverseAppend(a[1..], b);
    }
  }

  lemma {:induction false} ReverseReverse<T>(a: seq<T>)
    ensures Reverse(Reverse(a)) == a
  {
    if a != [] {
      ReverseAppend(Reverse(a[1..]), [a[0]]);
      ReverseReverse(a[1..]);
    }
  }

  lemma {:induction false} NonEmptyReverse(a: seq<string>)
    ensures NonEmpty(Reverse(a)) == Reverse(NonEmpty(a))
  {
    if a != [] {
      NonEmptyReverse(a[1..]);
      NonEmptyAppend(Reverse(a[1..]), [a[0]]);
      assert NonEmpty([a[0]]) == if a[0] != [] then [a[0]] else [];
      ReverseAppend(if a[0] != [] then [a[0]] else [], NonEmpty(a[1..]));
    }
  }

  lemma {:induction false} NonEmptyIdempotent(a: seq<string>)
    ensures NonEmpty(NonEmpty(a)) == NonEmpty(a)
  {
    if a != [] {
      NonEmptyIdempotent(a[1..]);
      var h: seq<string> := if a[0] != [] then [a[0]] else [];
      NonEmptyAppend(h, NonEmpty(a[1..]));
      assert NonEmpty(h) == h;
    }
  }

  /** Every element of a filtered sequence is non-empty. */
  lemma {:induction false} NonEmptyHasNoEmpty(a: seq<string>)
    ensures forall i :: 0 <= i < |NonEmpty(a)| ==> NonEmpty(a)[i] != []
  {
    if a != [] {
      NonEmptyHasNoEmpty(a[1..]);
    }
  }

  lemma {:induction false} ReverseMultiset<T>(a: seq<T>)
    ensures multiset(Reverse(a)) == multiset(a)
  {
    if a != [] {
      ReverseMultiset(a[1..]);
      assert a == [a[0]] + a[1..];
    }
  }

  // ---------------------------------------------------------------------
  // Forward reading

  /** The forward reader loses nothing: its lines concatenate to the text. */
  lemma {:induction false} ForwardLinesConcat(s: string)
    ensures Concat(ForwardLines(s)) == s
    decreases |s|
  {
    if s != [] {
      var i := FirstNewline(s);
      if i < |s| {
        ForwardLinesConcat(s[i + 1..]);
        assert s == s[..i + 1] + s[i + 1..];
      }
    }
  }

  /** Every forward line is non-empty and ends with its only line break,
      except possibly the last (see `ForwardLastLine`). */
  lemma {:induction false} ForwardLinesShape(s: string)
    ensures forall k :: 0 <= k < |ForwardLines(s)| ==> ForwardLines(s)[k] != []
    ensures forall k :: 0 <= k < |ForwardLines(s)| - 1 ==>
      var l := ForwardLines(s)[k]; l[|l| - 1] == '\n' && '\n' !in l[..|l| - 1]
    decreases |s|
  {
    if s != [] {
      var i := FirstNewline(s);
      if i < |s| {
        ForwardLinesShape(s[i + 1..]);
        var l := s[..i + 1];
        assert l[..|l| - 1] == s[..i];
        assert forall j :: 0 <= j < i ==> s[..i][j] == s[j];
      }
    }
  }

  /** A non-empty text has lines; the last holds no line break before its
      final character, and ends with one exactly when the text does. */
  lemma {:induction false} ForwardLastLine(s: string)
    ensures ForwardLines(s) == [] <==> s == []
    ensures ForwardLines(s) != [] ==>
      var l := ForwardLines(s)[|ForwardLines(s)| - 1];
      && l != []
      && (forall j :: 0 <= j < |l| - 1 ==> l[j] != '\n')
      && (l[|l| - 1] == '\n' <==> s[|s| - 1] == '\n')
    decreases |s|
  {
    if s != [] {
      var i := FirstNewline(s);
      if i < |s| && s[i + 1..] == [] {
        assert ForwardLines(s) == [s[..i + 1]];
      } else if i < |s| {
        var t := s[i + 1..];
        ForwardLastLine(t);
        var rest := ForwardLines(t);
        assert ForwardLines(s) == [s[..i + 1]] + rest;
        assert ForwardLines(s)[|ForwardLines(s)| - 1] == rest[|rest| - 1];
        assert t[|t| - 1] == s[|s| - 1];
      }
    }
  }

  // ---------------------------------------------------------------------
  // Forward lines against split fragments

  /** A line without its terminating line break, if it has one. */
  function Chomp(l: string): (r: string)
    ensures l != [] && l[|l| - 1] == '\n' ==> l == r + "\n"
    ensures !(l != [] && l[|l| - 1] == '\n') ==> r == l
  {
    if l != [] && l[|l| - 1] == '\n' then l[..|l| - 1] else l
  }

  function ChompAll(ls: seq<string>): (r: seq<string>)
    ensures |r| == |ls|
    ensures forall i :: 0 <= i < |ls| ==> r[i] == Chomp(ls[i])
  {
    if ls == [] then [] else [Chomp(ls[0])] + ChompAll(ls[1..])
  }

  /** A text without line breaks is its only fragment. */
  lemma {:induction false} SplitNoNewline(x: string)
    requires forall j :: 0 <= j < |x| ==> x[j] != '\n'
    ensures Split(x) == [x]
  {
    if x != [] {
      SplitNoNewline(x[1..]);
      assert [x[0]] + x[1..] == x;
    }
  }

  /** A line `x` and its line break, then the rest `t`. */
  lemma SplitLineThen(x: string, t: string)
    requires forall j :: 0 <= j < |x| ==> x[j] != '\n'
    ensures Split(x + ("\n" + t)) == [x] + Split(t)
  {
    SplitNoNewline(x);
    SplitAppend(x, "\n" + t);
    assert ("\n" + t)[0] == '\n' && ("\n" + t)[1..] == t;
    assert Split("\n" + t) == [[]] + Split(t);
    assert Fuse([x], [[]] + Split(t)) == [x + []] + Split(t);
    assert x + [] == x;
  }

  /** The forward lines, without their line breaks, are the split
      fragments up to empty ones: a forward read and the reverse reader
      see the same text lines. */
  lemma {:induction false} ForwardLinesChomped(s: string)
    ensures NonEmpty(ChompAll(ForwardLines(s))) == NonEmpty(Split(s))
    decreases |s|
  {
    if s != [] {
      var i := FirstNewline(s);
      if i == |s| {
        SplitNoNewline(s);
        assert ForwardLines(s) == [s];
        assert ChompAll([s]) == [s];
      } else {
        var x, t := s[..i], s[i + 1..];
        assert s == x + ("\n" + t);
        SplitLineThen(x, t);
        ForwardLinesChomped(t);
        assert s[..i + 1] == x + "\n";
        assert Chomp(s[..i + 1]) == x;
        assert ChompAll(ForwardLines(s)) == [x] + ChompAll(ForwardLines(t));
        NonEmptyAppend([x], ChompAll(ForwardLines(t)));
        NonEmptyAppend([x], Split(t));
      }
    }
  }
}
