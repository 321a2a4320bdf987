/** The order of the lines does not matter to the store: every fold adds
    one record, records commute, and whether a line folds or fails depends
    on the line and the options alone. So a read without the early exit
    gives the same store in either direction. */
module Order {
  import opened Wrappers
  import opened Lines
  import opened Counters
  import opened Timestamps
  import opened CountStore
  import opened Evaluator
  import opened Scan

  /** Whether a fold succeeds depends on the store's shape only, never on
      its counts. */
  lemma FoldOkByShape(s1: State, s2: State, p: Parsed, requests: string, ip: string, env: Env)
    requires ShapeFor(s1, env.opts) && ShapeFor(s2, env.opts)
    ensures Fold(s1, p, requests, ip, env).Ok? <==> Fold(s2, p, requests, ip, env).Ok?
  {
  }

  /** Whether a line is evaluated without error, and the time it returns,
      depend on the store's shape only. */
  lemma EvaluateByShape(s1: State, s2: State, line: string, env: Env)
    requires ShapeFor(s1, env.opts) && ShapeFor(s2, env.opts)
    ensures Evaluate(s1, line, env).Ok? <==> Evaluate(s2, line, env).Ok?
    ensures Evaluate(s1, line, env).Ok? ==>
      Evaluate(s1, line, env).value.found == Evaluate(s2, line, env).value.found
  {
    var lt := LineTime(line, env.pats);
    if lt.Some? && lt.value.Ok? && InWindow(lt.value.value.time, env.window) && FirstField(line).Some? {
      FoldOkByShape(s1, s2, lt.value.value, env.pats.request(line).value, FirstField(line).value, env);
    }
  }

  /** Two folds that succeed on a store succeed one after the other, and
      give the same store in either order. */
  lemma FoldCommutes(s: State, p1: Parsed, r1: string, i1: string, p2: Parsed, r2: string, i2: string, env: Env)
    requires ShapeFor(s, env.opts)
    requires Fold(s, p1, r1, i1, env).Ok? && Fold(s, p2, r2, i2, env).Ok?
    ensures Fold(Fold(s, p1, r1, i1, env).value, p2, r2, i2, env).Ok?
    ensures Fold(Fold(s, p2, r2, i2, env).value, p1, r1, i1, env).Ok?
    ensures Fold(Fold(s, p1, r1, i1, env).value, p2, r2, i2, env) ==
            Fold(Fold(s, p2, r2, i2, env).value, p1, r1, i1, env)
  {
    var o := env.opts;
    FoldOkByShape(s, Fold(s, p1, r1, i1, env).value, p2, r2, i2, env);
    FoldOkByShape(s, Fold(s, p2, r2, i2, env).value, p1, r1, i1, env);
    var d1, h1, b1 := p1.time.DateOf(), p1.hourKey, BucketKey(p1);
    var d2, h2, b2 := p2.time.DateOf(), p2.hourKey, BucketKey(p2);
    if !o.rmatch && !o.ipmatch {
      BumpTreeCommutes(s.overall.value, d1, h1, b1, d2, h2, b2, true);
    }
    match s.ipReq
    case Detailed(_, m) =>
      var x1 := if o.ipmatch then r1 else if o.rmatch then i1 else if o.request then i1 else r1;
      var x2 := if o.ipmatch then r2 else if o.rmatch then i2 else if o.request then i2 else r2;
      RecordCommutes(m, Key(o, r1, i1), x1, d1, h1, b1, Key(o, r2, i2), x2, d2, h2, b2, env.tenMin);
    case Compact(ips, reqs) =>
      IncCommutes(ips, i1, i2);
      IncCommutes(reqs, r1, r2);
  }

  /** Two lines that evaluate on a store evaluate one after the other, and
      leave the same store in either order. */
  lemma EvaluateCommutes(s: State, a: string, b: string, env: Env)
    requires ShapeFor(s, env.opts)
    requires Evaluate(s, a, env).Ok? && Evaluate(s, b, env).Ok?
    ensures Evaluate(Evaluate(s, a, env).value.state, b, env).Ok?
    ensures Evaluate(Evaluate(s, b, env).value.state, a, env).Ok?
    ensures Evaluate(Evaluate(s, a, env).value.state, b, env).value.state ==
            Evaluate(Evaluate(s, b, env).value.state, a, env).value.state
  {
    var sa := Evaluate(s, a, env).value.state;
    var sb := Evaluate(s, b, env).value.state;
    EvaluateByShape(s, sa, b, env);
    EvaluateByShape(s, sb, a, env);
    EvaluateFinds(s, a, env);
    EvaluateFinds(s, b, env);
    EvaluateFinds(sa, b, env);
    EvaluateFinds(sb, a, env);
    if Evaluate(s, a, env).value.found.Some? && Evaluate(s, b, env).value.found.Some? {
      var pa := LineTime(a, env.pats).value.value;
      var pb := LineTime(b, env.pats).value.value;
      FoldCommutes(s, pa, env.pats.request(a).value, FirstField(a).value,
                   pb, env.pats.request(b).value, FirstField(b).value, env);
    }
  }

  /** The store after evaluating every line in turn, with no early exit. */
  function EvaluateAll(s: State, lines: seq<string>, env: Env): (r: Result<State, LineError>)
    requires ShapeFor(s, env.opts)
    ensures r.Ok? ==> ShapeFor(r.value, env.opts)
    decreases |lines|
  {
    if lines == [] then Ok(s)
    else
      match Evaluate(s, lines[0], env)
      case Err(e) => Err(e)
      case Ok(out) => EvaluateAll(out.state, lines[1..], env)
  }

  /** Without the early exit the scan's store is the store of evaluating
      every line, and the scan fails exactly when one line fails. */
  lemma {:induction false} ScanWithoutExit(c: Cursor, lines: seq<string>, st: Strategy, env: Env)
    requires ShapeFor(c.state, env.opts) && !st.early
    ensures ScanLines(c, lines, st, env).Ok? <==> EvaluateAll(c.state, lines, env).Ok?
    ensures ScanLines(c, lines, st, env).Ok? ==>
      ScanLines(c, lines, st, env).value.cursor.state == EvaluateAll(c.state, lines, env).value
    decreases |lines|
  {
    if lines != [] {
      var out := Evaluate(c.state, lines[0], env);
      if out.Ok? {
        match out.value.found
        case None => ScanWithoutExit(c.(state := out.value.state), lines[1..], st, env);
        case Some(t) => ScanWithoutExit(Tally(c.(state := out.value.state), t, st), lines[1..], st, env);
      }
    }
  }

  /** Whether every line evaluates depends on the store's shape only. */
  lemma {:induction false} EvaluateAllByShape(s1: State, s2: State, lines: seq<string>, env: Env)
    requires ShapeFor(s1, env.opts) && ShapeFor(s2, env.opts)
    ensures EvaluateAll(s1, lines, env).Ok? <==> EvaluateAll(s2, lines, env).Ok?
    decreases |lines|
  {
    if lines != [] {
      EvaluateByShape(s1, s2, lines[0], env);
      if Evaluate(s1, lines[0], env).Ok? {
        EvaluateAllByShape(Evaluate(s1, lines[0], env).value.state, Evaluate(s2, lines[0], env).value.state, lines[1..], env);
      }
    }
  }

  /** Evaluating the lines and then one more line. */
  lemma {:induction false} EvaluateAllSnoc(s: State, lines: seq<string>, x: string, env: Env)
    requires ShapeFor(s, env.opts)
    ensures EvaluateAll(s, lines + [x], env) ==
      match EvaluateAll(s, lines, env)
      case Err(e) => Err(e)
      case Ok(r) =>
        match Evaluate(r, x, env)
        case Err(e) => Err(e)
        case Ok(out) => Ok(out.state)
    decreases |lines|
  {
    if lines == [] {
      assert lines + [x] == [x];
    } else {
      assert (lines + [x])[0] == lines[0] && (lines + [x])[1..] == lines[1..] + [x];
      var out := Evaluate(s, lines[0], env);
      if out.Ok? {
        EvaluateAllSnoc(out.value.state, lines[1..], x, env);
      }
    }
  }

  /** A line evaluated first gives the store of evaluating it last. */
  lemma {:induction false} EvaluateFirstIsLast(s: State, x: string, rest: seq<string>, env: Env)
    requires ShapeFor(s, env.opts)
    requires Evaluate(s, x, env).Ok? && EvaluateAll(s, rest, env).Ok?
    ensures Evaluate(EvaluateAll(s, rest, env).value, x, env).Ok?
    ensures EvaluateAll(Evaluate(s, x, env).value.state, rest, env) ==
            Ok(Evaluate(EvaluateAll(s, rest, env).value, x, env).value.state)
    decreases |rest|
  {
    if rest != [] {
      var y := rest[0];
      var sx := Evaluate(s, x, env).value.state;
      var sy := Evaluate(s, y, env).value.state;
      EvaluateCommutes(s, x, y, env);
      EvaluateFirstIsLast(sy, x, rest[1..], env);
      assert Evaluate(sx, y, env).value.state == Evaluate(sy, x, env).value.state;
    }
  }

  /** Evaluating the lines in reverse order gives the same store. */
  lemma {:induction false} EvaluateAllReverse(s: State, lines: seq<string>, env: Env)
    requires ShapeFor(s, env.opts) && EvaluateAll(s, lines, env).Ok?
    ensures EvaluateAll(s, Reverse(lines), env) == EvaluateAll(s, lines, env)
    decreases |lines|
  {
    if lines != [] {
      var x, rest := lines[0], lines[1..];
      var sx := Evaluate(s, x, env).value.state;
      EvaluateAllByShape(sx, s, rest, env);
      EvaluateAllReverse(s, rest, env);
      EvaluateAllSnoc(s, Reverse(rest), x, env);
      EvaluateFirstIsLast(s, x, rest, env);
    }
  }

  /** The in-window times of the lines read in reverse are those of the
      lines, reversed. */
  lemma {:induction false} WithinTimesReverse(lines: seq<string>, pats: Patterns, w: Window)
    ensures Within(Times(Reverse(lines), pats), w) == Reverse(Within(Times(lines, pats), w))
    decreases |lines|
  {
    if lines != [] {
      var x, rest := lines[0], lines[1..];
      WithinTimesReverse(rest, pats, w);
      TimesAppend(Reverse(rest), [x], pats);
      WithinAppend(Times(Reverse(rest), pats), Times([x], pats), w);
      assert Times([x], pats) == TimeOf(x, pats) + Times([], pats);
      assert Times([x], pats) == TimeOf(x, pats);
      WithinAppend(TimeOf(x, pats), Times(rest, pats), w);
      ReverseAppend(Within(TimeOf(x, pats), w), Within(Times(rest, pats), w));
      assert Reverse(Within(TimeOf(x, pats), w)) == Within(TimeOf(x, pats), w);
    }
  }

  lemma {:induction false} TimesAppend(a: seq<string>, b: seq<string>, pats: Patterns)
    ensures Times(a + b, pats) == Times(a, pats) + Times(b, pats)
    decreases |a|
  {
    if a == [] {
      assert a + b == b;
    } else {
      assert (a + b)[0] == a[0] && (a + b)[1..] == a[1..] + b;
      TimesAppend(a[1..], b, pats);
    }
  }

  /** Without the early exit the lines may be read in either order: a
      scan of the lines and a scan of the same lines reversed, in either
      direction, both succeed or both fail, and when they succeed they
      leave the same store and the same hit count, and return the same
      times in reverse order. */
  lemma ReadOrderIrrelevant(c: Cursor, lines: seq<string>, b1: bool, b2: bool, env: Env)
    requires ShapeFor(c.state, env.opts)
    ensures var r1 := ScanLines(c, lines, Strategy(b1, false), env);
      var r2 := ScanLines(c, Reverse(lines), Strategy(b2, false), env);
      && (r1.Ok? <==> r2.Ok?)
      && (r1.Ok? ==> r1.value.cursor.state == r2.value.cursor.state)
      && (r1.Ok? ==> r1.value.cursor.hits == r2.value.cursor.hits)
      && Found(Reverse(lines), Strategy(b2, false), env) == Reverse(Found(lines, Strategy(b1, false), env))
  {
    var st1, st2 := Strategy(b1, false), Strategy(b2, false);
    ScanWithoutExit(c, lines, st1, env);
    ScanWithoutExit(c, Reverse(lines), st2, env);
    WithinTimesReverse(lines, env.pats, env.window);
    NoExitKeepsAll(Within(Times(lines, env.pats), env.window), st1, env.window);
    NoExitKeepsAll(Within(Times(Reverse(lines), env.pats), env.window), st2, env.window);
    if EvaluateAll(c.state, lines, env).Ok? {
      EvaluateAllReverse(c.state, lines, env);
      HitsCounted(c, lines, st1, env);
      HitsCounted(c, Reverse(lines), st2, env);
    } else if EvaluateAll(c.state, Reverse(lines), env).Ok? {
      EvaluateAllReverse(c.state, Reverse(lines), env);
      ReverseReverse(lines);
    }
  }

  /** With searches blind to the line break, a scan of lines without
      their line breaks is the scan of the lines. */
  lemma {:induction false} ScanChomped(c: Cursor, lines: seq<string>, st: Strategy, env: Env)
    requires ShapeFor(c.state, env.opts) && BlindToLineEnd(env.pats)
    ensures ScanLines(c, ChompAll(lines), st, env) == ScanLines(c, lines, st, env)
    decreases |lines|
  {
    if lines != [] {
      if Chomp(lines[0]) != lines[0] {
        EvaluateNewline(c.state, Chomp(lines[0]), env);
      }
      assert ChompAll(lines)[0] == Chomp(lines[0]) && ChompAll(lines)[1..] == ChompAll(lines[1..]);
      var out := Evaluate(c.state, lines[0], env);
      if out.Ok? {
        match out.value.found
        case None => ScanChomped(c.(state := out.value.state), lines[1..], st, env);
        case Some(t) => ScanChomped(Tally(c.(state := out.value.state), t, st), lines[1..], st, env);
      }
    }
  }

  /** A file read forwards with `--complete` and the same file read by the
      reverse reader without the early exit both succeed or both fail,
      and leave the same store and the same hit count, for searches that
      match no empty line and ignore a line's terminating line break. */
  lemma FileDirectionIrrelevant(c: Cursor, f: LogFile, env: Env)
    requires ShapeFor(c.state, env.opts)
    requires BlindToLineEnd(env.pats) && env.pats.date([]) == None
    ensures var fwd, bwd := Strategy(false, false), Strategy(true, false);
      var r1 := ScanLines(c, FileLines(f, fwd), fwd, env);
      var r2 := ScanLines(c, FileLines(f, bwd), bwd, env);
      && (r1.Ok? <==> r2.Ok?)
      && (r1.Ok? ==> r1.value.cursor.state == r2.value.cursor.state)
      && (r1.Ok? ==> r1.value.cursor.hits == r2.value.cursor.hits)
  {
    var fwd := Strategy(false, false);
    var lines := ForwardLines(f.content);
    ScanChomped(c, lines, fwd, env);
    EmptyLinesIgnored(c, ChompAll(lines), fwd, env);
    ForwardLinesChomped(f.content);
    ReadOrderIrrelevant(c, NonEmpty(Split(f.content)), false, true, env);
  }

  /** Without the early exit no time is cut off. */
  lemma {:induction false} NoExitKeepsAll(ts: seq<Stamp>, st: Strategy, w: Window)
    requires !st.early
    ensures UpToExit(ts, st, w) == ts
    decreases |ts|
  {
    if ts != [] {
      NoExitKeepsAll(ts[1..], st, w);
    }
  }
}
