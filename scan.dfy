/** `get_data_from_logs`: the scan over the log files. Each file is read
    backwards (with an early exit at the window's start), forwards with an
    early exit at the window's end (gzip files and `--top`), or forwards
    completely (`--complete`); hits are counted per file and the first and
    last recorded times are tracked across files. */
module Scan {
  import opened Wrappers
  import opened Lines
  import opened Sums
  import opened Sorting
  import opened Timestamps
  import opened CountStore
  import opened Evaluator

  /** A log file as the scan sees it: its name, its text, and its
      last-modified time. */
  datatype LogFile = LogFile(name: string, content: string, lastModified: int)

  /** `--top` and `--complete`. */
  datatype ReadOpts = ReadOpts(top: bool, complete: bool)

  /** The reading direction and whether the early exit applies. */
  datatype Strategy = Strategy(backward: bool, early: bool)

  predicate EndsWith(s: string, suffix: string)
  {
    |suffix| <= |s| && s[|s| - |suffix|..] == suffix
  }

  /** A `.gz` file is read forwards with the early exit whatever the
      options; otherwise `--top` reads forwards with the early exit,
      `--complete` forwards without it, and the default is backwards. */
  function StrategyOf(name: string, ro: ReadOpts): (st: Strategy)
    ensures EndsWith(name, ".gz") ==> st == Strategy(false, true)
    ensures !st.early <==> !EndsWith(name, ".gz") && !ro.top && ro.complete
    ensures st.backward <==> !EndsWith(name, ".gz") && !ro.top && !ro.complete
  {
    if EndsWith(name, ".gz") || ro.top then Strategy(false, true)
    else if ro.complete then Strategy(false, false)
    else Strategy(true, true)
  }

  /** The lines the file yields in its reading direction: the backward
      reader's non-empty fragments last to first, or the forward lines
      with their terminators. */
  function FileLines(f: LogFile, st: Strategy): seq<string>
  {
    if st.backward then Reverse(NonEmpty(Split(f.content))) else ForwardLines(f.content)
  }

  /** The scan's running values: the store, the hit count of the current
      file, and the first and last recorded times. */
  datatype Cursor = Cursor(state: State, hits: nat, first: Option<Stamp>, last: Option<Stamp>)

  /** The result of scanning a file's lines: where the cursor ended and
      whether the early exit ended the scan. */
  datatype Scanned = Scanned(cursor: Cursor, stopped: bool)

  /** A hit: one more in the count; a forward scan records the time as the
      last (and as the first if none is set yet), a backward scan as the
      first (and as the last if none is set yet). */
  function Tally(c: Cursor, t: Stamp, st: Strategy): Cursor
  {
    if st.backward then
      Cursor(c.state, c.hits + 1, Some(t), if c.last.None? then Some(t) else c.last)
    else
      Cursor(c.state, c.hits + 1, if c.first.None? then Some(t) else c.first, Some(t))
  }

  /** `found_time <= start_time` backwards, `found_time >= end_time`
      forwards, tested on returned (so in-window) times only. */
  predicate Stops(t: Stamp, st: Strategy, w: Window)
  {
    st.early && (if st.backward then Leq(t, w.start) else Leq(w.end, t))
  }

  /** The line loop of one file. */
  function ScanLines(c: Cursor, lines: seq<string>, st: Strategy, env: Env): (r: Result<Scanned, LineError>)
    requires ShapeFor(c.state, env.opts)
    ensures r.Ok? ==> ShapeFor(r.value.cursor.state, env.opts)
    decreases |lines|
  {
    if lines == [] then Ok(Scanned(c, false))
    else
      match Evaluate(c.state, lines[0], env)
      case Err(e) => Err(e)
      case Ok(out) =>
        match out.found
        case None => ScanLines(c.(state := out.state), lines[1..], st, env)
        case Some(t) =>
          var c' := Tally(c.(state := out.state), t, st);
          if Stops(t, st, env.window) then Ok(Scanned(c', true))
          else ScanLines(c', lines[1..], st, env)
  }

  /** One pass of the line loop's body: the cursor after the line, and
      whether the early exit fires. */
  function Step(c: Cursor, line: string, st: Strategy, env: Env): (r: Result<(Cursor, bool), LineError>)
    requires ShapeFor(c.state, env.opts)
    ensures r.Ok? ==> ShapeFor(r.value.0.state, env.opts)
  {
    match Evaluate(c.state, line, env)
    case Err(e) => Err(e)
    case Ok(out) =>
      match out.found
      case None => Ok((c.(state := out.state), false))
      case Some(t) => Ok((Tally(c.(state := out.state), t, st), Stops(t, st, env.window)))
  }

  /** The line loop is the body applied line by line until an error or
      the early exit. */
  lemma ScanStep(c: Cursor, lines: seq<string>, st: Strategy, env: Env)
    requires ShapeFor(c.state, env.opts) && lines != []
    ensures var step := Step(c, lines[0], st, env);
      && (step.Err? ==> ScanLines(c, lines, st, env) == Err(step.error))
      && (step.Ok? && step.value.1 ==> ScanLines(c, lines, st, env) == Ok(Scanned(step.value.0, true)))
      && (step.Ok? && !step.value.1 ==> ScanLines(c, lines, st, env) == ScanLines(step.value.0, lines[1..], st, env))
  {
  }

  /** What a run leaves behind: the store, the recorded times, and
      `data['hit_count']`. */
  datatype Run = Run(state: State, first: Option<Stamp>, last: Option<Stamp>, hitCounts: map<string, nat>)

  /** The file loop: each file is scanned with the hit count starting at 0,
      and its hit count is recorded under its name. */
  function ScanFiles(r: Run, files: seq<LogFile>, ro: ReadOpts, env: Env): (res: Result<Run, LineError>)
    requires ShapeFor(r.state, env.opts)
    ensures res.Ok? ==> ShapeFor(res.value.state, env.opts)
    decreases |files|
  {
    if files == [] then Ok(r)
    else
      var f := files[0];
      var st := StrategyOf(f.name, ro);
      match ScanLines(Cursor(r.state, 0, r.first, r.last), FileLines(f, st), st, env)
      case Err(e) => Err(e)
      case Ok(sc) =>
        var c := sc.cursor;
        ScanFiles(Run(c.state, c.first, c.last, r.hitCounts[f.name := c.hits]), files[1..], ro, env)
  }

  function Names(files: seq<LogFile>): set<string>
  {
    set f | f in files :: f.name
  }

  predicate DistinctNames(files: seq<LogFile>)
  {
    forall i, j :: 0 <= i < j < |files| ==> files[i].name != files[j].name
  }

  lemma NamesCons(files: seq<LogFile>)
    requires files != []
    ensures Names(files) == {files[0].name} + Names(files[1..])
  {
    assert forall g :: g in files <==> g == files[0] || g in files[1..];
  }

  /** The file loop keeps the store consistent and records a hit count
      under every file's name, leaving other names alone. */
  lemma {:induction false} ScanFilesConsistent(r: Run, files: seq<LogFile>, ro: ReadOpts, env: Env)
    requires Consistent(r.state, env.opts, env.tenMin)
    requires ScanFiles(r, files, ro, env).Ok?
    ensures var res := ScanFiles(r, files, ro, env).value;
      && Consistent(res.state, env.opts, env.tenMin)
      && res.hitCounts.Keys == r.hitCounts.Keys + Names(files)
      && (forall k :: k in r.hitCounts && k !in Names(files) ==> res.hitCounts[k] == r.hitCounts[k])
    decreases |files|
  {
    if files != [] {
      var f := files[0];
      var st := StrategyOf(f.name, ro);
      var c0 := Cursor(r.state, 0, r.first, r.last);
      var c := ScanLines(c0, FileLines(f, st), st, env).value.cursor;
      ScanCounts(c0, FileLines(f, st), st, env);
      ScanFilesConsistent(Run(c.state, c.first, c.last, r.hitCounts[f.name := c.hits]), files[1..], ro, env);
      NamesCons(files);
    }
  }

  /** With distinct new file names, the recorded hit counts add up,
      outside the match modes, to the records the overall tree gained. */
  lemma {:induction false} ScanFilesTotal(r: Run, files: seq<LogFile>, ro: ReadOpts, env: Env)
    requires Consistent(r.state, env.opts, env.tenMin) && !MatchMode(env.opts)
    requires DistinctNames(files) && Names(files) !! r.hitCounts.Keys
    requires ScanFiles(r, files, ro, env).Ok?
    ensures var res := ScanFiles(r, files, ro, env).value;
      TreeTotal(res.state.overall.value) - TreeTotal(r.state.overall.value) ==
      Sum(res.hitCounts) - Sum(r.hitCounts)
    decreases |files|
  {
    if files != [] {
      var f := files[0];
      var st := StrategyOf(f.name, ro);
      var c0 := Cursor(r.state, 0, r.first, r.last);
      var c := ScanLines(c0, FileLines(f, st), st, env).value.cursor;
      ScanCounts(c0, FileLines(f, st), st, env);
      NamesCons(files);
      assert f.name !in r.hitCounts;
      assert f.name !in Names(files[1..]) by {
        assert forall j :: 0 <= j < |files[1..]| ==> files[1..][j].name != f.name;
      }
      assert DistinctNames(files[1..]) by {
        assert forall i :: 0 <= i < |files[1..]| ==> files[1..][i] == files[i + 1];
      }
      SumUpdate(r.hitCounts, f.name, c.hits);
      ScanFilesTotal(Run(c.state, c.first, c.last, r.hitCounts[f.name := c.hits]), files[1..], ro, env);
    }
  }

  /** The files in scan order: by last-modified time, newest first, unless
      the caller fixed the order (`--select`, or a cycle over the logs). */
  function ScanOrder(files: seq<LogFile>, callerOrdered: bool): seq<LogFile>
  {
    if callerOrdered then files else SortBy(files, ModifiedTime)
  }

  function ModifiedTime(f: LogFile): int { f.lastModified }

  /** Unless the caller fixed the order, the files are scanned newest
      first; either way every file is scanned, once. */
  lemma ScanOrderNewestFirst(files: seq<LogFile>, callerOrdered: bool)
    ensures var r := ScanOrder(files, callerOrdered);
      && multiset(r) == multiset(files)
      && (!callerOrdered ==> forall i, j :: 0 <= i < j < |r| ==> r[i].lastModified >= r[j].lastModified)
      && (callerOrdered ==> r == files)
  {
    SortBySorts(files, ModifiedTime);
  }

  // ---------------------------------------------------------------------
  // The line loop

  /** Continuing a scan that did not stop: the lines are read in order. */
  lemma {:induction false} ScanLinesAppend(c: Cursor, a: seq<string>, b: seq<string>, st: Strategy, env: Env)
    requires ShapeFor(c.state, env.opts)
    ensures var ra := ScanLines(c, a, st, env);
      && (ra.Err? ==> ScanLines(c, a + b, st, env) == ra)
      && (ra.Ok? && ra.value.stopped ==> ScanLines(c, a + b, st, env) == ra)
      && (ra.Ok? && !ra.value.stopped ==>
            ScanLines(c, a + b, st, env) == ScanLines(ra.value.cursor, b, st, env))
    decreases |a|
  {
    if a == [] {
      assert a + b == b;
    } else {
      assert (a + b)[1..] == a[1..] + b;
      var out := Evaluate(c.state, a[0], env);
      if out.Ok? {
        match out.value.found
        case None => ScanLinesAppend(c.(state := out.value.state), a[1..], b, st, env);
        case Some(t) =>
          var c' := Tally(c.(state := out.value.state), t, st);
          if !Stops(t, st, env.window) {
            ScanLinesAppend(c', a[1..], b, st, env);
          }
      }
    }
  }

  /** Without the early exit the scan never stops. */
  lemma {:induction false} CompleteNeverStops(c: Cursor, lines: seq<string>, st: Strategy, env: Env)
    requires ShapeFor(c.state, env.opts) && !st.early
    ensures ScanLines(c, lines, st, env).Ok? ==> !ScanLines(c, lines, st, env).value.stopped
    decreases |lines|
  {
    if lines != [] {
      var out := Evaluate(c.state, lines[0], env);
      if out.Ok? {
        match out.value.found
        case None => CompleteNeverStops(c.(state := out.value.state), lines[1..], st, env);
        case Some(t) => CompleteNeverStops(Tally(c.(state := out.value.state), t, st), lines[1..], st, env);
      }
    }
  }

  /** The early exit fires only on a time equal to the bound it tests:
      a returned time is inside the window, so `<= start` means `== start`
      and `>= end` means `== end`. */
  lemma {:induction false} StopsOnlyAtBound(c: Cursor, lines: seq<string>, st: Strategy, env: Env)
    requires ShapeFor(c.state, env.opts)
    requires ScanLines(c, lines, st, env).Ok? && ScanLines(c, lines, st, env).value.stopped
    ensures var r := ScanLines(c, lines, st, env).value.cursor;
      if st.backward then r.first == Some(env.window.start) else r.last == Some(env.window.end)
    decreases |lines|
  {
    var out := Evaluate(c.state, lines[0], env);
    EvaluateFinds(c.state, lines[0], env);
    match out.value.found
    case None => StopsOnlyAtBound(c.(state := out.value.state), lines[1..], st, env);
    case Some(t) =>
      if Stops(t, st, env.window) {
        LeqTotal(t, env.window.start);
        LeqTotal(t, env.window.end);
      } else {
        StopsOnlyAtBound(Tally(c.(state := out.value.state), t, st), lines[1..], st, env);
      }
  }

  /** The times of `ts` that lie in the window, in order. */
  function Within(ts: seq<Stamp>, w: Window): (r: seq<Stamp>)
    ensures |r| <= |ts|
    ensures forall i :: 0 <= i < |r| ==> InWindow(r[i], w)
    decreases |ts|
  {
    if ts == [] then [] else (if InWindow(ts[0], w) then [ts[0]] else []) + Within(ts[1..], w)
  }

  /** The times of `ts` up to and including the first one that fires the
      early exit. */
  function UpToExit(ts: seq<Stamp>, st: Strategy, w: Window): (r: seq<Stamp>)
    ensures r <= ts
    ensures forall i :: 0 <= i < |r| - 1 ==> !Stops(r[i], st, w)
    ensures r != ts ==> r != [] && Stops(r[|r| - 1], st, w)
    decreases |ts|
  {
    if ts == [] then []
    else if Stops(ts[0], st, w) then [ts[0]]
    else [ts[0]] + UpToExit(ts[1..], st, w)
  }

  /** The times the scan returns, in reading order: the in-window times of
      the lines, cut after the first one that fires the early exit. */
  function Found(lines: seq<string>, st: Strategy, env: Env): seq<Stamp>
  {
    UpToExit(Within(Times(lines, env.pats), env.window), st, env.window)
  }

  lemma {:induction false} WithinAppend(a: seq<Stamp>, b: seq<Stamp>, w: Window)
    ensures Within(a + b, w) == Within(a, w) + Within(b, w)
    decreases |a|
  {
    if a == [] {
      assert a + b == b;
    } else {
      assert (a + b)[0] == a[0] && (a + b)[1..] == a[1..] + b;
      WithinAppend(a[1..], b, w);
    }
  }

  /** `Found` unfolded by one line. */
  lemma FoundStep(lines: seq<string>, st: Strategy, env: Env)
    requires lines != []
    ensures var ts := Within(TimeOf(lines[0], env.pats), env.window);
      Found(lines, st, env) ==
        if ts == [] then Found(lines[1..], st, env)
        else if Stops(ts[0], st, env.window) then ts
        else ts + Found(lines[1..], st, env)
  {
    var w := env.window;
    var ts := Within(TimeOf(lines[0], env.pats), w);
    var rest := Within(Times(lines[1..], env.pats), w);
    WithinAppend(TimeOf(lines[0], env.pats), Times(lines[1..], env.pats), w);
    assert Within(Times(lines, env.pats), w) == ts + rest;
    if ts == [] {
      assert ts + rest == rest;
    } else {
      assert (ts + rest)[0] == ts[0] && (ts + rest)[1..] == rest;
    }
  }

  /** Every returned time is a hit. */
  lemma {:induction false} HitsCounted(c: Cursor, lines: seq<string>, st: Strategy, env: Env)
    requires ShapeFor(c.state, env.opts)
    requires ScanLines(c, lines, st, env).Ok?
    ensures ScanLines(c, lines, st, env).value.cursor.hits == c.hits + |Found(lines, st, env)|
    decreases |lines|
  {
    if lines != [] {
      FoundStep(lines, st, env);
      EvaluateFinds(c.state, lines[0], env);
      var out := Evaluate(c.state, lines[0], env).value;
      match out.found
      case None => HitsCounted(c.(state := out.state), lines[1..], st, env);
      case Some(t) =>
        if !Stops(t, st, env.window) {
          HitsCounted(Tally(c.(state := out.state), t, st), lines[1..], st, env);
        }
    }
  }

  /** Time tracking: the time the direction updates on every hit is the
      latest returned one; the other is set once, from the first hit of the
      whole run. A forward scan updates the last time, a backward scan the
      first time. */
  lemma {:induction false} TimesTracked(c: Cursor, lines: seq<string>, st: Strategy, env: Env)
    requires ShapeFor(c.state, env.opts)
    requires ScanLines(c, lines, st, env).Ok?
    ensures var r := ScanLines(c, lines, st, env).value.cursor;
      var f := Found(lines, st, env);
      var moving := if st.backward then r.first else r.last;
      var moving0 := if st.backward then c.first else c.last;
      var fixed := if st.backward then r.last else r.first;
      var fixed0 := if st.backward then c.last else c.first;
      && moving == (if f != [] then Some(f[|f| - 1]) else moving0)
      && fixed == (if fixed0.None? && f != [] then Some(f[0]) else fixed0)
    decreases |lines|
  {
    if lines != [] {
      FoundStep(lines, st, env);
      EvaluateFinds(c.state, lines[0], env);
      var out := Evaluate(c.state, lines[0], env).value;
      match out.found
      case None => TimesTracked(c.(state := out.state), lines[1..], st, env);
      case Some(t) =>
        if !Stops(t, st, env.window) {
          TimesTracked(Tally(c.(state := out.state), t, st), lines[1..], st, env);
        }
    }
  }

  /** Empty lines are never hits when the timestamp search cannot match
      the empty string (its pattern needs at least eighteen characters),
      so the empty strings the backward reader yields change nothing. */
  lemma {:induction false} EmptyLinesIgnored(c: Cursor, lines: seq<string>, st: Strategy, env: Env)
    requires ShapeFor(c.state, env.opts) && env.pats.date([]) == None
    ensures ScanLines(c, lines, st, env) == ScanLines(c, NonEmpty(lines), st, env)
    decreases |lines|
  {
    if lines != [] {
      if lines[0] == [] {
        assert Evaluate(c.state, lines[0], env) == Ok(Outcome(c.state, None));
        assert c.(state := c.state) == c;
        assert NonEmpty(lines) == NonEmpty(lines[1..]);
        EmptyLinesIgnored(c, lines[1..], st, env);
      } else {
        assert NonEmpty(lines)[0] == lines[0] && NonEmpty(lines)[1..] == NonEmpty(lines[1..]);
        var out := Evaluate(c.state, lines[0], env);
        if out.Ok? {
          match out.value.found
          case None => EmptyLinesIgnored(c.(state := out.value.state), lines[1..], st, env);
          case Some(t) => EmptyLinesIgnored(Tally(c.(state := out.value.state), t, st), lines[1..], st, env);
        }
      }
    }
  }

  /** The scan keeps the store consistent, and outside the match modes
      every hit is one record in the overall tree. */
  lemma {:induction false} ScanCounts(c: Cursor, lines: seq<string>, st: Strategy, env: Env)
    requires Consistent(c.state, env.opts, env.tenMin)
    requires ScanLines(c, lines, st, env).Ok?
    ensures var r := ScanLines(c, lines, st, env).value.cursor;
      && Consistent(r.state, env.opts, env.tenMin)
      && (!MatchMode(env.opts) ==>
            TreeTotal(r.state.overall.value) == TreeTotal(c.state.overall.value) + r.hits - c.hits)
    decreases |lines|
  {
    if lines != [] {
      var out := Evaluate(c.state, lines[0], env).value;
      EvaluateKeepsConsistent(c.state, lines[0], env);
      EvaluateFinds(c.state, lines[0], env);
      match out.found
      case None => ScanCounts(c.(state := out.state), lines[1..], st, env);
      case Some(t) =>
        if !MatchMode(env.opts) {
          HitCounted(c.state, lines[0], env);
        }
        var c' := Tally(c.(state := out.state), t, st);
        if !Stops(t, st, env.window) {
          ScanCounts(c', lines[1..], st, env);
        }
    }
  }

  /** Outside the match modes a line whose time is returned adds one
      record to the overall tree. */
  lemma HitCounted(s: State, line: string, env: Env)
    requires Consistent(s, env.opts, env.tenMin) && !MatchMode(env.opts)
    requires Evaluate(s, line, env).Ok? && Evaluate(s, line, env).value.found.Some?
    ensures TreeTotal(Evaluate(s, line, env).value.state.overall.value) == TreeTotal(s.overall.value) + 1
  {
    var p := LineTime(line, env.pats).value.value;
    ParseKeys(env.pats.date(line).value);
    FoldCounted(s, p, env.pats.request(line).value, FirstField(line).value, env);
  }

  // ---------------------------------------------------------------------
  // The early exit and records of the same second

  /** The parsed times of the lines whose searches match, in reading order
      (whether or not they fall in the window). */
  function Times(lines: seq<string>, pats: Patterns): seq<Stamp>
    decreases |lines|
  {
    if lines == [] then [] else TimeOf(lines[0], pats) + Times(lines[1..], pats)
  }

  /** The parsed time of one line, if its searches match and it parses. */
  function TimeOf(line: string, pats: Patterns): (r: seq<Stamp>)
    ensures |r| <= 1
  {
    var lt := LineTime(line, pats);
    if lt.Some? && lt.value.Ok? then [lt.value.value.time] else []
  }

  /** Times that never decrease in reading order: oldest first forwards,
      newest first backwards (the order of an append-only log). */
  predicate InReadingOrder(ts: seq<Stamp>, backward: bool)
  {
    forall i, j :: 0 <= i < j < |ts| ==> if backward then Leq(ts[j], ts[i]) else Leq(ts[i], ts[j])
  }

  /** A time beyond the bound the early exit tests: before the window's
      start backwards, after its end forwards. */
  predicate Past(t: Stamp, backward: bool, w: Window)
  {
    if backward then Lt(t, w.start) else Lt(w.end, t)
  }

  predicate AllPast(ts: seq<Stamp>, backward: bool, w: Window)
  {
    forall i :: 0 <= i < |ts| ==> Past(ts[i], backward, w)
  }

  predicate PastLine(line: string, backward: bool, env: Env)
  {
    var t := TimeOf(line, env.pats);
    t != [] && Past(t[0], backward, env.window)
  }

  lemma AllPastAppend(h: seq<Stamp>, t: seq<Stamp>, backward: bool, w: Window)
    requires AllPast(h + t, backward, w)
    ensures AllPast(t, backward, w) && (h != [] ==> Past(h[0], backward, w))
  {
    assert forall i :: 0 <= i < |t| ==> (h + t)[|h| + i] == t[i];
    if h != [] {
      assert (h + t)[0] == h[0];
    }
  }

  /** The line loop with the early exit the scan evidently intends: it
      stops at the first line whose time lies beyond the window in the
      reading direction, before evaluating it, and reads on past a record
      at the bound itself. */
  function ScanLinesFixed(c: Cursor, lines: seq<string>, backward: bool, env: Env): (r: Result<Scanned, LineError>)
    requires ShapeFor(c.state, env.opts)
    ensures r.Ok? ==> ShapeFor(r.value.cursor.state, env.opts)
    decreases |lines|
  {
    if lines == [] then Ok(Scanned(c, false))
    else if PastLine(lines[0], backward, env) then Ok(Scanned(c, true))
    else
      match Evaluate(c.state, lines[0], env)
      case Err(e) => Err(e)
      case Ok(out) =>
        match out.found
        case None => ScanLinesFixed(c.(state := out.state), lines[1..], backward, env)
        case Some(t) => ScanLinesFixed(Tally(c.(state := out.state), t, Strategy(backward, true)), lines[1..], backward, env)
  }

  lemma InOrderSuffix(ts: seq<Stamp>, k: nat, backward: bool)
    requires k <= |ts| && InReadingOrder(ts, backward)
    ensures InReadingOrder(ts[k..], backward)
  {
    forall i, j | 0 <= i < j < |ts[k..]|
      ensures if backward then Leq(ts[k..][j], ts[k..][i]) else Leq(ts[k..][i], ts[k..][j])
    {
      assert ts[k..][i] == ts[k + i] && ts[k..][j] == ts[k + j];
    }
  }

  /** A time at or beyond one that is past the window is past it too. */
  lemma PastBeyond(x: Stamp, t: Stamp, backward: bool, w: Window)
    requires Past(t, backward, w)
    requires if backward then Leq(x, t) else Leq(t, x)
    ensures Past(x, backward, w)
  {
    if backward {
      LeqTransitive(x, t, w.start);
      LeqTotal(t, w.start);
    } else {
      LeqTransitive(w.end, t, x);
      LeqTotal(w.end, t);
    }
  }

  /** A line whose time lies past the window is read and ignored. */
  lemma PastIgnored(s: State, line: string, backward: bool, env: Env)
    requires ShapeFor(s, env.opts) && PastLine(line, backward, env)
    ensures Evaluate(s, line, env) == Ok(Outcome(s, None))
  {
    var t := TimeOf(line, env.pats)[0];
    LeqTotal(t, env.window.start);
    LeqTotal(t, env.window.end);
    assert !InWindow(t, env.window);
  }

  /** A line that leaves the store as it was and returns no time is
      skipped. */
  lemma IgnoredLineSkipped(c: Cursor, lines: seq<string>, st: Strategy, env: Env)
    requires ShapeFor(c.state, env.opts) && lines != []
    requires Evaluate(c.state, lines[0], env) == Ok(Outcome(c.state, None))
    ensures ScanLines(c, lines, st, env) == ScanLines(c, lines[1..], st, env)
  {
    assert c.(state := c.state) == c;
  }

  /** Lines whose times all lie past the window change nothing in a full
      read. */
  lemma {:induction false} AllPastUnchanged(c: Cursor, lines: seq<string>, backward: bool, env: Env)
    requires ShapeFor(c.state, env.opts)
    requires AllPast(Times(lines, env.pats), backward, env.window)
    requires ScanLines(c, lines, Strategy(backward, false), env).Ok?
    ensures ScanLines(c, lines, Strategy(backward, false), env).value.cursor == c
    decreases |lines|
  {
    if lines != [] {
      AllPastAppend(TimeOf(lines[0], env.pats), Times(lines[1..], env.pats), backward, env.window);
      var lt := LineTime(lines[0], env.pats);
      if lt.Some? && lt.value.Ok? {
        PastIgnored(c.state, lines[0], backward, env);
      } else if lt.None? {
        assert Evaluate(c.state, lines[0], env) == Ok(Outcome(c.state, None));
      }
      if Evaluate(c.state, lines[0], env) == Ok(Outcome(c.state, None)) {
        IgnoredLineSkipped(c, lines, Strategy(backward, false), env);
        AllPastUnchanged(c, lines[1..], backward, env);
      }
    }
  }

  /** The corrected early exit loses nothing: on a file whose times are in
      reading order it ends exactly where a full read ends. */
  lemma {:induction false} FixedMatchesFullRead(c: Cursor, lines: seq<string>, backward: bool, env: Env)
    requires ShapeFor(c.state, env.opts)
    requires InReadingOrder(Times(lines, env.pats), backward)
    requires ScanLines(c, lines, Strategy(backward, false), env).Ok?
    ensures ScanLinesFixed(c, lines, backward, env).Ok?
    ensures ScanLinesFixed(c, lines, backward, env).value.cursor ==
            ScanLines(c, lines, Strategy(backward, false), env).value.cursor
    decreases |lines|
  {
    if lines != [] {
      var st := Strategy(backward, false);
      var h := TimeOf(lines[0], env.pats);
      var rest := Times(lines[1..], env.pats);
      OrderSplit(h, rest, backward);
      if PastLine(lines[0], backward, env) {
        PastFromHead(h, rest, backward, env.window);
        AllPastUnchanged(c, lines, backward, env);
      } else {
        var out := Evaluate(c.state, lines[0], env).value;
        match out.found
        case None => FixedMatchesFullRead(c.(state := out.state), lines[1..], backward, env);
        case Some(t) =>
          assert Tally(c.(state := out.state), t, st) == Tally(c.(state := out.state), t, Strategy(backward, true));
          FixedMatchesFullRead(Tally(c.(state := out.state), t, st), lines[1..], backward, env);
      }
    }
  }

  lemma OrderSplit(h: seq<Stamp>, t: seq<Stamp>, backward: bool)
    requires InReadingOrder(h + t, backward)
    ensures InReadingOrder(t, backward)
  {
    InOrderSuffix(h + t, |h|, backward);
    assert (h + t)[|h|..] == t;
  }

  /** In reading order, everything after a time past the window is past
      it too. */
  lemma PastFromHead(h: seq<Stamp>, t: seq<Stamp>, backward: bool, w: Window)
    requires InReadingOrder(h + t, backward) && |h| == 1 && Past(h[0], backward, w)
    ensures AllPast(h + t, backward, w)
  {
    var ts := h + t;
    forall i | 0 <= i < |ts| ensures Past(ts[i], backward, w)
    {
      if i > 0 {
        PastBeyond(ts[i], ts[0], backward, w);
      }
    }
  }

  /** As written, the early exit tests only returned times, which lie in
      the window, so it fires on a record at the bound itself and drops the
      records of that same second that follow it in reading order. Two
      identical lines stamped with the window's start, read backwards, give
      one hit instead of the two a full read and the corrected exit give. */
  lemma SameSecondDropped(c: Cursor, line: string, env: Env)
    requires ShapeFor(c.state, env.opts)
    requires Evaluate(c.state, line, env).Ok?
    requires Evaluate(c.state, line, env).value.found == Some(env.window.start)
    requires Evaluate(Evaluate(c.state, line, env).value.state, line, env).Ok?
    ensures ScanLines(c, [line, line], Strategy(true, true), env).Ok?
    ensures ScanLines(c, [line, line], Strategy(true, true), env).value.cursor.hits == c.hits + 1
    ensures ScanLines(c, [line, line], Strategy(true, false), env).Ok?
    ensures ScanLines(c, [line, line], Strategy(true, false), env).value.cursor.hits == c.hits + 2
    ensures ScanLinesFixed(c, [line, line], true, env).Ok?
    ensures ScanLinesFixed(c, [line, line], true, env).value.cursor.hits == c.hits + 2
    ensures InReadingOrder(Times([line, line], env.pats), true)
  {
    SameSecondEarly(c, line, env);
    SameSecondFull(c, line, env);
    SameSecondFixed(c, line, env);
    EvaluateFinds(c.state, line, env);
    SameSecondOrdered(line, env.pats, env.window.start);
  }

  /** Two lines of the same second are in reading order either way. */
  lemma SameSecondOrdered(line: string, pats: Patterns, t: Stamp)
    requires LineTime(line, pats).Some? && LineTime(line, pats).value.Ok?
    requires LineTime(line, pats).value.value.time == t
    ensures InReadingOrder(Times([line, line], pats), true)
  {
    assert [line, line][1..] == [line];
    assert Times([line], pats) == [t];
    assert Times([line, line], pats) == [t, t];
    LeqReflexive(t);
  }

  /** The early exit fires on the first of the two lines. */
  lemma SameSecondEarly(c: Cursor, line: string, env: Env)
    requires ShapeFor(c.state, env.opts)
    requires Evaluate(c.state, line, env).Ok?
    requires Evaluate(c.state, line, env).value.found == Some(env.window.start)
    requires Evaluate(Evaluate(c.state, line, env).value.state, line, env).Ok?
    ensures ScanLines(c, [line, line], Strategy(true, true), env).Ok?
    ensures ScanLines(c, [line, line], Strategy(true, true), env).value.cursor.hits == c.hits + 1
  {
    var w := env.window;
    var s1 := Evaluate(c.state, line, env).value.state;
    EvaluateFinds(c.state, line, env);
    LeqReflexive(w.start);
    var c1 := Tally(c.(state := s1), w.start, Strategy(true, true));
    assert ScanLines(c, [line, line], Strategy(true, true), env) == Ok(Scanned(c1, true));
  }

  /** Without the early exit both lines count. */
  lemma SameSecondFull(c: Cursor, line: string, env: Env)
    requires ShapeFor(c.state, env.opts)
    requires Evaluate(c.state, line, env).Ok?
    requires Evaluate(c.state, line, env).value.found == Some(env.window.start)
    requires Evaluate(Evaluate(c.state, line, env).value.state, line, env).Ok?
    ensures ScanLines(c, [line, line], Strategy(true, false), env).Ok?
    ensures ScanLines(c, [line, line], Strategy(true, false), env).value.cursor.hits == c.hits + 2
  {
    var w := env.window;
    var s1 := Evaluate(c.state, line, env).value.state;
    EvaluateFinds(c.state, line, env);
    EvaluateFinds(s1, line, env);
    var c1 := Tally(c.(state := s1), w.start, Strategy(true, false));
    var s2 := Evaluate(s1, line, env).value.state;
    var c2 := Tally(c1.(state := s2), w.start, Strategy(true, false));
    assert [line, line][1..] == [line];
    assert [line][1..] == [];
    assert ScanLines(c1, [line], Strategy(true, false), env) == Ok(Scanned(c2, false));
    assert ScanLines(c, [line, line], Strategy(true, false), env) == ScanLines(c1, [line], Strategy(true, false), env);
  }

  /** The corrected exit, which waits for a line before the window, counts
      both lines too. */
  lemma SameSecondFixed(c: Cursor, line: string, env: Env)
    requires ShapeFor(c.state, env.opts)
    requires Evaluate(c.state, line, env).Ok?
    requires Evaluate(c.state, line, env).value.found == Some(env.window.start)
    requires Evaluate(Evaluate(c.state, line, env).value.state, line, env).Ok?
    ensures ScanLinesFixed(c, [line, line], true, env).Ok?
    ensures ScanLinesFixed(c, [line, line], true, env).value.cursor.hits == c.hits + 2
  {
    var w := env.window;
    var s1 := Evaluate(c.state, line, env).value.state;
    EvaluateFinds(c.state, line, env);
    EvaluateFinds(s1, line, env);
    var c1 := Tally(c.(state := s1), w.start, Strategy(true, false));
    var s2 := Evaluate(s1, line, env).value.state;
    var c2 := Tally(c1.(state := s2), w.start, Strategy(true, false));
    assert [line, line][1..] == [line];
    assert [line][1..] == [];
    assert !PastLine(line, true, env) by {
      LeqTotal(w.start, w.start);
    }
    assert ScanLinesFixed(c1, [line], true, env) == Ok(Scanned(c2, false));
    assert ScanLinesFixed(c, [line, line], true, env) == ScanLinesFixed(c1, [line], true, env);
  }

  /** The input that shows it: a window of one second and a log holding
      two requests in that second. */
  function ExampleTime(): Stamp { Stamp(2020, 1, 1, 0, 0, 0) }

  function ExampleLine(): string { "01/Jan/2020:00:00:00" }

  function ExampleEnv(): Env
  {
    Env(Window(ExampleTime(), ExampleTime()), Opts(false, false, false, false, true), [],
        Patterns(line => if |line| >= 20 then Some(line[..20]) else None, line => Some("GET /")), false)
  }

  /** In the default (compact) mode an in-window line with a client field
      is always folded and its time returned. */
  lemma CompactLineFound(s: State, line: string, p: Parsed, env: Env)
    requires env.opts == Opts(false, false, false, false, true) && ShapeFor(s, env.opts)
    requires LineTime(line, env.pats) == Some(Ok(p)) && InWindow(p.time, env.window)
    requires FirstField(line).Some?
    ensures Evaluate(s, line, env).Ok? && Evaluate(s, line, env).value.found == Some(p.time)
  {
  }

  lemma ExampleLineFound(s: State)
    requires ShapeFor(s, ExampleEnv().opts)
    ensures Evaluate(s, ExampleLine(), ExampleEnv()).Ok?
    ensures Evaluate(s, ExampleLine(), ExampleEnv()).value.found == Some(ExampleTime())
  {
    ExampleParses();
    ExampleClient();
    LeqReflexive(ExampleTime());
    CompactLineFound(s, ExampleLine(), Parsed(ExampleTime(), "00", "00"), ExampleEnv());
  }

  lemma ExampleParses()
    ensures LineTime(ExampleLine(), ExampleEnv().pats) == Some(Ok(Parsed(ExampleTime(), "00", "00")))
  {
    var t := ExampleTime();
    assert Format(t) == ExampleLine();
    ParseFormat(t);
    assert ExampleLine()[..20] == ExampleLine();
  }

  lemma ExampleClient()
    ensures FirstField(ExampleLine()).Some?
  {
    assert !IsSpace(ExampleLine()[0]);
  }

  lemma SameSecondExample()
    ensures var c := Cursor(InitialState(ExampleEnv().opts), 0, None, None);
      && ScanLines(c, [ExampleLine(), ExampleLine()], Strategy(true, true), ExampleEnv()).Ok?
      && ScanLines(c, [ExampleLine(), ExampleLine()], Strategy(true, true), ExampleEnv()).value.cursor.hits == 1
      && ScanLinesFixed(c, [ExampleLine(), ExampleLine()], true, ExampleEnv()).Ok?
      && ScanLinesFixed(c, [ExampleLine(), ExampleLine()], true, ExampleEnv()).value.cursor.hits == 2
  {
    var env := ExampleEnv();
    var c := Cursor(InitialState(env.opts), 0, None, None);
    ExampleLineFound(c.state);
    ExampleLineFound(Evaluate(c.state, ExampleLine(), env).value.state);
    SameSecondDropped(c, ExampleLine(), env);
  }
}
