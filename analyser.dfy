/** `AnalyseLogs`: the object that holds the count store while the log
    files are scanned. Its fields are the ones the scan updates in place:
    the per-entity store, the overall date tree, the running hit count of
    the current file and the per-file hit counts. */
module Analyser {
  import opened Wrappers
  import opened Lines
  import opened Counters
  import opened Timestamps
  import opened CountStore
  import opened Evaluator
  import opened ReverseReader
  import opened Scan

  class AnalyseLogs {
    /** The command-line options that choose the store and the fold. */
    const opts: Opts
    /** `ten_min_enable`: whether the per-entity ten-minute buckets are kept. */
    const tenMinEnable: bool
    /** The `start_time` and `end_time` the object was built for. */
    const window: Window
    /** `ip_req_count` */
    var ipReqCount: IpReqCount
    /** `date_count` (absent in the match modes) */
    var dateCount: Option<Tree>
    /** `hit_count`: the hits of the file being scanned. */
    var hitCount: nat
    /** `data['hit_count']`: the hits recorded per file. */
    var hitCounts: map<string, nat>

    function StateOf(): State
      reads this
    {
      State(ipReqCount, dateCount)
    }

    /** Between scans the store is consistent and no file is being counted. */
    ghost predicate Valid()
      reads this
    {
      Consistent(StateOf(), opts, tenMinEnable) && hitCount == 0
    }

    /** The store the options call for, empty, with the ten-minute buckets
        kept as `ten_min_interval` decides for the window and `--ten`. */
    constructor(opts: Opts, w: Window, ten: TenOption)
      requires ValidStamp(w.start) && ValidStamp(w.end)
      ensures this.opts == opts && window == w && tenMinEnable == TenMinEnabled(Span(w), ten)
      ensures StateOf() == InitialState(opts)
      ensures hitCount == 0 && hitCounts == map[]
      ensures Valid()
    {
      this.opts := opts;
      window := w;
      tenMinEnable := TenMinEnabled(Span(w), ten);
      hitCount := 0;
      hitCounts := map[];
      dateCount := if opts.ipmatch || opts.rmatch then None else Some(map[]);
      if opts.request || opts.rmatch {
        ipReqCount := Detailed(RequestRecords, map[]);
      } else if opts.ip || opts.ipmatch {
        ipReqCount := Detailed(IpRecords, map[]);
      } else {
        ipReqCount := Compact(map[], map[]);
      }
      InitialConsistent(opts, TenMinEnabled(Span(w), ten));
    }

    /** `dict_add`: the entity's count, its date's count and that date's
        hour count each rise by one, and the hour's ten-minute bucket
        `minute[0]` too when the buckets are kept. */
    method DictAdd(key: string, d: Date, hour: string, minute: string)
      requires ipReqCount.Detailed? && minute != []
      modifies this
      ensures ipReqCount == Detailed(old(ipReqCount).kind,
        CountStore.DictAdd(old(ipReqCount).entities, key, d, hour, minute[0], tenMinEnable))
      ensures dateCount == old(dateCount) && hitCount == old(hitCount) && hitCounts == old(hitCounts)
    {
      var m := ipReqCount.entities;
      var e := EntityAt(m, key);
      e := e.(count := e.count + 1);
      var dn := DateAt(e.date, d);
      dn := dn.(count := dn.count + 1);
      var hn := HourAt(dn.hour, hour);
      hn := hn.(count := hn.count + 1);
      if tenMinEnable {
        hn := hn.(tenMin := Inc(hn.tenMin, minute[0]));
      }
      dn := dn.(hour := dn.hour[hour := hn]);
      e := e.(date := e.date[d := dn]);
      ipReqCount := Detailed(ipReqCount.kind, m[key := e]);
    }

    /** `dict_date_add`: the overall date, hour and ten-minute bucket each
        rise by one, whether or not the per-entity buckets are kept. */
    method DictDateAdd(d: Date, hour: string, minute: string)
      requires dateCount.Some? && minute != []
      modifies this
      ensures dateCount == Some(Evaluator.DictDateAdd(old(dateCount).value, d, hour, minute[0]))
      ensures ipReqCount == old(ipReqCount) && hitCount == old(hitCount) && hitCounts == old(hitCounts)
    {
      var t := dateCount.value;
      var dn := DateAt(t, d);
      dn := dn.(count := dn.count + 1);
      var hn := HourAt(dn.hour, hour);
      hn := HourNode(hn.count + 1, Inc(hn.tenMin, minute[0]));
      dn := dn.(hour := dn.hour[hour := hn]);
      dateCount := Some(t[d := dn]);
    }

    /** `ip_req_count[key]['get_post'][x] += 1` or
        `ip_req_count[key]['ip'][x] += 1`: the co-occurrence counter. */
    method AddCo(key: string, x: string)
      requires ipReqCount.Detailed?
      modifies this
      ensures ipReqCount == Detailed(old(ipReqCount).kind, CountStore.AddCo(old(ipReqCount).entities, key, x))
      ensures dateCount == old(dateCount) && hitCount == old(hitCount) && hitCounts == old(hitCounts)
    {
      var m := ipReqCount.entities;
      var e := EntityAt(m, key);
      ipReqCount := Detailed(ipReqCount.kind, m[key := e.(co := Inc(e.co, x))]);
    }

    /** `evaluate_line`: the store afterwards and the returned time are the
        ones `Evaluate` describes; an exception is an error (the store it
        leaves behind is not specified, since the run ends there). */
    method EvaluateLine(line: string, env: Env) returns (r: Result<Option<Stamp>, LineError>)
      requires env.opts == opts && env.window == window && env.tenMin == tenMinEnable
      requires ShapeFor(StateOf(), opts)
      modifies this
      ensures var e := Evaluate(old(StateOf()), line, env);
        && (r.Ok? <==> e.Ok?)
        && (e.Ok? ==> StateOf() == e.value.state && r.value == e.value.found)
        && (e.Err? ==> r.error == e.error)
      ensures hitCount == old(hitCount) && hitCounts == old(hitCounts)
    {
      ghost var s := StateOf();
      var lt := LineTime(line, env.pats);
      if lt.None? {
        return Ok(None);
      }
      if lt.value.Err? {
        return Err(lt.value.error);
      }
      var p := lt.value.value;
      if !InWindow(p.time, env.window) {
        return Ok(None);
      }
      var requests := env.pats.request(line).value;
      var field := FirstField(line);
      if field.None? {
        return Err(NoClientField);
      }
      var ip := field.value;
      ParseKeys(env.pats.date(line).value);
      var folded := FoldRecord(p, requests, ip, env);
      if folded.Err? {
        return Err(folded.error);
      }
      return Ok(Some(p.time));
    }

    /** The folding part of `evaluate_line`, for an in-window record: the
        overall tree outside the match modes, then the branch the options
        select. */
    method FoldRecord(p: Parsed, requests: string, ip: string, env: Env) returns (r: Result<(), LineError>)
      requires env.opts == opts && env.window == window && env.tenMin == tenMinEnable
      requires ShapeFor(StateOf(), opts) && |p.minuteKey| == 2
      modifies this
      ensures var f := Fold(old(StateOf()), p, requests, ip, env);
        && (r.Ok? <==> f.Ok?)
        && (f.Ok? ==> StateOf() == f.value)
        && (f.Err? ==> r.error == f.error)
      ensures hitCount == old(hitCount) && hitCounts == old(hitCounts)
    {
      ghost var s := StateOf();
      var key := if opts.request || opts.rmatch then requests else ip;
      var d := p.time.DateOf();
      assert BucketKey(p) == p.minuteKey[0];
      if !opts.rmatch && !opts.ipmatch {
        DictDateAdd(d, p.hourKey, p.minuteKey);
      }
      if opts.ipmatch {
        if key in env.args {
          if ipReqCount.kind.RequestRecords? {
            DictAdd(key, d, p.hourKey, p.minuteKey);
            return Err(MissingRecordField);
          }
          RecordIsDictAddThenAddCo(ipReqCount.entities, key, requests, d, p.hourKey, BucketKey(p), tenMinEnable);
          DictAdd(key, d, p.hourKey, p.minuteKey);
          AddCo(key, requests);
        }
      } else if opts.rmatch {
        if AnyContained(env.args, requests) {
          RecordIsDictAddThenAddCo(ipReqCount.entities, key, ip, d, p.hourKey, BucketKey(p), tenMinEnable);
          DictAdd(key, d, p.hourKey, p.minuteKey);
          AddCo(key, ip);
        }
      } else if opts.compact {
        if ipReqCount.Detailed? {
          return Err(MissingRecordField);
        }
        ipReqCount := Compact(Inc(ipReqCount.ips, ip), Inc(ipReqCount.requests, requests));
      } else {
        if ipReqCount.Compact? {
          return Err(MissingRecordField);
        }
        var co := if opts.request then ip else requests;
        RecordIsDictAddThenAddCo(ipReqCount.entities, key, co, d, p.hourKey, BucketKey(p), tenMinEnable);
        DictAdd(key, d, p.hourKey, p.minuteKey);
        AddCo(key, co);
      }
      return Ok(());
    }

    /** The body of the line loop: the line is evaluated and a returned
        time is tallied. */
    method ScanLine(line: string, st: Strategy, env: Env, first: Option<Stamp>, last: Option<Stamp>)
      returns (r: Result<(bool, Option<Stamp>, Option<Stamp>), LineError>)
      requires env.opts == opts && env.window == window && env.tenMin == tenMinEnable
      requires ShapeFor(StateOf(), opts)
      modifies this
      ensures var step := Step(Cursor(old(StateOf()), old(hitCount), first, last), line, st, env);
        && (r.Ok? <==> step.Ok?)
        && (r.Err? ==> r.error == step.error)
        && (r.Ok? ==> Cursor(StateOf(), hitCount, r.value.1, r.value.2) == step.value.0 && r.value.0 == step.value.1)
      ensures hitCounts == old(hitCounts)
    {
      var found := EvaluateLine(line, env);
      if found.Err? {
        return Err(found.error);
      }
      if found.value.None? {
        return Ok((false, first, last));
      }
      var stop, firstTime, lastTime := TallyHit(found.value.value, st, env, first, last);
      return Ok((stop, firstTime, lastTime));
    }

    /** A returned time is a hit: it becomes the first recorded time
        (backwards) or the last (forwards), and fills the other one if
        that is still unset; `stop` says whether the early exit fires. */
    method TallyHit(t: Stamp, st: Strategy, env: Env, first: Option<Stamp>, last: Option<Stamp>)
      returns (stop: bool, firstTime: Option<Stamp>, lastTime: Option<Stamp>)
      modifies this
      ensures Cursor(StateOf(), hitCount, firstTime, lastTime) == Tally(Cursor(old(StateOf()), old(hitCount), first, last), t, st)
      ensures stop <==> Stops(t, st, env.window)
      ensures hitCounts == old(hitCounts)
    {
      firstTime, lastTime := first, last;
      hitCount := hitCount + 1;
      if st.backward {
        firstTime := Some(t);
        if lastTime.None? {
          lastTime := Some(t);
        }
        stop := st.early && Leq(t, env.window.start);
      } else {
        lastTime := Some(t);
        if firstTime.None? {
          firstTime := Some(t);
        }
        stop := st.early && Leq(env.window.end, t);
      }
    }

    /** The line loop of one file, up to its end or to the early exit. */
    method ScanLog(lines: seq<string>, st: Strategy, env: Env, first: Option<Stamp>, last: Option<Stamp>)
      returns (r: Result<(Option<Stamp>, Option<Stamp>), LineError>)
      requires env.opts == opts && env.window == window && env.tenMin == tenMinEnable
      requires ShapeFor(StateOf(), opts)
      modifies this
      ensures var spec := ScanLines(Cursor(old(StateOf()), old(hitCount), first, last), lines, st, env);
        && (r.Ok? <==> spec.Ok?)
        && (r.Ok? ==> var c := spec.value.cursor;
              StateOf() == c.state && hitCount == c.hits && r.value == (c.first, c.last))
        && (r.Err? ==> r.error == spec.error)
      ensures hitCounts == old(hitCounts)
    {
      ghost var c0 := Cursor(StateOf(), hitCount, first, last);
      var firstTime, lastTime := first, last;
      var i := 0;
      while i < |lines|
        invariant 0 <= i <= |lines|
        invariant ShapeFor(StateOf(), opts) && hitCounts == old(hitCounts)
        invariant ScanLines(c0, lines, st, env) == ScanLines(Cursor(StateOf(), hitCount, firstTime, lastTime), lines[i..], st, env)
      {
        ghost var c := Cursor(StateOf(), hitCount, firstTime, lastTime);
        assert lines[i..][0] == lines[i] && lines[i..][1..] == lines[i + 1..];
        ScanStep(c, lines[i..], st, env);
        var step := ScanLine(lines[i], st, env, firstTime, lastTime);
        if step.Err? {
          return Err(step.error);
        }
        firstTime, lastTime := step.value.1, step.value.2;
        if step.value.0 {
          return Ok((firstTime, lastTime));
        }
        i := i + 1;
      }
      return Ok((firstTime, lastTime));
    }

    /** `get_data_from_logs`: the files are scanned in order (newest first
        unless the caller fixed it), each in the direction its strategy
        asks for, and each file's hits are recorded under its name before
        the count restarts at zero. The run ends with the store, the
        per-file hit counts and the first and last recorded times that
        `ScanFiles` describes; the first exception ends the run. */
    method GetDataFromLogs(logs: seq<LogFile>, callerOrdered: bool, ro: ReadOpts, env: Env)
      returns (r: Result<(Option<Stamp>, Option<Stamp>), LineError>)
      requires env.opts == opts && env.window == window && env.tenMin == tenMinEnable
      requires Valid() && env.pats.date([]) == None
      modifies this
      ensures var spec := ScanFiles(Run(old(StateOf()), None, None, old(hitCounts)), ScanOrder(logs, callerOrdered), ro, env);
        && (r.Ok? <==> spec.Ok?)
        && (r.Ok? ==> StateOf() == spec.value.state && hitCounts == spec.value.hitCounts
                      && r.value == (spec.value.first, spec.value.last))
        && (r.Err? ==> r.error == spec.error)
      ensures r.Ok? ==> Valid()
    {
      var files := ScanOrder(logs, callerOrdered);
      ghost var r0 := Run(StateOf(), None, None, hitCounts);
      var first: Option<Stamp> := None;
      var last: Option<Stamp> := None;
      var k := 0;
      while k < |files|
        invariant 0 <= k <= |files|
        invariant Consistent(StateOf(), opts, tenMinEnable) && hitCount == 0
        invariant ScanFiles(r0, files, ro, env) == ScanFiles(Run(StateOf(), first, last, hitCounts), files[k..], ro, env)
      {
        var f := files[k];
        assert files[k..][0] == f && files[k..][1..] == files[k + 1..];
        var st := StrategyOf(f.name, ro);
        ghost var c0 := Cursor(StateOf(), 0, first, last);
        var lines: seq<string>;
        if st.backward {
          lines := ReverseReadline(f.content, DefaultBufSize);
          assert ScanLines(c0, lines, st, env) == ScanLines(c0, FileLines(f, st), st, env) by {
            EmptyLinesIgnored(c0, lines, st, env);
            NonEmptyReverse(Reverse(lines));
            ReverseReverse(lines);
          }
        } else {
          lines := ForwardLines(f.content);
        }
        var res := ScanLog(lines, st, env, first, last);
        if res.Err? {
          return Err(res.error);
        }
        ScanCounts(c0, lines, st, env);
        first, last := res.value.0, res.value.1;
        hitCounts := hitCounts[f.name := hitCount];
        hitCount := 0;
        k := k + 1;
      }
      return Ok((first, last));
    }
  }
}
