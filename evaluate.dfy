/** `evaluate_line`: one log line is searched for its timestamp and its
    request field, the timestamp is parsed, and a line inside the closed
    window is folded into the store under the mode the options select. The
    two regex searches are given as functions. */
module Evaluator {
  import opened Wrappers
  import opened Sums
  import opened Counters
  import opened Timestamps
  import opened CountStore

  /** The options that select the store shape and the folding branch. The
      argument checks allow only one of them; the model does not rely on
      that and answers a combination whose store lacks the field a branch
      needs with `MissingRecordField`. */
  datatype Opts = Opts(ip: bool, request: bool, ipmatch: bool, rmatch: bool, compact: bool)

  /** The compiled searches: the timestamp substring `DD/Mon/YYYY:HH:MM:SS`
      of a line, and its quoted request field followed by a status code
      (restricted to the `--filter` method when one is given). */
  datatype Patterns = Patterns(date: string -> Option<string>, request: string -> Option<string>)

  /** What is fixed for a run: the window, the options, the positional
      arguments (the `--ipmatch`/`--rmatch` values), the searches and
      whether ten-minute buckets are kept. */
  datatype Env = Env(window: Window, opts: Opts, args: seq<string>, pats: Patterns, tenMin: bool)

  /** `ip_req_count` and `date_count` (absent in the match modes). */
  datatype State = State(ipReq: IpReqCount, overall: Option<Tree>)

  /** What `evaluate_line` leaves behind: the store and the returned time. */
  datatype Outcome = Outcome(state: State, found: Option<Stamp>)

  predicate MatchMode(o: Opts) { o.ipmatch || o.rmatch }

  /** The entity is the request string when collecting by request. */
  predicate ByRequest(o: Opts) { o.request || o.rmatch }

  /** The store `__init__` builds for the options. */
  function InitialState(o: Opts): (s: State)
    ensures s.overall.None? <==> MatchMode(o)
    ensures s.ipReq.Detailed? <==> o.request || o.rmatch || o.ip || o.ipmatch
    ensures s.ipReq.Detailed? ==> (s.ipReq.kind.RequestRecords? <==> ByRequest(o))
    ensures s.ipReq.Detailed? ==> s.ipReq.entities == map[]
    ensures s.ipReq.Compact? ==> s.ipReq.ips == map[] && s.ipReq.requests == map[]
    ensures s.overall.Some? ==> s.overall.value == map[]
  {
    var overall: Option<Tree> := if MatchMode(o) then None else Some(map[]);
    if ByRequest(o) then State(Detailed(RequestRecords, map[]), overall)
    else if o.ip || o.ipmatch then State(Detailed(IpRecords, map[]), overall)
    else State(Compact(map[], map[]), overall)
  }

  /** The store has the shape `__init__` gives it for the options. */
  predicate ShapeFor(s: State, o: Opts)
  {
    && (s.overall.None? <==> MatchMode(o))
    && (s.ipReq.Detailed? <==> o.request || o.rmatch || o.ip || o.ipmatch)
    && (s.ipReq.Detailed? ==> (s.ipReq.kind.RequestRecords? <==> ByRequest(o)))
  }

  // ---------------------------------------------------------------------
  // Text helpers

  /** A character `str.split()` treats as whitespace. */
  predicate IsSpace(c: char) { c == ' ' || 9 <= c as int <= 13 }

  function DropSpaces(s: string): (r: string)
    ensures |r| <= |s| && r == s[|s| - |r|..]
    ensures r != [] ==> !IsSpace(r[0])
    ensures forall i :: 0 <= i < |s| - |r| ==> IsSpace(s[i])
  {
    if s != [] && IsSpace(s[0]) then DropSpaces(s[1..]) else s
  }

  function TakeWord(s: string): (r: string)
    ensures r <= s
    ensures forall i :: 0 <= i < |r| ==> !IsSpace(r[i])
    ensures |r| < |s| ==> IsSpace(s[|r|])
  {
    if s == [] || IsSpace(s[0]) then [] else [s[0]] + TakeWord(s[1..])
  }

  /** `line.split()[0]`: the first whitespace-separated field, or none
      (`IndexError`) for a line of blanks. */
  function FirstField(line: string): (r: Option<string>)
    ensures r.Some? ==> r.value != [] && forall i :: 0 <= i < |r.value| ==> !IsSpace(r.value[i])
    ensures r.None? <==> forall i :: 0 <= i < |line| ==> IsSpace(line[i])
  {
    var rest := DropSpaces(line);
    if rest == [] then None else Some(TakeWord(rest))
  }

  /** A line break is a blank: trailing it after a text of blanks leaves
      nothing once the blanks are dropped. */
  lemma {:induction false} BlanksNewline(s: string)
    requires DropSpaces(s) == []
    ensures DropSpaces(s + "\n") == []
    decreases |s|
  {
    var t := s + "\n";
    if s == [] {
      assert t == "\n" && t[1..] == [];
    } else {
      assert t[0] == s[0] && t[1..] == s[1..] + "\n";
      BlanksNewline(s[1..]);
    }
  }

  /** After a text with a field, a trailing line break stays behind the
      dropped blanks. */
  lemma {:induction false} FieldNewline(s: string)
    requires DropSpaces(s) != []
    ensures DropSpaces(s + "\n") == DropSpaces(s) + "\n"
    decreases |s|
  {
    var t := s + "\n";
    assert t[0] == s[0] && t[1..] == s[1..] + "\n";
    if IsSpace(s[0]) {
      FieldNewline(s[1..]);
    }
  }

  lemma {:induction false} TakeWordNewline(s: string)
    ensures TakeWord(s + "\n") == TakeWord(s)
    decreases |s|
  {
    if s != [] {
      assert (s + "\n")[0] == s[0] && (s + "\n")[1..] == s[1..] + "\n";
      TakeWordNewline(s[1..]);
    }
  }

  lemma FirstFieldNewline(line: string)
    ensures FirstField(line + "\n") == FirstField(line)
  {
    var rest := DropSpaces(line);
    if rest == [] {
      BlanksNewline(line);
    } else {
      FieldNewline(line);
      TakeWordNewline(rest);
    }
  }

  /** `x in s` for strings: `x` occurs in `s` as a contiguous piece. */
  function Contains(s: string, x: string): bool
    decreases |s|
  {
    x <= s || (s != [] && Contains(s[1..], x))
  }

  /** `x` occurs in `s` starting at index `i`. */
  predicate OccursAt(s: string, x: string, i: int)
  {
    0 <= i <= |s| - |x| && s[i..i + |x|] == x
  }

  /** `Contains` is the substring test; the empty string occurs in every
      string. */
  lemma {:induction false} ContainsIsSubstring(s: string, x: string)
    ensures Contains(s, x) <==> exists i :: OccursAt(s, x, i)
    decreases |s|
  {
    if x <= s {
      assert OccursAt(s, x, 0);
    } else if s == [] {
    } else {
      ContainsIsSubstring(s[1..], x);
      if Contains(s[1..], x) {
        var i :| OccursAt(s[1..], x, i);
        assert s[1..][i..i + |x|] == s[i + 1..i + 1 + |x|];
        assert OccursAt(s, x, i + 1);
      }
      assert !OccursAt(s, x, 0);
      if exists i :: OccursAt(s, x, i) {
        var i :| OccursAt(s, x, i);
        assert s[1..][i - 1..i - 1 + |x|] == s[i..i + |x|];
        assert OccursAt(s[1..], x, i - 1);
      }
    }
  }

  /** `any(x in requests for x in args)` */
  predicate AnyContained(args: seq<string>, requests: string)
  {
    exists i :: 0 <= i < |args| && Contains(requests, args[i])
  }

  // ---------------------------------------------------------------------
  // The evaluator

  /** The time a line carries when both searches match and its timestamp
      parses; `None` when a search fails. */
  function LineTime(line: string, pats: Patterns): Option<Result<Parsed, LineError>>
  {
    match pats.date(line)
    case None => None
    case Some(date) =>
      if pats.request(line).None? then None else Some(ParseTimestamp(date))
  }

  /** The folding dispatch for an in-window line. */
  function Fold(s: State, p: Parsed, requests: string, ip: string, env: Env): (r: Result<State, LineError>)
    requires ShapeFor(s, env.opts)
    ensures r.Ok? ==> ShapeFor(r.value, env.opts)
  {
    var o := env.opts;
    var key := if ByRequest(o) then requests else ip;
    var d := p.time.DateOf();
    var h := p.hourKey;
    var b := BucketKey(p);
    var overall := if !o.rmatch && !o.ipmatch then Some(DictDateAdd(s.overall.value, d, h, b)) else s.overall;
    if o.ipmatch then
      if key !in env.args then Ok(State(s.ipReq, overall))
      else if s.ipReq.kind.RequestRecords? then Err(MissingRecordField)
      else Ok(State(Detailed(IpRecords, Record(s.ipReq.entities, key, requests, d, h, b, env.tenMin)), overall))
    else if o.rmatch then
      if !AnyContained(env.args, requests) then Ok(State(s.ipReq, overall))
      else Ok(State(Detailed(RequestRecords, Record(s.ipReq.entities, key, ip, d, h, b, env.tenMin)), overall))
    else if o.compact then
      match s.ipReq
      case Compact(ips, reqs) => Ok(State(Compact(Inc(ips, ip), Inc(reqs, requests)), overall))
      case Detailed(_, _) => Err(MissingRecordField)
    else
      match s.ipReq
      case Detailed(kind, m) =>
        Ok(State(Detailed(kind, Record(m, key, if o.request then ip else requests, d, h, b, env.tenMin)), overall))
      case Compact(_, _) => Err(MissingRecordField)
  }

  /** `evaluate_line(line, start_time, end_time, ...)` */
  function Evaluate(s: State, line: string, env: Env): (r: Result<Outcome, LineError>)
    requires ShapeFor(s, env.opts)
    ensures r.Ok? ==> ShapeFor(r.value.state, env.opts)
  {
    match LineTime(line, env.pats)
    case None => Ok(Outcome(s, None))
    case Some(Err(e)) => Err(e)
    case Some(Ok(p)) =>
      if !InWindow(p.time, env.window) then Ok(Outcome(s, None))
      else
        match FirstField(line)
        case None => Err(NoClientField)
        case Some(ip) =>
          match Fold(s, p, env.pats.request(line).value, ip, env)
          case Err(e) => Err(e)
          case Ok(s') => Ok(Outcome(s', Some(p.time)))
  }

  /** Both searches give the same answer on a line with or without its
      terminating line break. The source's date pattern matches no line
      break, and its request pattern ends in three digits, so neither
      match can take in a final `'\n'`. */
  ghost predicate BlindToLineEnd(pats: Patterns)
  {
    forall l: string {:trigger l + "\n"} ::
      pats.date(l + "\n") == pats.date(l) && pats.request(l + "\n") == pats.request(l)
  }

  /** Evaluation looks at a line only through the two searches and its
      first field. */
  lemma EvaluateBySearches(s: State, a: string, b: string, env: Env)
    requires ShapeFor(s, env.opts)
    requires env.pats.date(a) == env.pats.date(b) && env.pats.request(a) == env.pats.request(b)
    requires FirstField(a) == FirstField(b)
    ensures Evaluate(s, a, env) == Evaluate(s, b, env)
  {
    var lt := LineTime(a, env.pats);
    assert lt == LineTime(b, env.pats);
    if lt.Some? && lt.value.Ok? && InWindow(lt.value.value.time, env.window) && FirstField(a).Some? {
      var p, ip := lt.value.value, FirstField(a).value;
      var f := Fold(s, p, env.pats.request(a).value, ip, env);
      assert Evaluate(s, a, env) == if f.Ok? then Ok(Outcome(f.value, Some(p.time))) else Err(f.error);
      assert Evaluate(s, b, env) == if f.Ok? then Ok(Outcome(f.value, Some(p.time))) else Err(f.error);
    }
  }

  /** Searches blind to the line break evaluate a line with its line
      break as the line without it. */
  lemma EvaluateNewline(s: State, line: string, env: Env)
    requires ShapeFor(s, env.opts) && BlindToLineEnd(env.pats)
    ensures Evaluate(s, line + "\n", env) == Evaluate(s, line, env)
  {
    assert env.pats.date(line + "\n") == env.pats.date(line);
    assert env.pats.request(line + "\n") == env.pats.request(line);
    FirstFieldNewline(line);
    EvaluateBySearches(s, line + "\n", line, env);
  }

  /** `dict_date_add` on the overall tree: always with its bucket. */
  function DictDateAdd(t: Tree, d: Date, h: string, b: char): Tree
  {
    BumpTree(t, d, h, b, true)
  }

  // ---------------------------------------------------------------------
  // What the evaluator promises

  /** The entity key of a line: its request or its client address. */
  function Key(o: Opts, requests: string, ip: string): string
  {
    if ByRequest(o) then requests else ip
  }

  /** Whether a match mode accepts the line's key. */
  predicate Accepted(o: Opts, args: seq<string>, requests: string, ip: string)
  {
    if o.ipmatch then Key(o, requests, ip) in args else AnyContained(args, requests)
  }

  /** The invariant of the store between lines: the shape `__init__` gave
      it, every count the sum of the counts below it, and every record
      counted once in each of the trees and counters that take it. */
  ghost predicate Consistent(s: State, o: Opts, ten: bool)
  {
    && ShapeFor(s, o)
    && (s.overall.Some? ==> TreeOk(s.overall.value, true))
    && (s.ipReq.Detailed? ==> EntitiesOk(s.ipReq.entities, ten))
    && (s.ipReq.Detailed? && s.overall.Some? ==>
          StoreTotal(s.ipReq.entities) == TreeTotal(s.overall.value))
    && (s.ipReq.Compact? ==>
          s.overall.Some? &&
          Sum(s.ipReq.ips) == TreeTotal(s.overall.value) &&
          Sum(s.ipReq.requests) == TreeTotal(s.overall.value))
  }

  /** The store `__init__` builds is consistent. */
  lemma InitialConsistent(o: Opts, ten: bool)
    ensures Consistent(InitialState(o), o, ten)
  {
    EmptyOk(ten);
    EmptyOk(true);
  }

  /** The window is closed and the time is the line's own: a line is
      folded and its time returned exactly when both searches match, the
      timestamp parses and `start <= time <= end`; a parse failure is fatal;
      otherwise the store is untouched and nothing is returned. */
  lemma EvaluateFinds(s: State, line: string, env: Env)
    requires ShapeFor(s, env.opts)
    ensures var r := Evaluate(s, line, env);
      var lt := LineTime(line, env.pats);
      && (lt.Some? && lt.value.Err? ==> r == Err(lt.value.error))
      && (r.Ok? ==> (r.value.found.Some? <==>
            lt.Some? && lt.value.Ok? && InWindow(lt.value.value.time, env.window)))
      && (r.Ok? && r.value.found.Some? ==> r.value.found.value == lt.value.value.time)
      && (r.Ok? && r.value.found.None? ==> r.value.state == s)
  {
  }

  /** Both bounds of the window count. */
  lemma WindowBoundsInclusive(w: Window)
    requires Leq(w.start, w.end)
    ensures InWindow(w.start, w) && InWindow(w.end, w)
  {
    LeqReflexive(w.start);
    LeqReflexive(w.end);
  }

  /** The match modes never touch an overall tree, and fold the line
      exactly when its key is accepted: the store's total rises by one
      then, and stands still otherwise. */
  lemma FoldMatchMode(s: State, p: Parsed, requests: string, ip: string, env: Env)
    requires Consistent(s, env.opts, env.tenMin) && MatchMode(env.opts)
    requires IsHourKey(p.hourKey) && IsBucketKey(BucketKey(p))
    requires Fold(s, p, requests, ip, env).Ok?
    ensures var s' := Fold(s, p, requests, ip, env).value;
      && s'.overall.None?
      && s'.ipReq.Detailed? && s'.ipReq.kind == s.ipReq.kind
      && StoreTotal(s'.ipReq.entities) ==
           StoreTotal(s.ipReq.entities) + (if Accepted(env.opts, env.args, requests, ip) then 1 else 0)
      && (!Accepted(env.opts, env.args, requests, ip) ==> s' == s)
  {
    var o := env.opts;
    if Accepted(o, env.args, requests, ip) {
      RecordStep(s.ipReq.entities, Key(o, requests, ip), if o.ipmatch then requests else ip,
                 p.time.DateOf(), p.hourKey, BucketKey(p), env.tenMin);
    }
  }

  /** Compact mode raises the line's client count and its request count
      by one each, and nothing else in the two counters. */
  lemma FoldCompact(s: State, p: Parsed, requests: string, ip: string, env: Env)
    requires ShapeFor(s, env.opts) && !MatchMode(env.opts) && env.opts.compact
    requires Fold(s, p, requests, ip, env).Ok?
    ensures var s' := Fold(s, p, requests, ip, env).value;
      && s.ipReq.Compact? && s'.ipReq.Compact?
      && Get(s'.ipReq.ips, ip) == Get(s.ipReq.ips, ip) + 1
      && Get(s'.ipReq.requests, requests) == Get(s.ipReq.requests, requests) + 1
      && (forall k :: k != ip ==> Get(s'.ipReq.ips, k) == Get(s.ipReq.ips, k))
      && (forall k :: k != requests ==> Get(s'.ipReq.requests, k) == Get(s.ipReq.requests, k))
  {
  }

  /** Outside the match modes a folded line is counted once in the overall
      tree, and, in the detailed modes, once in its entity record together
      with its co-occurrence (the request of an IP, or the IP of a
      request). */
  lemma FoldCounted(s: State, p: Parsed, requests: string, ip: string, env: Env)
    requires Consistent(s, env.opts, env.tenMin) && !MatchMode(env.opts)
    requires IsHourKey(p.hourKey) && IsBucketKey(BucketKey(p))
    requires Fold(s, p, requests, ip, env).Ok?
    ensures var s' := Fold(s, p, requests, ip, env).value;
      && s'.overall.Some?
      && TreeTotal(s'.overall.value) == TreeTotal(s.overall.value) + 1
      && (s.ipReq.Detailed? ==>
            var key := Key(env.opts, requests, ip);
            var co := if env.opts.request then ip else requests;
            && s'.ipReq.Detailed?
            && StoreTotal(s'.ipReq.entities) == StoreTotal(s.ipReq.entities) + 1
            && s'.ipReq.entities[key].count == EntityAt(s.ipReq.entities, key).count + 1
            && Get(s'.ipReq.entities[key].co, co) == Get(EntityAt(s.ipReq.entities, key).co, co) + 1)
  {
    TreeStep(s.overall.value, p.time.DateOf(), p.hourKey, BucketKey(p), true);
    if s.ipReq.Detailed? {
      var o := env.opts;
      var co := if o.request then ip else requests;
      RecordStep(s.ipReq.entities, Key(o, requests, ip), co, p.time.DateOf(), p.hourKey, BucketKey(p), env.tenMin);
    }
  }

  /** Folding a line keeps the store consistent. */
  lemma FoldKeepsConsistent(s: State, p: Parsed, requests: string, ip: string, env: Env)
    requires Consistent(s, env.opts, env.tenMin)
    requires IsHourKey(p.hourKey) && IsBucketKey(BucketKey(p))
    requires Fold(s, p, requests, ip, env).Ok?
    ensures Consistent(Fold(s, p, requests, ip, env).value, env.opts, env.tenMin)
  {
    var o := env.opts;
    var d, h, b := p.time.DateOf(), p.hourKey, BucketKey(p);
    if !MatchMode(o) {
      TreeStep(s.overall.value, d, h, b, true);
    }
    if s.ipReq.Detailed? {
      var co := if o.ipmatch then requests else if o.rmatch then ip else if o.request then ip else requests;
      RecordStep(s.ipReq.entities, Key(o, requests, ip), co, d, h, b, env.tenMin);
    } else {
      CompactStep(s.ipReq.ips, s.ipReq.requests, ip, requests);
    }
  }

  /** Evaluating a line keeps the store consistent. */
  lemma EvaluateKeepsConsistent(s: State, line: string, env: Env)
    requires Consistent(s, env.opts, env.tenMin)
    requires Evaluate(s, line, env).Ok?
    ensures Consistent(Evaluate(s, line, env).value.state, env.opts, env.tenMin)
  {
    var lt := LineTime(line, env.pats);
    if lt.Some? && lt.value.Ok? && InWindow(lt.value.value.time, env.window) {
      ParseKeys(env.pats.date(line).value);
      FoldKeepsConsistent(s, lt.value.value, env.pats.request(line).value, FirstField(line).value, env);
    }
  }

  /** `ten_min_interval` decides the buckets of the entity records only:
      from a window of six hours or more without `--ten`, or with
      `--ten off`, no entity hour holds a ten-minute bucket, and with the
      buckets kept every entity hour's count is the sum of its buckets. The
      overall tree keeps its buckets whatever the flag. */
  lemma TenMinBuckets(s: State, o: Opts, w: Window, ten: TenOption)
    requires ValidStamp(w.start) && ValidStamp(w.end)
    requires Consistent(s, o, TenMinEnabled(Span(w), ten))
    ensures s.ipReq.Detailed? ==>
      forall k, d, h ::
        k in s.ipReq.entities && d in s.ipReq.entities[k].date && h in s.ipReq.entities[k].date[d].hour ==>
          var n := s.ipReq.entities[k].date[d].hour[h];
          && ((ten.TenOff? || (ten.TenAuto? && Span(w) >= 6 * 3600)) ==> n.tenMin == map[])
          && (TenMinEnabled(Span(w), ten) ==> n.count == Sum(n.tenMin))
    ensures s.overall.Some? ==>
      forall d, h :: d in s.overall.value && h in s.overall.value[d].hour ==>
        s.overall.value[d].hour[h].count == Sum(s.overall.value[d].hour[h].tenMin)
  {
  }

  /** The argument checks accept exactly one of the data options `--ip`,
      `--request`, `--ipmatch`, `--rmatch` and `--compact`. */
  predicate ExactlyOne(o: Opts)
  {
    (if o.ip then 1 else 0) + (if o.request then 1 else 0) + (if o.ipmatch then 1 else 0)
      + (if o.rmatch then 1 else 0) + (if o.compact then 1 else 0) == 1
  }

  /** With a single data option the store `__init__` builds always has the
      field the folding branch needs, so no line fails with
      `MissingRecordField`. */
  lemma SingleOptionFolds(s: State, p: Parsed, requests: string, ip: string, env: Env)
    requires ExactlyOne(env.opts) && ShapeFor(s, env.opts)
    ensures Fold(s, p, requests, ip, env).Ok?
  {
  }

  /** The error is reachable only through a combination the argument
      checks reject: with `--ip` and `--compact` together the store is
      per-IP while the compact branch is taken. */
  lemma CombinedOptionsFail(s: State, p: Parsed, requests: string, ip: string, env: Env)
    requires env.opts == Opts(true, false, false, false, true) && ShapeFor(s, env.opts)
    ensures Fold(s, p, requests, ip, env) == Err(MissingRecordField)
  {
  }
}
