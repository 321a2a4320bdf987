/** The numbers that limit the report: how many ip's and requests the
    options ask for, the cap that protects the geo lookup service, and the
    top-N listings with their "... and N more" remainders. */
module Report {
  import opened Wrappers
  import opened Sorting

  /** The number-carrying options as parsed: `--ip IP_NO REQ_NO`,
      `--request REQ_NO IP_NO`, `--rmatch IP_NO ...`, `--ipmatch REQ_NO ...`
      and `--compact IP_NO REQ_NO`; an option not given is `None`. */
  datatype NumberOpts = NumberOpts(
    ip: Option<(int, int)>,
    request: Option<(int, int)>,
    rmatch: Option<int>,
    ipmatch: Option<int>,
    compact: Option<(int, int)>,
    nogeo: bool)

  /** `data['ip_no']`, `data['request_no']` and `data['geo_limit']`
      (absent when the cap did not fire). */
  datatype Limits = Limits(ipNo: Option<int>, requestNo: Option<int>, geoLimit: Option<int>)

  /** The most ip's a listing sends to the geo lookup service. */
  const GeoCap: int := 30

  /** The argument checks guarantee that one of the modes was chosen. */
  predicate ModeGiven(o: NumberOpts)
  {
    o.ip.Some? || o.request.Some? || o.rmatch.Some? || o.ipmatch.Some? || o.compact.Some?
  }

  /** The ipmatch branch is taken: no earlier option is set. */
  predicate IpMatchChosen(o: NumberOpts)
  {
    o.ip.None? && o.request.None? && o.rmatch.None? && o.ipmatch.Some?
  }

  /** The rmatch branch is taken. */
  predicate RMatchChosen(o: NumberOpts)
  {
    o.ip.None? && o.request.None? && o.rmatch.Some?
  }

  /** The ip number the options ask for, before the cap; the ipmatch mode
      names its ip's itself and asks for no number. */
  function RequestedIps(o: NumberOpts): Option<int>
    requires ModeGiven(o)
  {
    if o.ip.Some? then Some(o.ip.value.0)
    else if o.request.Some? then Some(o.request.value.1)
    else if o.rmatch.Some? then Some(o.rmatch.value)
    else if o.ipmatch.Some? then None
    else Some(o.compact.value.0)
  }

  /** The request number the options ask for; the rmatch mode names its
      requests itself. */
  function RequestedRequests(o: NumberOpts): Option<int>
    requires ModeGiven(o)
  {
    if o.ip.Some? then Some(o.ip.value.1)
    else if o.request.Some? then Some(o.request.value.0)
    else if o.rmatch.Some? then None
    else if o.ipmatch.Some? then Some(o.ipmatch.value)
    else Some(o.compact.value.1)
  }

  /** `ip_req_number_args`: the numbers come from the first option set, in
      the order ip, request, rmatch, ipmatch, compact; unless `--nogeo` is
      given, an ip number above 30 is lowered to 30 and the asked-for number
      is kept as the geo limit. A missing ip number (ipmatch) is never
      capped, since `None > 30` is false. */
  function IpReqNumberArgs(o: NumberOpts): (r: Limits)
    requires ModeGiven(o)
    ensures r.requestNo == RequestedRequests(o)
    ensures r.ipNo.None? <==> IpMatchChosen(o)
    ensures r.requestNo.None? <==> RMatchChosen(o)
    ensures !o.nogeo && r.ipNo.Some? ==> r.ipNo.value <= GeoCap
    ensures r.geoLimit.Some? <==> !o.nogeo && RequestedIps(o).Some? && RequestedIps(o).value > GeoCap
    ensures r.geoLimit.Some? ==> r.geoLimit == RequestedIps(o) && r.ipNo == Some(GeoCap)
    ensures r.geoLimit.None? ==> r.ipNo == RequestedIps(o)
  {
    var ipNo := RequestedIps(o);
    var requestNo := RequestedRequests(o);
    if !o.nogeo && ipNo.Some? && ipNo.value > GeoCap then
      Limits(Some(GeoCap), requestNo, ipNo)
    else
      Limits(ipNo, requestNo, None)
  }

  /** `--request` gives its numbers the other way round from `--ip` and
      `--compact`: the request number first. */
  lemma RequestOrderSwapped(o: NumberOpts, a: int, b: int)
    requires o.ip.None? && o.request == Some((a, b)) && o.nogeo
    ensures IpReqNumberArgs(o) == Limits(Some(b), Some(a), None)
  {
  }

  function MinInt(x: int, y: int): int { if x <= y then x else y }

  function MaxInt(x: int, y: int): int { if x >= y then x else y }

  /** Python's slice `xs[:n]`: the first `n` elements, or all of them when
      there are fewer; a negative `n` drops the last `-n` elements. */
  function Take<T>(xs: seq<T>, n: int): (r: seq<T>)
    ensures r <= xs
    ensures n >= 0 ==> |r| == MinInt(n, |xs|)
    ensures n < 0 ==> |xs| - |r| == MinInt(-n, |xs|)
  {
    if n >= 0 then
      if n <= |xs| then xs[..n] else xs
    else if |xs| + n >= 0 then xs[..|xs| + n]
    else []
  }

  /** The "... and N more" number: `len - n` when that is positive,
      otherwise 0. */
  function Remainder(len: nat, n: int): (r: nat)
    ensures r >= len - n
    ensures r == 0 || r == len - n
  {
    var count := len - n;
    if count > 0 then count else 0
  }

  /** The shown entries and the remainder add up to the whole listing
      exactly when the number asked for is not negative (a negative number
      both hides entries and inflates the remainder). */
  lemma {:induction false} ShownPlusRemainder<T>(xs: seq<T>, n: int)
    ensures |Take(xs, n)| + Remainder(|xs|, n) == |xs| <==> n >= 0
  {
    if n < 0 {
      assert Remainder(|xs|, n) == |xs| - n;
    }
  }

  /** A top-N listing of a list sorted by non-increasing count: every shown
      entry counts at least as much as every hidden one. */
  lemma TopDominates<T>(xs: seq<T>, n: int, key: T -> int)
    requires NonIncreasingBy(xs, key)
    ensures forall i, j :: 0 <= i < |Take(xs, n)| <= j < |xs| ==> key(Take(xs, n)[i]) >= key(xs[j])
  {
    var t := Take(xs, n);
    forall i, j | 0 <= i < |t| <= j < |xs|
      ensures key(t[i]) >= key(xs[j])
    {
      assert t[i] == xs[i];
    }
  }

  /** Nothing checks the sign of the numbers, so `--compact -1 10` keeps
      ip number -1: it is not above 30, and `[:-1]` lists every ip but one,
      each with a geo lookup, while the remainder reads one more than the
      whole list. With 32 ip's, 31 lookups go out. */
  lemma NegativeIpNumberEvadesCap<T>(items: seq<T>)
    requires |items| == 32
    ensures var o := NumberOpts(None, None, None, None, Some((-1, 10)), false);
      var n := IpReqNumberArgs(o).ipNo.value;
      && |Take(items, n)| == 31 > GeoCap
      && Remainder(|items|, n) == 33
  {
  }

  /** The numbers as the cap intends them: a negative number asks for no
      entries, and an ip number above 30 is lowered to 30 unless `--nogeo`
      is given. */
  function IpReqNumberArgsFixed(o: NumberOpts): (r: Limits)
    requires ModeGiven(o)
    ensures r.ipNo.None? <==> IpMatchChosen(o)
    ensures r.requestNo.None? <==> RMatchChosen(o)
    ensures r.ipNo.Some? ==> 0 <= r.ipNo.value && (!o.nogeo ==> r.ipNo.value <= GeoCap)
    ensures r.requestNo.Some? ==> 0 <= r.requestNo.value
    ensures r.geoLimit == IpReqNumberArgs(o).geoLimit
    ensures var w := IpReqNumberArgs(o).ipNo; w.Some? && w.value >= 0 ==> r.ipNo == w
    ensures var w := IpReqNumberArgs(o).requestNo; w.Some? && w.value >= 0 ==> r.requestNo == w
  {
    var lim := IpReqNumberArgs(o);
    Limits(NonNegative(lim.ipNo), NonNegative(lim.requestNo), lim.geoLimit)
  }

  function NonNegative(n: Option<int>): (r: Option<int>)
    ensures r.Some? <==> n.Some?
    ensures r.Some? ==> r.value == MaxInt(n.value, 0)
  {
    if n.Some? && n.value < 0 then Some(0) else n
  }

  /** The entity list of `print_ip`: sorted by count, truncated to the ip
      number except in the ipmatch mode, which lists every matched ip. */
  function IpListing<T>(sorted: seq<T>, o: NumberOpts): (r: seq<T>)
    requires ModeGiven(o)
    ensures r <= sorted
    ensures o.ipmatch.Some? ==> r == sorted
    ensures o.ipmatch.None? ==> !o.nogeo ==> |r| <= GeoCap
    ensures o.ipmatch.None? ==> |r| == MinInt(IpReqNumberArgsFixed(o).ipNo.value, |sorted|)
  {
    var lim := IpReqNumberArgsFixed(o);
    if o.ipmatch.Some? then sorted else Take(sorted, lim.ipNo.value)
  }

  /** The entity list of `print_request`: sorted by count, truncated to
      the request number except in the rmatch mode, which lists every
      matched request. No remainder is printed for the requests. */
  function RequestListing<T>(sorted: seq<T>, o: NumberOpts): (r: seq<T>)
    requires ModeGiven(o)
    ensures r <= sorted
    ensures o.rmatch.Some? ==> r == sorted
    ensures o.rmatch.None? ==> |r| == MinInt(IpReqNumberArgsFixed(o).requestNo.value, |sorted|)
  {
    var lim := IpReqNumberArgsFixed(o);
    if o.rmatch.Some? then sorted else Take(sorted, lim.requestNo.value)
  }

  /** The ip's listed under one entity (`most_common()[:ip_no]` in
      `print_compact` and `print_request`): never more than the cap unless
      `--nogeo` is given, and together with the remainder they cover all
      of them. */
  lemma GeoListingBounded<T>(items: seq<T>, o: NumberOpts)
    requires ModeGiven(o) && !IpMatchChosen(o)
    ensures var n := IpReqNumberArgsFixed(o).ipNo.value;
      && (!o.nogeo ==> |Take(items, n)| <= GeoCap)
      && |Take(items, n)| + Remainder(|items|, n) == |items|
  {
    ShownPlusRemainder(items, IpReqNumberArgsFixed(o).ipNo.value);
  }
}
