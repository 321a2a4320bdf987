/** Calendar times as the scanner sees them: the log timestamp
    `DD/Mon/YYYY:HH:MM:SS`, its positional parse through the twelve-entry
    month table, the comparison of times, the ten-minute tracking rule and
    the window of a single `--date` day. */
module Timestamps {
  import opened Wrappers

  /** A calendar date, the key of the per-date counts (`found_time.date()`). */
  datatype Date = Date(year: int, month: int, day: int)

  /** A `datetime` with whole seconds. */
  datatype Stamp = Stamp(year: int, month: int, day: int, hour: int, minute: int, second: int)
  {
    function DateOf(): Date { Date(year, month, day) }
  }

  /** The closed time window `[start, end]` of a run. */
  datatype Window = Window(start: Stamp, end: Stamp)

  /** Why evaluating a line raised; each is an exception the scan does not
      catch, so it ends the run. */
  datatype LineError =
    | UnknownMonth(name: string)   // KeyError from the month table
    | NotANumber(text: string)     // ValueError from int()
    | OutOfRange                   // ValueError from the datetime constructor
    | NoClientField                // IndexError from line.split()[0]
    | MissingRecordField           // KeyError: the record shape has no such field

  /** The parsed timestamp with the raw hour and minute texts, which key the
      hour counts and (by their first digit) the ten-minute buckets. */
  datatype Parsed = Parsed(time: Stamp, hourKey: string, minuteKey: string)

  // ---------------------------------------------------------------------
  // Ordering (datetime comparison is field by field)

  predicate Leq(a: Stamp, b: Stamp)
  {
    if a.year != b.year then a.year < b.year
    else if a.month != b.month then a.month < b.month
    else if a.day != b.day then a.day < b.day
    else if a.hour != b.hour then a.hour < b.hour
    else if a.minute != b.minute then a.minute < b.minute
    else a.second <= b.second
  }

  predicate Lt(a: Stamp, b: Stamp) { Leq(a, b) && a != b }

  /** `start <= t <= end`: both bounds belong to the window. */
  predicate InWindow(t: Stamp, w: Window) { Leq(w.start, t) && Leq(t, w.end) }

  lemma LeqTotal(a: Stamp, b: Stamp)
    ensures Leq(a, b) || Leq(b, a)
    ensures Leq(a, b) && Leq(b, a) ==> a == b
  {
  }

  lemma LeqReflexive(a: Stamp)
    ensures Leq(a, a)
  {
  }

  lemma LeqTransitive(a: Stamp, b: Stamp, c: Stamp)
    requires Leq(a, b) && Leq(b, c)
    ensures Leq(a, c)
  {
  }

  // ---------------------------------------------------------------------
  // Calendar

  predicate IsLeap(y: int) { y % 4 == 0 && (y % 100 != 0 || y % 400 == 0) }

  function DaysInMonth(y: int, m: int): int
  {
    if m == 2 then (if IsLeap(y) then 29 else 28)
    else if m == 4 || m == 6 || m == 9 || m == 11 then 30
    else 31
  }

  /** What the `datetime` constructor accepts. */
  predicate ValidStamp(t: Stamp)
  {
    && 1 <= t.year <= 9999
    && 1 <= t.month <= 12
    && 1 <= t.day <= DaysInMonth(t.year, t.month)
    && 0 <= t.hour <= 23
    && 0 <= t.minute <= 59
    && 0 <= t.second <= 59
  }

  /** Days in the months of year `y` before month `m`. */
  function DaysBeforeMonth(y: int, m: int): int
    requires 1 <= m <= 13
    decreases m
  {
    if m == 1 then 0 else DaysBeforeMonth(y, m - 1) + DaysInMonth(y, m - 1)
  }

  /** Days in the years before year `y` (proleptic Gregorian, year 1 first). */
  function DaysBeforeYear(y: int): int
  {
    var p := y - 1;
    365 * p + p / 4 - p / 100 + p / 400
  }

  /** `date.toordinal()`: 1 for 1 January of year 1. */
  function Ordinal(d: Date): int
    requires 1 <= d.month <= 12
  {
    DaysBeforeYear(d.year) + DaysBeforeMonth(d.year, d.month) + d.day
  }

  /** Seconds since the start of year 1; a difference of two of these is the
      `total_seconds()` of the difference of two datetimes. */
  function Seconds(t: Stamp): int
    requires 1 <= t.month <= 12
  {
    Ordinal(t.DateOf()) * 86400 + t.hour * 3600 + t.minute * 60 + t.second
  }

  /** Moving from `y - 1` to `y` adds one to `y / k` exactly when `k`
      divides `y`. */
  lemma DivStep(y: int, k: int)
    requires k == 4 || k == 100 || k == 400
    ensures y / k == (y - 1) / k + (if y % k == 0 then 1 else 0)
  {
    var q, r := (y - 1) / k, (y - 1) % k;
    assert y - 1 == k * q + r && 0 <= r < k;
    if r == k - 1 {
      assert y == k * (q + 1);
    } else {
      assert y == k * q + (r + 1);
    }
  }

  lemma MultipleRemainders(q: int)
    ensures (400 * q) % 100 == 0 && (100 * q) % 4 == 0
  {
  }

  lemma DivisorsNest(y: int)
    ensures y % 400 == 0 ==> y % 100 == 0
    ensures y % 100 == 0 ==> y % 4 == 0
  {
    MultipleRemainders(y / 400);
    MultipleRemainders(y / 100);
  }

  lemma YearLength(y: int)
    ensures DaysBeforeYear(y + 1) == DaysBeforeYear(y) + (if IsLeap(y) then 366 else 365)
  {
    DivStep(y, 4);
    DivStep(y, 100);
    DivStep(y, 400);
    DivisorsNest(y);
    assert DaysBeforeYear(y + 1) == 365 * y + y / 4 - y / 100 + y / 400;
  }

  lemma {:induction false} YearsIncrease(a: int, b: int)
    requires a <= b
    ensures DaysBeforeYear(b) >= DaysBeforeYear(a) + 365 * (b - a)
    decreases b - a
  {
    if a < b {
      YearsIncrease(a, b - 1);
      YearLength(b - 1);
    }
  }

  lemma {:induction false} MonthsIncrease(y: int, m1: int, m2: int)
    requires 1 <= m1 <= m2 <= 13
    ensures DaysBeforeMonth(y, m2) >= DaysBeforeMonth(y, m1) + 28 * (m2 - m1)
    decreases m2 - m1
  {
    if m1 < m2 {
      MonthsIncrease(y, m1, m2 - 1);
    }
  }

  lemma WholeYear(y: int)
    ensures DaysBeforeMonth(y, 13) == if IsLeap(y) then 366 else 365
  {
  }

  predicate DateLess(a: Date, b: Date)
  {
    if a.year != b.year then a.year < b.year
    else if a.month != b.month then a.month < b.month
    else a.day < b.day
  }

  /** An earlier date has a smaller ordinal. */
  lemma OrdinalIncreases(a: Stamp, b: Stamp)
    requires ValidStamp(a) && ValidStamp(b) && DateLess(a.DateOf(), b.DateOf())
    ensures Ordinal(a.DateOf()) < Ordinal(b.DateOf())
  {
    if a.year < b.year {
      DayBefore(a, b);
    } else if a.month < b.month {
      MonthsIncrease(a.year, a.month + 1, b.month);
    }
  }

  /** Within the valid range, comparing datetimes field by field agrees
      with comparing their second counts. */
  lemma LeqIsSecondsOrder(a: Stamp, b: Stamp)
    requires ValidStamp(a) && ValidStamp(b)
    ensures Leq(a, b) <==> Seconds(a) <= Seconds(b)
  {
    var oa, ob := Ordinal(a.DateOf()), Ordinal(b.DateOf());
    var ta := a.hour * 3600 + a.minute * 60 + a.second;
    var tb := b.hour * 3600 + b.minute * 60 + b.second;
    assert Seconds(a) == oa * 86400 + ta && Seconds(b) == ob * 86400 + tb;
    assert 0 <= ta < 86400 && 0 <= tb < 86400;
    if a.DateOf() == b.DateOf() {
      assert oa == ob;
    } else if DateLess(a.DateOf(), b.DateOf()) {
      OrdinalIncreases(a, b);
      assert oa * 86400 + 86400 <= ob * 86400;
    } else {
      OrdinalIncreases(b, a);
      assert ob * 86400 + 86400 <= oa * 86400;
    }
  }

  /** An earlier year means an earlier day. */
  lemma DayBefore(a: Stamp, b: Stamp)
    requires ValidStamp(a) && ValidStamp(b) && a.year < b.year
    ensures Ordinal(a.DateOf()) < Ordinal(b.DateOf())
  {
    var ya := DaysBeforeYear(a.year);
    assert DaysBeforeMonth(a.year, a.month) + a.day <= DaysBeforeMonth(a.year, 13) by {
      MonthsIncrease(a.year, a.month + 1, 13);
    }
    assert ya + DaysBeforeMonth(a.year, 13) == DaysBeforeYear(a.year + 1) by {
      WholeYear(a.year);
      YearLength(a.year);
    }
    assert DaysBeforeYear(a.year + 1) <= DaysBeforeYear(b.year) by {
      YearsIncrease(a.year + 1, b.year);
    }
    assert DaysBeforeMonth(b.year, b.month) >= 0 by {
      MonthsIncrease(b.year, 1, b.month);
    }
  }

  // ---------------------------------------------------------------------
  // The month table

  const MonthNames: seq<string> :=
    ["Jan", "Feb", "Mar", "Apr", "May", "Jun", "Jul", "Aug", "Sep", "Oct", "Nov", "Dec"]

  /** `month_dict[name]`: the twelve English abbreviations, case-sensitive. */
  function MonthNumber(name: string): Option<int>
  {
    if name == "Jan" then Some(1) else if name == "Feb" then Some(2)
    else if name == "Mar" then Some(3) else if name == "Apr" then Some(4)
    else if name == "May" then Some(5) else if name == "Jun" then Some(6)
    else if name == "Jul" then Some(7) else if name == "Aug" then Some(8)
    else if name == "Sep" then Some(9) else if name == "Oct" then Some(10)
    else if name == "Nov" then Some(11) else if name == "Dec" then Some(12)
    else None
  }

  /** The table is a bijection between the twelve names and 1..12. */
  lemma MonthTable(name: string, m: int)
    ensures MonthNumber(name) == Some(m) <==> 1 <= m <= 12 && name == MonthNames[m - 1]
  {
  }

  // ---------------------------------------------------------------------
  // Positional parse

  /** `s[i:j]` for non-negative bounds: out-of-range ends are clamped. */
  function PySlice(s: string, i: nat, j: nat): (r: string)
    ensures |r| == (if j <= |s| then j else |s|) - (if i <= |s| then i else |s|) ||
            (|r| == 0 && i >= j)
  {
    var hi := if j <= |s| then j else |s|;
    var lo := if i <= hi then i else hi;
    s[lo..hi]
  }

  predicate IsDigit(c: char) { '0' <= c <= '9' }

  function DigitValue(c: char): int { c as int - '0' as int }

  /** What Python 2 `int()` accepts among the characters a timestamp match
      can contain (digits, word characters, '/' and ':'): a non-empty run of
      decimal digits. */
  predicate AllDigits(s: string)
  {
    |s| > 0 && forall i :: 0 <= i < |s| ==> IsDigit(s[i])
  }

  function DigitsValue(s: string): int
    decreases |s|
  {
    if s == [] then 0 else DigitsValue(s[..|s| - 1]) * 10 + DigitValue(s[|s| - 1])
  }

  /** `datetime(int(date[7:11]), month_dict[date[3:6]], int(date[0:2]),
      int(date[12:14]), int(date[15:17]), int(date[18:20]))`, with the
      conversions made in the order the scan makes them. */
  function ParseTimestamp(date: string): Result<Parsed, LineError>
  {
    var yearText := PySlice(date, 7, 11);
    if !AllDigits(yearText) then Err(NotANumber(yearText)) else
    var monthText := PySlice(date, 3, 6);
    match MonthNumber(monthText)
    case None => Err(UnknownMonth(monthText))
    case Some(month) =>
      var dayText := PySlice(date, 0, 2);
      if !AllDigits(dayText) then Err(NotANumber(dayText)) else
      var hourText := PySlice(date, 12, 14);
      var minuteText := PySlice(date, 15, 17);
      var secondText := PySlice(date, 18, 20);
      if !AllDigits(secondText) then Err(NotANumber(secondText))
      else if !AllDigits(hourText) then Err(NotANumber(hourText))
      else if !AllDigits(minuteText) then Err(NotANumber(minuteText))
      else
        var t := Stamp(DigitsValue(yearText), month, DigitsValue(dayText),
                       DigitsValue(hourText), DigitsValue(minuteText), DigitsValue(secondText));
        if ValidStamp(t) then Ok(Parsed(t, hourText, minuteText)) else Err(OutOfRange)
  }

  /** The ten-minute bucket key: the first digit of the minute text. */
  function BucketKey(p: Parsed): char
  {
    if p.minuteKey == [] then '0' else p.minuteKey[0]
  }

  lemma DigitsSnoc(s: string, c: char)
    ensures DigitsValue(s + [c]) == DigitsValue(s) * 10 + DigitValue(c)
  {
    assert (s + [c])[..|s|] == s;
  }

  lemma TwoDigits(s: string)
    requires |s| == 2
    ensures DigitsValue(s) == DigitValue(s[0]) * 10 + DigitValue(s[1])
  {
    assert s == [] + [s[0]] + [s[1]];
    DigitsSnoc([], s[0]);
    DigitsSnoc([s[0]], s[1]);
  }

  /** A successful parse yields a valid time whose hour key is its two-digit
      hour and whose bucket key is the digit `minute / 10`, one of '0'..'5'. */
  lemma ParseKeys(date: string)
    requires ParseTimestamp(date).Ok?
    ensures var p := ParseTimestamp(date).value;
      && ValidStamp(p.time)
      && |p.hourKey| == 2 && AllDigits(p.hourKey) && DigitsValue(p.hourKey) == p.time.hour
      && |p.minuteKey| == 2 && AllDigits(p.minuteKey) && DigitsValue(p.minuteKey) == p.time.minute
      && '0' <= BucketKey(p) <= '5'
      && DigitValue(BucketKey(p)) == p.time.minute / 10
  {
    var p := ParseTimestamp(date).value;
    assert |PySlice(date, 18, 20)| > 0;
    assert |date| >= 19;
    TwoDigits(p.minuteKey);
  }

  /** The month is read at positions 3..5 and nowhere else: a well-formed
      year field followed by a name outside the table is fatal. */
  lemma UnknownMonthIsFatal(date: string)
    requires AllDigits(PySlice(date, 7, 11))
    requires MonthNumber(PySlice(date, 3, 6)).None?
    ensures ParseTimestamp(date) == Err(UnknownMonth(PySlice(date, 3, 6)))
  {
  }

  // ---------------------------------------------------------------------
  // Formatting (`strftime("%d/%b/%Y:%H:%M:%S")`) and the round trip

  function Digit(n: int): char
    requires 0 <= n <= 9
  {
    ('0' as int + n) as char
  }

  function Pad2(n: int): string
    requires 0 <= n <= 99
  {
    [Digit(n / 10), Digit(n % 10)]
  }

  function Pad4(n: int): string
    requires 0 <= n <= 9999
  {
    [Digit(n / 1000), Digit(n / 100 % 10), Digit(n / 10 % 10), Digit(n % 10)]
  }

  function Format(t: Stamp): (s: string)
    requires ValidStamp(t)
    ensures |s| == 20
  {
    Pad2(t.day) + "/" + MonthNames[t.month - 1] + "/" + Pad4(t.year) + ":" +
    Pad2(t.hour) + ":" + Pad2(t.minute) + ":" + Pad2(t.second)
  }

  lemma Pad2Value(n: int)
    requires 0 <= n <= 99
    ensures AllDigits(Pad2(n)) && DigitsValue(Pad2(n)) == n
  {
    TwoDigits(Pad2(n));
  }

  lemma FourDigits(s: string)
    requires |s| == 4
    ensures DigitsValue(s) ==
      ((DigitValue(s[0]) * 10 + DigitValue(s[1])) * 10 + DigitValue(s[2])) * 10 + DigitValue(s[3])
  {
    assert s == s[..3] + [s[3]] && s[..3] == s[..2] + [s[2]];
    DigitsSnoc(s[..3], s[3]);
    DigitsSnoc(s[..2], s[2]);
    TwoDigits(s[..2]);
  }

  lemma Pad4Arith(n: int)
    requires 0 <= n <= 9999
    ensures ((n / 1000 * 10 + n / 100 % 10) * 10 + n / 10 % 10) * 10 + n % 10 == n
  {
    assert n / 1000 * 10 + n / 100 % 10 == n / 100;
    assert n / 100 * 10 + n / 10 % 10 == n / 10;
    assert n / 10 * 10 + n % 10 == n;
  }

  lemma Pad4Value(n: int)
    requires 0 <= n <= 9999
    ensures AllDigits(Pad4(n)) && DigitsValue(Pad4(n)) == n
  {
    FourDigits(Pad4(n));
    Pad4Arith(n);
  }

  /** Parsing a formatted time gives the time back (four-digit years). */
  lemma ParseFormat(t: Stamp)
    requires ValidStamp(t) && t.year >= 1000
    ensures ParseTimestamp(Format(t)) == Ok(Parsed(t, Pad2(t.hour), Pad2(t.minute)))
  {
    var s := Format(t);
    var m := MonthNames[t.month - 1];
    assert PySlice(s, 7, 11) == Pad4(t.year);
    assert PySlice(s, 3, 6) == m;
    assert PySlice(s, 0, 2) == Pad2(t.day);
    assert PySlice(s, 12, 14) == Pad2(t.hour);
    assert PySlice(s, 15, 17) == Pad2(t.minute);
    assert PySlice(s, 18, 20) == Pad2(t.second);
    Pad4Value(t.year);
    Pad2Value(t.day);
    Pad2Value(t.hour);
    Pad2Value(t.minute);
    Pad2Value(t.second);
    MonthTable(m, t.month);
  }

  // ---------------------------------------------------------------------
  // Ten-minute tracking and the single-date window

  /** The `--ten` option: absent, `on` or `off`. */
  datatype TenOption = TenAuto | TenOn | TenOff

  /** `ten_min_interval`: enabled when the window spans less than six hours
      and `--ten` is absent, or when `--ten on` is given. */
  predicate TenMinEnabled(spanSeconds: int, ten: TenOption)
  {
    (spanSeconds < 6 * 3600 && ten.TenAuto?) || ten.TenOn?
  }

  /** The length of the window in seconds, as `total_seconds(end - start)`
      computes it; negative when the window is reversed. */
  function Span(w: Window): int
    requires ValidStamp(w.start) && ValidStamp(w.end)
  {
    Seconds(w.end) - Seconds(w.start)
  }

  /** The `--date DD/Mon/YYYY` window: from midnight to 23:59:59 of that
      day, or to `now` when the day is today. */
  function SingleDateWindow(d: Date, now: Stamp): (w: Window)
    ensures w.start == Stamp(d.year, d.month, d.day, 0, 0, 0)
    ensures now.DateOf() != d ==> w.end == Stamp(d.year, d.month, d.day, 23, 59, 59)
    ensures now.DateOf() == d ==> w.end == now
  {
    var start := Stamp(d.year, d.month, d.day, 0, 0, 0);
    if now.DateOf() != d then Window(start, Stamp(d.year, d.month, d.day, 23, 59, 59))
    else Window(start, now)
  }

  /** On a day other than today the window holds exactly that day's times. */
  lemma SingleDateCoversDay(d: Date, now: Stamp, t: Stamp)
    requires now.DateOf() != d && ValidStamp(t)
    ensures InWindow(t, SingleDateWindow(d, now)) <==> t.DateOf() == d
  {
  }
}
