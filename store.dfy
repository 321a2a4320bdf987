/** The hierarchical count store: per-entity records holding a count, a
    co-occurrence counter and a per-date, per-hour, per-ten-minute tree of
    counts, the run-wide overall date tree, and the flat pair of counters of
    compact mode. Missing nodes read as fresh empty records, as the
    `defaultdict` factories make them. */
module CountStore {
  import opened Sums
  import opened Counters
  import opened Timestamps

  /** `ten_minutes_record()`: an hour's count and its ten-minute buckets,
      keyed by the first digit of the minute. */
  datatype HourNode = HourNode(count: int, tenMin: Counts<char>)

  /** `date_record()` and `overall_date_count()`: a date's count and its
      hours, keyed by the two-digit hour text. */
  datatype DateNode = DateNode(count: int, hour: map<string, HourNode>)

  /** Per-date counts. */
  type Tree = map<Date, DateNode>

  /** `ip_record()` and `request_record()`: the entity's count, its
      co-occurrence counter (`get_post`, the requests of an IP, or `ip`, the
      IPs of a request) and its date tree. */
  datatype Entity = Entity(count: int, co: Counts<string>, date: Tree)

  /** Which record factory `ip_req_count` was built with. */
  datatype Kind = IpRecords | RequestRecords

  /** `ip_req_count`: a `defaultdict` of entity records, or the
      `compact_record()` pair of flat counters. */
  datatype IpReqCount =
    | Detailed(kind: Kind, entities: map<string, Entity>)
    | Compact(ips: Counts<string>, requests: Counts<string>)

  const NewHour: HourNode := HourNode(0, map[])
  const NewDate: DateNode := DateNode(0, map[])
  const NewEntity: Entity := Entity(0, map[], map[])

  function HourAt(m: map<string, HourNode>, h: string): HourNode
  {
    if h in m then m[h] else NewHour
  }

  function DateAt(t: Tree, d: Date): DateNode
  {
    if d in t then t[d] else NewDate
  }

  function EntityAt(m: map<string, Entity>, k: string): Entity
  {
    if k in m then m[k] else NewEntity
  }

  // ---------------------------------------------------------------------
  // The increments

  function BumpHour(n: HourNode, bucket: char, ten: bool): HourNode
  {
    HourNode(n.count + 1, if ten then Inc(n.tenMin, bucket) else n.tenMin)
  }

  function BumpDate(n: DateNode, h: string, bucket: char, ten: bool): DateNode
  {
    DateNode(n.count + 1, n.hour[h := BumpHour(HourAt(n.hour, h), bucket, ten)])
  }

  /** One record at date `d`, hour `h` and ten-minute bucket `bucket`. */
  function BumpTree(t: Tree, d: Date, h: string, bucket: char, ten: bool): Tree
  {
    t[d := BumpDate(DateAt(t, d), h, bucket, ten)]
  }

  /** A record raises its date's count and its hour's count by one, and its
      bucket by one when ten-minute tracking is on; no other date, hour or
      bucket changes, and nodes are created only for that date and hour. */
  lemma BumpTreeEffect(t: Tree, d: Date, h: string, bucket: char, ten: bool)
    ensures var r := BumpTree(t, d, h, bucket, ten);
      && r.Keys == t.Keys + {d}
      && DateAt(r, d).count == DateAt(t, d).count + 1
      && DateAt(r, d).hour.Keys == DateAt(t, d).hour.Keys + {h}
      && HourAt(DateAt(r, d).hour, h).count == HourAt(DateAt(t, d).hour, h).count + 1
      && Get(HourAt(DateAt(r, d).hour, h).tenMin, bucket) ==
         Get(HourAt(DateAt(t, d).hour, h).tenMin, bucket) + (if ten then 1 else 0)
      && (!ten ==> HourAt(DateAt(r, d).hour, h).tenMin == HourAt(DateAt(t, d).hour, h).tenMin)
      && (forall b :: b != bucket ==>
            Get(HourAt(DateAt(r, d).hour, h).tenMin, b) == Get(HourAt(DateAt(t, d).hour, h).tenMin, b))
      && (forall g :: g != h && g in DateAt(t, d).hour ==> DateAt(r, d).hour[g] == DateAt(t, d).hour[g])
      && (forall e :: e != d && e in t ==> r[e] == t[e])
  {
  }

  /** `dict_add`: the entity's count and its date tree. */
  function DictAdd(m: map<string, Entity>, key: string, d: Date, h: string, bucket: char, ten: bool): map<string, Entity>
  {
    var e := EntityAt(m, key);
    m[key := Entity(e.count + 1, e.co, BumpTree(e.date, d, h, bucket, ten))]
  }

  /** `dict_add` raises the entity's count by one and gives its date tree
      the record; its co-occurrence counter and every other entity are left
      as they were. */
  lemma DictAddEffect(m: map<string, Entity>, key: string, d: Date, h: string, bucket: char, ten: bool)
    ensures var r := DictAdd(m, key, d, h, bucket, ten);
      && r.Keys == m.Keys + {key}
      && r[key].count == EntityAt(m, key).count + 1
      && r[key].co == EntityAt(m, key).co
      && r[key].date == BumpTree(EntityAt(m, key).date, d, h, bucket, ten)
      && (forall k :: k != key && k in m ==> r[k] == m[k])
  {
  }

  /** `ip_req_count[key][co][x] += 1` */
  function AddCo(m: map<string, Entity>, key: string, x: string): map<string, Entity>
  {
    var e := EntityAt(m, key);
    m[key := e.(co := Inc(e.co, x))]
  }

  /** The co-occurrence increment adds one to `x` in the entity's counter
      and leaves its count, its dates and every other entity alone. */
  lemma AddCoEffect(m: map<string, Entity>, key: string, x: string)
    ensures var r := AddCo(m, key, x);
      && r.Keys == m.Keys + {key}
      && r[key].count == EntityAt(m, key).count && r[key].date == EntityAt(m, key).date
      && Get(r[key].co, x) == Get(EntityAt(m, key).co, x) + 1
      && (forall y :: y != x ==> Get(r[key].co, y) == Get(EntityAt(m, key).co, y))
      && (forall k :: k != key && k in m ==> r[k] == m[k])
  {
  }

  /** `dict_add` followed by the co-occurrence increment, as every folding
      branch of the evaluator does. */
  function Record(m: map<string, Entity>, key: string, x: string, d: Date, h: string, bucket: char, ten: bool): map<string, Entity>
  {
    var e := EntityAt(m, key);
    m[key := Entity(e.count + 1, Inc(e.co, x), BumpTree(e.date, d, h, bucket, ten))]
  }

  // ---------------------------------------------------------------------
  // Conservation invariants

  /** An hour key is the two-digit text of an hour of the day. */
  predicate IsHourKey(h: string)
  {
    |h| == 2 && AllDigits(h) && DigitsValue(h) <= 23
  }

  /** A bucket key is the first digit of a minute. */
  predicate IsBucketKey(b: char) { '0' <= b <= '5' }

  /** With ten-minute tracking the hour's count is the sum of its buckets;
      without it no bucket is ever written. */
  ghost predicate HourOk(n: HourNode, ten: bool)
  {
    && (ten ==> n.count == Sum(n.tenMin))
    && (!ten ==> n.tenMin == map[])
    && (forall b :: b in n.tenMin ==> IsBucketKey(b))
  }

  function HourCounts(m: map<string, HourNode>): map<string, int>
  {
    map h | h in m :: m[h].count
  }

  /** A date's count is the sum of its hours' counts. */
  ghost predicate DateOk(n: DateNode, ten: bool)
  {
    && n.count == Sum(HourCounts(n.hour))
    && (forall h :: h in n.hour ==> IsHourKey(h) && HourOk(n.hour[h], ten))
  }

  function DateCounts(t: Tree): map<Date, int>
  {
    map d | d in t :: t[d].count
  }

  ghost predicate TreeOk(t: Tree, ten: bool)
  {
    forall d :: d in t ==> DateOk(t[d], ten)
  }

  /** The number of records a date tree has taken. */
  ghost function TreeTotal(t: Tree): int
  {
    Sum(DateCounts(t))
  }

  /** An entity's count is the sum of its dates' counts and the sum of
      its co-occurrence counts. */
  ghost predicate EntityOk(e: Entity, ten: bool)
  {
    && e.count == TreeTotal(e.date)
    && e.count == Sum(e.co)
    && TreeOk(e.date, ten)
  }

  ghost predicate EntitiesOk(m: map<string, Entity>, ten: bool)
  {
    forall k :: k in m ==> EntityOk(m[k], ten)
  }

  function EntityCounts(m: map<string, Entity>): map<string, int>
  {
    map k | k in m :: m[k].count
  }

  /** The number of records the entity records have taken. */
  ghost function StoreTotal(m: map<string, Entity>): int
  {
    Sum(EntityCounts(m))
  }

  // ---------------------------------------------------------------------
  // The increments keep the invariants and count one record

  lemma HourStep(n: HourNode, bucket: char, ten: bool)
    requires HourOk(n, ten) && IsBucketKey(bucket)
    ensures HourOk(BumpHour(n, bucket, ten), ten)
  {
    if ten {
      SumUpdate(n.tenMin, bucket, Get(n.tenMin, bucket) + 1);
    }
  }

  lemma HourCountsUpdate(m: map<string, HourNode>, h: string, n: HourNode)
    ensures HourCounts(m[h := n]) == HourCounts(m)[h := n.count]
  {
  }

  lemma DateStep(n: DateNode, h: string, bucket: char, ten: bool)
    requires DateOk(n, ten) && IsHourKey(h) && IsBucketKey(bucket)
    ensures DateOk(BumpDate(n, h, bucket, ten), ten)
  {
    var hn := HourAt(n.hour, h);
    var hn' := BumpHour(hn, bucket, ten);
    assert HourOk(hn', ten) by {
      assert HourOk(hn, ten);
      HourStep(hn, bucket, ten);
    }
    assert Sum(HourCounts(n.hour[h := hn'])) == Sum(HourCounts(n.hour)) + 1 by {
      HourCountsUpdate(n.hour, h, hn');
      SumUpdate(HourCounts(n.hour), h, hn'.count);
      assert Get(HourCounts(n.hour), h) == hn.count;
    }
  }

  lemma DateCountsUpdate(t: Tree, d: Date, n: DateNode)
    ensures DateCounts(t[d := n]) == DateCounts(t)[d := n.count]
  {
  }

  lemma EntityCountsUpdate(m: map<string, Entity>, k: string, e: Entity)
    ensures EntityCounts(m[k := e]) == EntityCounts(m)[k := e.count]
  {
  }

  /** Taking one record keeps a date tree consistent and adds one to its
      total. */
  lemma TreeStep(t: Tree, d: Date, h: string, bucket: char, ten: bool)
    requires TreeOk(t, ten) && IsHourKey(h) && IsBucketKey(bucket)
    ensures TreeOk(BumpTree(t, d, h, bucket, ten), ten)
    ensures TreeTotal(BumpTree(t, d, h, bucket, ten)) == TreeTotal(t) + 1
  {
    var n := DateAt(t, d);
    var n' := BumpDate(n, h, bucket, ten);
    assert DateOk(n', ten) by { DateStep(n, h, bucket, ten); }
    assert BumpTree(t, d, h, bucket, ten) == t[d := n'];
    assert TreeOk(t[d := n'], ten);
    assert Sum(DateCounts(t[d := n'])) == Sum(DateCounts(t)) + 1 by {
      DateCountsUpdate(t, d, n');
      SumUpdate(DateCounts(t), d, n'.count);
      assert Get(DateCounts(t), d) == n.count;
    }
  }

  /** A folded record is `dict_add` followed by the co-occurrence
      increment. */
  lemma RecordIsDictAddThenAddCo(m: map<string, Entity>, key: string, x: string, d: Date, h: string, bucket: char, ten: bool)
    ensures Record(m, key, x, d, h, bucket, ten) == AddCo(DictAdd(m, key, d, h, bucket, ten), key, x)
  {
    var e := EntityAt(m, key);
    var m1 := DictAdd(m, key, d, h, bucket, ten);
    assert EntityAt(m1, key) == Entity(e.count + 1, e.co, BumpTree(e.date, d, h, bucket, ten));
  }

  /** An entity taking one record and one co-occurrence stays consistent. */
  lemma EntityStep(e: Entity, x: string, d: Date, h: string, bucket: char, ten: bool)
    requires EntityOk(e, ten) && IsHourKey(h) && IsBucketKey(bucket)
    ensures EntityOk(Entity(e.count + 1, Inc(e.co, x), BumpTree(e.date, d, h, bucket, ten)), ten)
  {
    TreeStep(e.date, d, h, bucket, ten);
    SumInc(e.co, x);
  }

  /** One folded record keeps every entity consistent and adds one to the
      store's total. */
  lemma RecordStep(m: map<string, Entity>, key: string, x: string, d: Date, h: string, bucket: char, ten: bool)
    requires EntitiesOk(m, ten) && IsHourKey(h) && IsBucketKey(bucket)
    ensures EntitiesOk(Record(m, key, x, d, h, bucket, ten), ten)
    ensures StoreTotal(Record(m, key, x, d, h, bucket, ten)) == StoreTotal(m) + 1
  {
    RecordKeepsEntities(m, key, x, d, h, bucket, ten);
    RecordCounts(m, key, x, d, h, bucket, ten);
  }

  lemma RecordKeepsEntities(m: map<string, Entity>, key: string, x: string, d: Date, h: string, bucket: char, ten: bool)
    requires EntitiesOk(m, ten) && IsHourKey(h) && IsBucketKey(bucket)
    ensures EntitiesOk(Record(m, key, x, d, h, bucket, ten), ten)
  {
    var e := EntityAt(m, key);
    assert EntityOk(e, ten);
    EntityStep(e, x, d, h, bucket, ten);
  }

  lemma RecordCounts(m: map<string, Entity>, key: string, x: string, d: Date, h: string, bucket: char, ten: bool)
    ensures StoreTotal(Record(m, key, x, d, h, bucket, ten)) == StoreTotal(m) + 1
  {
    var e := EntityAt(m, key);
    var e' := Entity(e.count + 1, Inc(e.co, x), BumpTree(e.date, d, h, bucket, ten));
    EntityCountsUpdate(m, key, e');
    SumUpdate(EntityCounts(m), key, e'.count);
    assert Get(EntityCounts(m), key) == e.count;
  }

  /** The overall tree, empty at the start, is consistent with tracking on. */
  lemma EmptyOk(ten: bool)
    ensures TreeOk(map[], ten) && TreeTotal(map[]) == 0
    ensures EntitiesOk(map[], ten) && StoreTotal(map[]) == 0
  {
    assert DateCounts(map[]) == map[];
    assert EntityCounts(map[]) == map[];
  }

  /** A compact-mode record adds one to each flat counter's total. */
  lemma CompactStep(ips: Counts<string>, requests: Counts<string>, ip: string, request: string)
    ensures Sum(Inc(ips, ip)) == Sum(ips) + 1
    ensures Sum(Inc(requests, request)) == Sum(requests) + 1
  {
    SumInc(ips, ip);
    SumInc(requests, request);
  }

  // ---------------------------------------------------------------------
  // Records commute

  /** Two records in a date tree give the same tree in either order. */
  lemma BumpTreeCommutes(t: Tree, d1: Date, h1: string, b1: char, d2: Date, h2: string, b2: char, ten: bool)
    ensures BumpTree(BumpTree(t, d1, h1, b1, ten), d2, h2, b2, ten) ==
            BumpTree(BumpTree(t, d2, h2, b2, ten), d1, h1, b1, ten)
  {
    if d1 == d2 && h1 == h2 {
      var n := DateAt(t, d1);
      var hn := HourAt(n.hour, h1);
      IncCommutes(hn.tenMin, b1, b2);
      BumpTwice(t, d1, h1, b1, b2, ten);
      BumpTwice(t, d1, h1, b2, b1, ten);
    } else if d1 == d2 {
      var n := DateAt(t, d1);
      var e1 := BumpHour(HourAt(n.hour, h1), b1, ten);
      var e2 := BumpHour(HourAt(n.hour, h2), b2, ten);
      assert n.hour[h1 := e1][h2 := e2] == n.hour[h2 := e2][h1 := e1];
      assert BumpTree(BumpTree(t, d1, h1, b1, ten), d2, h2, b2, ten) == t[d1 := DateNode(n.count + 2, n.hour[h1 := e1][h2 := e2])];
      assert BumpTree(BumpTree(t, d2, h2, b2, ten), d1, h1, b1, ten) == t[d1 := DateNode(n.count + 2, n.hour[h2 := e2][h1 := e1])];
    }
  }

  /** Two records at the same date and hour. */
  lemma BumpTwice(t: Tree, d: Date, h: string, b1: char, b2: char, ten: bool)
    ensures var n := DateAt(t, d);
      var hn := HourAt(n.hour, h);
      BumpTree(BumpTree(t, d, h, b1, ten), d, h, b2, ten) ==
        t[d := DateNode(n.count + 2, n.hour[h := HourNode(hn.count + 2, if ten then Inc(Inc(hn.tenMin, b1), b2) else hn.tenMin)])]
  {
    var n := DateAt(t, d);
    var hn := HourAt(n.hour, h);
    var t1 := BumpTree(t, d, h, b1, ten);
    var n1 := DateAt(t1, d);
    assert n1 == DateNode(n.count + 1, n.hour[h := BumpHour(hn, b1, ten)]);
    assert HourAt(n1.hour, h) == BumpHour(hn, b1, ten);
    assert n1.hour[h := BumpHour(BumpHour(hn, b1, ten), b2, ten)] == n.hour[h := BumpHour(BumpHour(hn, b1, ten), b2, ten)];
  }

  /** Two folded records give the same entity records in either order. */
  lemma RecordCommutes(m: map<string, Entity>, k1: string, x1: string, d1: Date, h1: string, b1: char,
                       k2: string, x2: string, d2: Date, h2: string, b2: char, ten: bool)
    ensures Record(Record(m, k1, x1, d1, h1, b1, ten), k2, x2, d2, h2, b2, ten) ==
            Record(Record(m, k2, x2, d2, h2, b2, ten), k1, x1, d1, h1, b1, ten)
  {
    if k1 == k2 {
      var e := EntityAt(m, k1);
      IncCommutes(e.co, x1, x2);
      BumpTreeCommutes(e.date, d1, h1, b1, d2, h2, b2, ten);
    }
  }
}
