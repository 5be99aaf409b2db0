/** The compaction planner: which aged segments merge, into which tier, in which order. */
module CompactionPlanner {
  import opened Foundations
  import opened Arithmetic

  // ------------------------------------------------------------------ calendar buckets

  // A day is 86_400_000 ms, so four days are 345_600_000, a week 604_800_000 and a 30-day month
  // 2_592_000_000.

  function Shifted(t: i64): i64 {
    if t - 345_600_000 < I64_MIN then I64_MIN else t - 345_600_000
  }

  function WeekStartMs(t: i64): i64 {
    TruncDiv(Shifted(t), 604_800_000) * 604_800_000 + 345_600_000
  }

  function MonthStartMs(t: i64): i64 {
    TruncDiv(t, 2_592_000_000) * 2_592_000_000
  }

  /** The bucket functions are monotone and pick a representative of their own bucket. */
  lemma {:induction false} BucketsMonotone(s: i64, t: i64)
    requires s <= t
    ensures WeekStartMs(s) <= WeekStartMs(t) && MonthStartMs(s) <= MonthStartMs(t)
  {
  }

  lemma {:induction false} BucketsIdempotent(t: i64)
    ensures WeekStartMs(WeekStartMs(t)) == WeekStartMs(t)
    ensures MonthStartMs(MonthStartMs(t)) == MonthStartMs(t)
  {
    TruncDivOfMultiple(TruncDiv(t, 2_592_000_000), 2_592_000_000);
    TruncDivOfMultiple(TruncDiv(Shifted(t), 604_800_000), 604_800_000);
  }

  /** A month is 30 days counted from the epoch: each time lies in the month that starts at or before
      it, and before the epoch in the one that starts at or after it. */
  lemma {:induction false} MonthStartExactly(t: i64, m: i64)
    ensures MonthStartMs(t) == m
       <==> m % 2_592_000_000 == 0 && if 0 <= t then m <= t < m + 2_592_000_000 else m - 2_592_000_000 < t <= m
  {
    MultipleIsUnique(MonthStartMs(t), m, 2_592_000_000);
  }

  lemma {:induction false} MultipleIsUnique(a: int, b: int, w: int)
    requires 0 < w
    ensures a % w == 0 && b % w == 0 && -w < a - b < w ==> a == b
  {
    if a % w == 0 && b % w == 0 && -w < a - b < w {
      assert a == a / w * w && b == b / w * w;
      QuotientsMeet(a / w, b / w, w);
    }
  }

  lemma {:induction false} QuotientsMeet(q: int, r: int, w: int)
    requires 0 < w && -w < q * w - r * w < w
    ensures q == r
  {
    assert (q - r) * w == q * w - r * w;
    if q > r {
      MulAtLeast(q - r, w);
    } else if r > q {
      MulAtLeast(r - q, w);
    }
  }

  lemma {:induction false} MulAtLeast(d: int, w: int)
    requires 1 <= d && 0 < w
    ensures w <= d * w
  {
  }

  lemma {:induction false} TruncDivOfMultiple(q: int, w: int)
    requires 0 < w
    ensures TruncDiv(q * w, w) == q
  {
    if 0 <= q {
      ProductDivides(q, w);
    } else {
      ProductDivides(-q, w);
    }
  }

  lemma {:induction false} ProductDivides(q: int, w: int)
    requires 0 < w && 0 <= q
    ensures 0 <= q * w && q * w / w == q && (-q) * w == -(q * w)
  {
    MulMonotone(w, 0, q);
    assert q * w == w * q;
    DivModUnique(w * q, w, q, 0);
  }

  /** The Monday 00:00 UTC at or before `t`; 1970-01-05 was a Monday. */
  function MondayOf(t: int): int {
    (t - 345_600_000) / 604_800_000 * 604_800_000 + 345_600_000
  }

  /** `week_start_ms` is the start of the week from 1970-01-05 on, and before that only on an
      exact week boundary that the saturating shift does not touch; everywhere else it lies in
      the future of its argument. */
  lemma {:induction false} WeekStartExactlyWhen(t: i64)
    ensures WeekStartMs(t) == MondayOf(t)
       <==> 345_600_000 <= t || ((t - 345_600_000) % 604_800_000 == 0 && I64_MIN <= t - 345_600_000)
    ensures WeekStartMs(t) != MondayOf(t) ==> t < WeekStartMs(t)
  {
  }

  /** What it is in either case: the Monday at or before a time from 1970-01-05 on, and at or after an
      earlier one; the first four days of the 64-bit range count as their end. */
  lemma {:induction false} WeekStartExactly(t: i64, w: i64)
    ensures var u := if t < I64_MIN + 345_600_000 then I64_MIN + 345_600_000 else t;
      WeekStartMs(t) == w
      <==> (w - 345_600_000) % 604_800_000 == 0 && if 345_600_000 <= u then w <= u < w + 604_800_000 else w - 604_800_000 < u <= w
  {
    MultipleIsUnique(WeekStartMs(t) - 345_600_000, w - 345_600_000, 604_800_000);
  }

  // ------------------------------------------------------------------ segments and plans

  datatype CompactionTier = Daily | Weekly | Monthly {
    function NextTier(): Option<CompactionTier> {
      match this
      case Daily => Some(Weekly)
      case Weekly => Some(Monthly)
      case Monthly => None
    }

    function Rank(): nat {
      match this
      case Daily => 0
      case Weekly => 1
      case Monthly => 2
    }
  }

  datatype SegmentRef = SegmentRef(
    segmentId: Uuid, tier: CompactionTier, minEventMs: i64, maxEventMs: i64, eventCount: nat)

  datatype CompactionPolicy = CompactionPolicy(dailyToWeeklyMs: i64, weeklyToMonthlyMs: i64, minGroupSize: nat)

  datatype CompactionGroup = CompactionGroup(
    sourceTier: CompactionTier, targetTier: CompactionTier, members: seq<SegmentRef>)

  /** Two's-complement wrap-around of a 64-bit difference. */
  function WrapI64(x: int): i64 {
    var r := x % 0x1_0000_0000_0000_0000;
    if r <= I64_MAX then r else r - 0x1_0000_0000_0000_0000
  }

  /** The one 64-bit value that differs from `x` by a multiple of 2^64. */
  lemma {:induction false} WrapExactly(x: int, r: i64)
    ensures WrapI64(x) == r <==> (x - r) % 0x1_0000_0000_0000_0000 == 0
  {
  }

  datatype Bucket = Bucket(tier: CompactionTier, start: i64)

  /** The bucket an aged segment falls into; a young or monthly segment has none. */
  function BucketOf(policy: CompactionPolicy, s: SegmentRef, now: i64): Option<Bucket> {
    match s.tier
    case Daily =>
      if WrapI64(now - s.maxEventMs) < policy.dailyToWeeklyMs then None
      else Some(Bucket(Daily, WeekStartMs(s.minEventMs)))
    case Weekly =>
      if WrapI64(now - s.maxEventMs) < policy.weeklyToMonthlyMs then None
      else Some(Bucket(Weekly, MonthStartMs(s.minEventMs)))
    case Monthly => None
  }

  predicate BucketLess(a: Bucket, b: Bucket) {
    a.tier.Rank() < b.tier.Rank() || (a.tier == b.tier && a.start < b.start)
  }

  predicate SegmentLess(a: SegmentRef, b: SegmentRef) {
    a.minEventMs < b.minEventMs || (a.minEventMs == b.minEventMs && a.segmentId < b.segmentId)
  }

  // ------------------------------------------------------------------ the stable sort of members

  function InsertSegment(sorted: seq<SegmentRef>, s: SegmentRef): seq<SegmentRef> {
    if sorted == [] then [s]
    else if SegmentLess(s, sorted[|sorted| - 1])
      then InsertSegment(sorted[..|sorted| - 1], s) + [sorted[|sorted| - 1]]
      else sorted + [s]
  }

  /** `sort_by_key` on `(min_event_ms, segment_id)`: a stable sort, by its result. */
  function SortSegments(segments: seq<SegmentRef>): seq<SegmentRef> {
    if segments == [] then []
    else InsertSegment(SortSegments(segments[..|segments| - 1]), segments[|segments| - 1])
  }

  ghost predicate Sorted(s: seq<SegmentRef>) {
    forall i, j | 0 <= i < j < |s| :: !SegmentLess(s[j], s[i])
  }

  lemma {:induction false} InsertPermutes(sorted: seq<SegmentRef>, s: SegmentRef)
    ensures multiset(InsertSegment(sorted, s)) == multiset(sorted) + multiset{s}
  {
    if sorted == [] {
    } else if SegmentLess(s, sorted[|sorted| - 1]) {
      InsertPermutes(sorted[..|sorted| - 1], s);
      assert sorted == sorted[..|sorted| - 1] + [sorted[|sorted| - 1]];
    }
  }

  lemma {:induction false} InsertSorts(sorted: seq<SegmentRef>, s: SegmentRef)
    requires Sorted(sorted)
    ensures Sorted(InsertSegment(sorted, s))
  {
    if sorted == [] {
    } else if SegmentLess(s, sorted[|sorted| - 1]) {
      var front, last := sorted[..|sorted| - 1], sorted[|sorted| - 1];
      InsertSorts(front, s);
      InsertPermutes(front, s);
      var r := InsertSegment(front, s);
      forall i | 0 <= i < |r| ensures !SegmentLess(last, r[i]) {
        assert r[i] in multiset(front) + multiset{s};
        assert r[i] in front || r[i] == s;
      }
    }
  }

  lemma {:induction false} SortSorts(segments: seq<SegmentRef>)
    ensures Sorted(SortSegments(segments))
    ensures multiset(SortSegments(segments)) == multiset(segments)
  {
    if segments == [] {
    } else {
      var front, last := segments[..|segments| - 1], segments[|segments| - 1];
      SortSorts(front);
      InsertSorts(SortSegments(front), last);
      InsertPermutes(SortSegments(front), last);
      assert segments == front + [last];
    }
  }

  /** An id names one segment. */
  ghost predicate IdsIdentify(s: seq<SegmentRef>) {
    forall a, b | a in s && b in s && a.segmentId == b.segmentId :: a == b
  }

  lemma {:induction false} SameLast(a: seq<SegmentRef>, b: seq<SegmentRef>)
    requires Sorted(a) && Sorted(b) && multiset(a) == multiset(b) && IdsIdentify(a) && a != [] && b != []
    ensures a[|a| - 1] == b[|b| - 1]
  {
    var x, y := a[|a| - 1], b[|b| - 1];
    assert x in multiset(a) && y in multiset(b);
    assert y in a;
    var i :| 0 <= i < |b| && b[i] == x;
    var j :| 0 <= j < |a| && a[j] == y;
    assert !SegmentLess(y, x) && !SegmentLess(x, y);
  }

  lemma {:induction false} DropLast(s: seq<SegmentRef>)
    requires s != []
    ensures Sorted(s) ==> Sorted(s[..|s| - 1])
    ensures IdsIdentify(s) ==> IdsIdentify(s[..|s| - 1])
    ensures multiset(s[..|s| - 1]) == multiset(s) - multiset{s[|s| - 1]}
    ensures s == s[..|s| - 1] + [s[|s| - 1]]
  {
    assert s == s[..|s| - 1] + [s[|s| - 1]];
  }

  lemma {:induction false} SameLength(a: seq<SegmentRef>, b: seq<SegmentRef>)
    requires multiset(a) == multiset(b)
    ensures |a| == |b|
  {
    assert |multiset(a)| == |a|;
  }

  /** Sorting forgets the order its input came in. */
  lemma {:induction false} SortedUnique(a: seq<SegmentRef>, b: seq<SegmentRef>)
    requires Sorted(a) && Sorted(b) && multiset(a) == multiset(b) && IdsIdentify(a)
    ensures a == b
  {
    SameLength(a, b);
    if a == [] {
    } else {
      SameLast(a, b);
      DropLast(a);
      DropLast(b);
      SortedUnique(a[..|a| - 1], b[..|b| - 1]);
    }
  }

  // ------------------------------------------------------------------ buckets in key order

  function InBucket(policy: CompactionPolicy, segments: seq<SegmentRef>, now: i64, k: Bucket): seq<SegmentRef> {
    if segments == [] then []
    else
      var rest := InBucket(policy, segments[..|segments| - 1], now, k);
      var s := segments[|segments| - 1];
      if BucketOf(policy, s, now) == Some(k) then rest + [s] else rest
  }

  ghost function BucketKeys(policy: CompactionPolicy, segments: seq<SegmentRef>, now: i64): set<Bucket> {
    set s | s in segments && BucketOf(policy, s, now).Some? :: BucketOf(policy, s, now).value
  }

  predicate IsLeast(k: Bucket, keys: set<Bucket>) {
    k in keys && forall j | j in keys && j != k :: BucketLess(k, j)
  }

  lemma {:induction false} LeastExists(keys: set<Bucket>)
    requires keys != {}
    ensures exists k :: IsLeast(k, keys)
    decreases keys
  {
    var x :| x in keys;
    if keys == {x} {
      assert IsLeast(x, keys);
    } else {
      LeastExists(keys - {x});
      var y :| IsLeast(y, keys - {x});
      if BucketLess(x, y) {
        assert forall j | j in keys && j != x :: j in keys - {x};
        assert IsLeast(x, keys);
      } else {
        assert IsLeast(y, keys);
      }
    }
  }

  /** The keys of a `BTreeMap`, ascending. */
  ghost function Ascending(keys: set<Bucket>): seq<Bucket>
    decreases keys
  {
    if keys == {} then []
    else
      LeastExists(keys);
      var k :| IsLeast(k, keys);
      [k] + Ascending(keys - {k})
  }

  lemma {:induction false} AscendingOrders(keys: set<Bucket>)
    ensures forall k :: k in Ascending(keys) <==> k in keys
    ensures forall i, j | 0 <= i < j < |Ascending(keys)| :: BucketLess(Ascending(keys)[i], Ascending(keys)[j])
    decreases keys
  {
    if keys == {} {
    } else {
      var k := Ascending(keys)[0];
      LeastExists(keys);
      assert IsLeast(k, keys);
      AscendingOrders(keys - {k});
      var rest := Ascending(keys - {k});
      assert Ascending(keys) == [k] + rest;
      forall j | 0 <= j < |rest| ensures BucketLess(k, rest[j]) {
        assert rest[j] in keys - {k};
      }
    }
  }

  lemma {:induction false} LeastUnique(k: Bucket, keys: set<Bucket>)
    requires IsLeast(k, keys)
    ensures Ascending(keys) == [k] + Ascending(keys - {k})
  {
    LeastExists(keys);
    var k' := Ascending(keys)[0];
    assert IsLeast(k', keys);
  }

  lemma {:induction false} InBucketCounts(policy: CompactionPolicy, segments: seq<SegmentRef>, now: i64, k: Bucket, s: SegmentRef)
    ensures multiset(InBucket(policy, segments, now, k))[s]
         == if BucketOf(policy, s, now) == Some(k) then multiset(segments)[s] else 0
  {
    if segments == [] {
    } else {
      var front, last := segments[..|segments| - 1], segments[|segments| - 1];
      assert segments == front + [last];
      InBucketCounts(policy, front, now, k, s);
    }
  }

  // ------------------------------------------------------------------ the plan

  /** The keys whose bucket reached the minimum group size. */
  ghost function Ripe(policy: CompactionPolicy, segments: seq<SegmentRef>, now: i64, keys: seq<Bucket>): seq<Bucket> {
    if keys == [] then []
    else
      (if |InBucket(policy, segments, now, keys[0])| < policy.minGroupSize then [] else [keys[0]])
      + Ripe(policy, segments, now, keys[1..])
  }

  ghost function RipeKeys(policy: CompactionPolicy, segments: seq<SegmentRef>, now: i64): seq<Bucket> {
    Ripe(policy, segments, now, Ascending(BucketKeys(policy, segments, now)))
  }

  ghost function GroupFor(policy: CompactionPolicy, segments: seq<SegmentRef>, now: i64, k: Bucket): CompactionGroup {
    CompactionGroup(k.tier, if k.tier.Daily? then Weekly else Monthly, SortSegments(InBucket(policy, segments, now, k)))
  }

  ghost function GroupsFor(policy: CompactionPolicy, segments: seq<SegmentRef>, now: i64, keys: seq<Bucket>): seq<CompactionGroup> {
    seq(|keys|, i requires 0 <= i < |keys| => GroupFor(policy, segments, now, keys[i]))
  }

  ghost function PlanOf(policy: CompactionPolicy, segments: seq<SegmentRef>, now: i64): seq<CompactionGroup> {
    GroupsFor(policy, segments, now, RipeKeys(policy, segments, now))
  }

  lemma {:induction false} InBucketGrow(policy: CompactionPolicy, front: seq<SegmentRef>, s: SegmentRef, now: i64, k: Bucket)
    ensures InBucket(policy, front + [s], now, k)
         == InBucket(policy, front, now, k) + if BucketOf(policy, s, now) == Some(k) then [s] else []
  {
    assert (front + [s])[..|front|] == front;
  }

  lemma {:induction false} BucketKeysGrow(policy: CompactionPolicy, front: seq<SegmentRef>, s: SegmentRef, now: i64)
    ensures BucketKeys(policy, front + [s], now)
         == BucketKeys(policy, front, now)
          + if BucketOf(policy, s, now).Some? then {BucketOf(policy, s, now).value} else {}
  {
    var grown := BucketKeys(policy, front + [s], now);
    assert s in front + [s];
    forall k | k in BucketKeys(policy, front, now) ensures k in grown {
      var x :| x in front && BucketOf(policy, x, now) == Some(k);
      assert x in front + [s];
    }
  }

  /** First loop of the planner: file every aged segment under its (tier, bucket) key. */
  method CollectBuckets(policy: CompactionPolicy, segments: seq<SegmentRef>, now: i64)
    returns (buckets: map<Bucket, seq<SegmentRef>>)
    ensures buckets.Keys == BucketKeys(policy, segments, now)
    ensures forall k | k in buckets :: buckets[k] == InBucket(policy, segments, now, k) && !k.tier.Monthly?
  {
    buckets := map[];
    for i := 0 to |segments|
      invariant buckets.Keys == BucketKeys(policy, segments[..i], now)
      invariant forall k | k in buckets :: buckets[k] == InBucket(policy, segments[..i], now, k) && !k.tier.Monthly?
      invariant forall k | k !in buckets :: InBucket(policy, segments[..i], now, k) == []
    {
      var seg := segments[i];
      assert segments[..i + 1] == segments[..i] + [seg];
      BucketKeysGrow(policy, segments[..i], seg, now);
      forall k: Bucket { InBucketGrow(policy, segments[..i], seg, now, k); }
      match BucketOf(policy, seg, now) {
        case None => continue;
        case Some(key) => buckets := buckets[key := (if key in buckets then buckets[key] else []) + [seg]];
      }
    }
    assert segments[..|segments|] == segments;
  }

  /** The next entry a `BTreeMap` iterator yields. */
  method PopLeast(pending: set<Bucket>) returns (k: Bucket, rest: set<Bucket>)
    requires pending != {}
    ensures k in pending && rest == pending - {k}
    ensures Ascending(pending) == [k] + Ascending(rest)
  {
    LeastExists(pending);
    k :| IsLeast(k, pending);
    LeastUnique(k, pending);
    rest := pending - {k};
  }

  /** Bucket the aged segments, then walk the buckets in key order. */
  method Plan(policy: CompactionPolicy, segments: seq<SegmentRef>, now: i64) returns (groups: seq<CompactionGroup>)
    ensures groups == PlanOf(policy, segments, now)
  {
    var buckets := CollectBuckets(policy, segments, now);
    groups := [];
    var pending := buckets.Keys;
    ghost var todo := GroupsAt(policy, segments, now, Ascending(pending));
    ghost var goal := todo;
    while pending != {}
      invariant pending <= buckets.Keys
      invariant todo == GroupsAt(policy, segments, now, Ascending(pending))
      invariant goal == groups + todo
    {
      var k, rest := PopLeast(pending);
      NextGroup(policy, segments, now, k, Ascending(rest));
      var group := GroupOfBucket(policy, k, buckets[k]);
      ghost var tail := GroupsAt(policy, segments, now, Ascending(rest));
      assert groups + (group + tail) == (groups + group) + tail;
      groups, todo, pending := groups + group, tail, rest;
    }
  }

  /** At most one group for one bucket: none below the minimum size, else the sorted members. */
  function GroupOfBucket(policy: CompactionPolicy, k: Bucket, members: seq<SegmentRef>): seq<CompactionGroup>
    requires !k.tier.Monthly?
  {
    if |members| < policy.minGroupSize then []
    else [CompactionGroup(k.tier, k.tier.NextTier().value, SortSegments(members))]
  }

  ghost function GroupsAt(policy: CompactionPolicy, segments: seq<SegmentRef>, now: i64, keys: seq<Bucket>): seq<CompactionGroup> {
    GroupsFor(policy, segments, now, Ripe(policy, segments, now, keys))
  }

  lemma {:induction false} NextGroup(policy: CompactionPolicy, segments: seq<SegmentRef>, now: i64, k: Bucket, rest: seq<Bucket>)
    requires !k.tier.Monthly?
    ensures GroupsAt(policy, segments, now, [k] + rest)
         == GroupOfBucket(policy, k, InBucket(policy, segments, now, k)) + GroupsAt(policy, segments, now, rest)
  {
    assert ([k] + rest)[1..] == rest;
  }

  // ------------------------------------------------------------------ the plan is an exact partition

  lemma {:induction false} RipeFilters(policy: CompactionPolicy, segments: seq<SegmentRef>, now: i64, keys: seq<Bucket>)
    requires forall i, j | 0 <= i < j < |keys| :: BucketLess(keys[i], keys[j])
    ensures var r := Ripe(policy, segments, now, keys);
            && (forall k :: k in r <==> k in keys && policy.minGroupSize <= |InBucket(policy, segments, now, k)|)
            && (forall i, j | 0 <= i < j < |r| :: BucketLess(r[i], r[j]))
  {
    if keys == [] {
    } else {
      RipeFilters(policy, segments, now, keys[1..]);
      var rest := Ripe(policy, segments, now, keys[1..]);
      forall j | 0 <= j < |rest| ensures BucketLess(keys[0], rest[j]) {
        assert rest[j] in keys[1..];
      }
      assert keys == [keys[0]] + keys[1..];
    }
  }

  /** Old enough to move up: a daily segment by the first threshold, a weekly one by the second. */
  ghost predicate Aged(policy: CompactionPolicy, now: i64, s: SegmentRef) {
    || (s.tier == Daily && WrapI64(now - s.maxEventMs) >= policy.dailyToWeeklyMs)
    || (s.tier == Weekly && WrapI64(now - s.maxEventMs) >= policy.weeklyToMonthlyMs)
  }

  /** Both begin in the same week, for daily segments, or in the same month, for weekly ones. */
  ghost predicate SameSpan(s: SegmentRef, t: SegmentRef) {
    && s.tier == t.tier
    && (s.tier == Daily ==> WeekStartMs(s.minEventMs) == WeekStartMs(t.minEventMs))
    && (s.tier == Weekly ==> MonthStartMs(s.minEventMs) == MonthStartMs(t.minEventMs))
  }

  ghost predicate Peers(policy: CompactionPolicy, now: i64, s: SegmentRef, t: SegmentRef) {
    Aged(policy, now, s) && Aged(policy, now, t) && SameSpan(s, t)
  }

  /** Where the ledger lists aged segments of the week or month of `s`. */
  ghost function PeersOf(policy: CompactionPolicy, segments: seq<SegmentRef>, now: i64, s: SegmentRef): set<int> {
    set i | 0 <= i < |segments| && Peers(policy, now, s, segments[i])
  }

  /** `s` is aged, and so are enough segments of its week or month. */
  ghost predicate Planned(policy: CompactionPolicy, segments: seq<SegmentRef>, now: i64, s: SegmentRef) {
    Aged(policy, now, s) && policy.minGroupSize <= |PeersOf(policy, segments, now, s)|
  }

  lemma {:induction false} PeersShareBucket(policy: CompactionPolicy, now: i64, s: SegmentRef, t: SegmentRef)
    ensures Aged(policy, now, s) <==> BucketOf(policy, s, now).Some?
    ensures Peers(policy, now, s, t) <==> BucketOf(policy, s, now).Some? && BucketOf(policy, t, now) == BucketOf(policy, s, now)
  {
  }

  /** What is filed under a key: the aged segments of its tier that begin in its week or month. */
  lemma {:induction false} FiledExactlyWhen(policy: CompactionPolicy, segments: seq<SegmentRef>, now: i64, k: Bucket, s: SegmentRef)
    ensures s in InBucket(policy, segments, now, k)
       <==> s in segments && Aged(policy, now, s) && s.tier == k.tier
            && k.start == if s.tier == Daily then WeekStartMs(s.minEventMs) else MonthStartMs(s.minEventMs)
  {
    InBucketCounts(policy, segments, now, k, s);
    PeersShareBucket(policy, now, s, s);
    assert s in InBucket(policy, segments, now, k) <==> s in multiset(InBucket(policy, segments, now, k));
    assert s in segments <==> s in multiset(segments);
  }

  lemma {:induction false} PeersFillBucket(policy: CompactionPolicy, segments: seq<SegmentRef>, now: i64, s: SegmentRef)
    requires BucketOf(policy, s, now).Some?
    ensures |PeersOf(policy, segments, now, s)| == |InBucket(policy, segments, now, BucketOf(policy, s, now).value)|
  {
    if segments == [] {
      assert PeersOf(policy, segments, now, s) == {};
    } else {
      var n := |segments| - 1;
      var front, last := segments[..n], segments[n];
      PeersFillBucket(policy, front, now, s);
      PeersShareBucket(policy, now, s, last);
      assert PeersOf(policy, segments, now, s)
          == PeersOf(policy, front, now, s) + if Peers(policy, now, s, last) then {n} else {};
      assert n !in PeersOf(policy, front, now, s);
    }
  }

  lemma {:induction false} PlannedInBucket(policy: CompactionPolicy, segments: seq<SegmentRef>, now: i64, s: SegmentRef)
    ensures Planned(policy, segments, now, s)
       <==> BucketOf(policy, s, now).Some? && policy.minGroupSize <= |InBucket(policy, segments, now, BucketOf(policy, s, now).value)|
  {
    PeersShareBucket(policy, now, s, s);
    if BucketOf(policy, s, now).Some? {
      PeersFillBucket(policy, segments, now, s);
    }
  }

  lemma {:induction false} RipeKeysAre(policy: CompactionPolicy, segments: seq<SegmentRef>, now: i64)
    ensures var ks := RipeKeys(policy, segments, now);
            && (forall i, j | 0 <= i < j < |ks| :: BucketLess(ks[i], ks[j]))
            && (forall k | k in ks :: !k.tier.Monthly? && InBucket(policy, segments, now, k) != [])
            && (forall s | s in segments :: Planned(policy, segments, now, s)
                  <==> BucketOf(policy, s, now).Some? && BucketOf(policy, s, now).value in ks)
  {
    var keys := BucketKeys(policy, segments, now);
    AscendingOrders(keys);
    RipeFilters(policy, segments, now, Ascending(keys));
    forall s | s in segments
      ensures Planned(policy, segments, now, s)
         <==> BucketOf(policy, s, now).Some? && BucketOf(policy, s, now).value in RipeKeys(policy, segments, now)
    {
      PlannedInBucket(policy, segments, now, s);
    }
    forall k | k in RipeKeys(policy, segments, now)
      ensures !k.tier.Monthly? && InBucket(policy, segments, now, k) != []
    {
      var s :| s in segments && BucketOf(policy, s, now) == Some(k);
      InBucketCounts(policy, segments, now, k, s);
      assert multiset(segments)[s] > 0;
    }
  }

  ghost function Members(groups: seq<CompactionGroup>): multiset<SegmentRef> {
    if groups == [] then multiset{}
    else Members(groups[..|groups| - 1]) + multiset(groups[|groups| - 1].members)
  }

  lemma {:induction false} SortedBucketCounts(policy: CompactionPolicy, segments: seq<SegmentRef>, now: i64, k: Bucket, s: SegmentRef)
    ensures multiset(GroupFor(policy, segments, now, k).members)[s]
         == if BucketOf(policy, s, now) == Some(k) then multiset(segments)[s] else 0
  {
    SortSorts(InBucket(policy, segments, now, k));
    InBucketCounts(policy, segments, now, k, s);
  }

  lemma {:induction false} MembersCount(policy: CompactionPolicy, segments: seq<SegmentRef>, now: i64, keys: seq<Bucket>, s: SegmentRef)
    requires forall i, j | 0 <= i < j < |keys| :: BucketLess(keys[i], keys[j])
    ensures Members(GroupsFor(policy, segments, now, keys))[s]
         == if BucketOf(policy, s, now).Some? && BucketOf(policy, s, now).value in keys
            then multiset(segments)[s] else 0
  {
    if keys == [] {
    } else {
      var front, last := keys[..|keys| - 1], keys[|keys| - 1];
      assert keys == front + [last];
      assert last !in front;
      var gs := GroupsFor(policy, segments, now, keys);
      assert gs[..|front|] == GroupsFor(policy, segments, now, front);
      assert gs[|front|] == GroupFor(policy, segments, now, last);
      MembersCount(policy, segments, now, front, s);
      SortedBucketCounts(policy, segments, now, last, s);
    }
  }

  /** Every copy of a planned segment is a member of the plan exactly once, and nothing else is. */
  lemma {:induction false} PlanPartitions(policy: CompactionPolicy, segments: seq<SegmentRef>, now: i64, s: SegmentRef)
    requires s in segments
    ensures Members(PlanOf(policy, segments, now))[s]
         == if Planned(policy, segments, now, s) then multiset(segments)[s] else 0
  {
    RipeKeysAre(policy, segments, now);
    MembersCount(policy, segments, now, RipeKeys(policy, segments, now), s);
  }

  /** A group is a week of aged daily segments or a month of aged weekly ones, all of them; and the
      planned segments are those whose week or month holds enough. */
  lemma {:induction false} PlanExactlyWhen(policy: CompactionPolicy, segments: seq<SegmentRef>, now: i64)
    ensures forall s :: (exists g | g in PlanOf(policy, segments, now) :: s in g.members)
                   <==> s in segments && Planned(policy, segments, now, s)
    ensures forall g, s, t | g in PlanOf(policy, segments, now) && s in g.members ::
              t in g.members <==> t in segments && Peers(policy, now, s, t)
  {
    var plan, ks := PlanOf(policy, segments, now), RipeKeys(policy, segments, now);
    RipeKeysAre(policy, segments, now);
    forall s ensures (exists g | g in plan :: s in g.members) <==> s in segments && Planned(policy, segments, now, s) {
      if g :| g in plan && s in g.members {
        var i :| 0 <= i < |ks| && plan[i] == g;
        MemberBucket(policy, segments, now, ks[i], s);
        assert ks[i] in ks;
      }
      if s in segments && Planned(policy, segments, now, s) {
        var i :| 0 <= i < |ks| && ks[i] == BucketOf(policy, s, now).value;
        MemberBucket(policy, segments, now, ks[i], s);
        assert plan[i] in plan;
      }
    }
    forall g, s, t | g in plan && s in g.members ensures t in g.members <==> t in segments && Peers(policy, now, s, t) {
      var i :| 0 <= i < |ks| && plan[i] == g;
      MemberBucket(policy, segments, now, ks[i], s);
      MemberBucket(policy, segments, now, ks[i], t);
      PeersShareBucket(policy, now, s, t);
    }
  }

  /** Members come by start and then by id. */
  ghost predicate ByStartAndId(members: seq<SegmentRef>) {
    forall x, y | 0 <= x < y < |members| ::
      members[x].minEventMs < members[y].minEventMs
      || (members[x].minEventMs == members[y].minEventMs && members[x].segmentId <= members[y].segmentId)
  }

  /** Groups come out by tier, and within a tier every member of an earlier group starts before
      every member of a later one; inside a group members are sorted by start and id. */
  lemma {:induction false} PlanIsOrdered(policy: CompactionPolicy, segments: seq<SegmentRef>, now: i64, i: nat, j: nat, s: SegmentRef, t: SegmentRef)
    requires i <= j < |PlanOf(policy, segments, now)|
    requires s in PlanOf(policy, segments, now)[i].members && t in PlanOf(policy, segments, now)[j].members
    ensures var plan := PlanOf(policy, segments, now);
            && s.tier == plan[i].sourceTier && Some(plan[i].targetTier) == s.tier.NextTier()
            && ByStartAndId(plan[i].members)
            && (i == j ==> Peers(policy, now, s, t))
            && (i < j ==> s.tier.Rank() < t.tier.Rank() || (s.tier == t.tier && s.minEventMs < t.minEventMs))
  {
    var ks := RipeKeys(policy, segments, now);
    RipeKeysAre(policy, segments, now);
    MemberBucket(policy, segments, now, ks[i], s);
    MemberBucket(policy, segments, now, ks[j], t);
    PeersShareBucket(policy, now, s, t);
    assert ks[i] in ks;
    if i < j && s.tier == t.tier && t.minEventMs <= s.minEventMs {
      BucketsMonotone(t.minEventMs, s.minEventMs);
      assert false;
    }
  }

  lemma {:induction false} MemberBucket(policy: CompactionPolicy, segments: seq<SegmentRef>, now: i64, k: Bucket, s: SegmentRef)
    ensures Sorted(SortSegments(InBucket(policy, segments, now, k)))
    ensures s in SortSegments(InBucket(policy, segments, now, k))
       <==> s in segments && BucketOf(policy, s, now) == Some(k)
  {
    var b := InBucket(policy, segments, now, k);
    SortSorts(b);
    InBucketCounts(policy, segments, now, k, s);
    assert s in SortSegments(b) <==> s in multiset(SortSegments(b));
    assert s in segments <==> s in multiset(segments);
  }

  /** The plan does not depend on the order in which the ledger lists its segments. */
  lemma {:induction false} PlanIgnoresOrder(policy: CompactionPolicy, a: seq<SegmentRef>, b: seq<SegmentRef>, now: i64)
    requires multiset(a) == multiset(b) && IdsIdentify(a)
    ensures PlanOf(policy, a, now) == PlanOf(policy, b, now)
  {
    forall s ensures s in a <==> s in b {
      assert s in multiset(a) <==> s in multiset(b);
    }
    assert BucketKeys(policy, a, now) == BucketKeys(policy, b, now);
    forall k: Bucket
      ensures |InBucket(policy, a, now, k)| == |InBucket(policy, b, now, k)|
      ensures SortSegments(InBucket(policy, a, now, k)) == SortSegments(InBucket(policy, b, now, k))
    {
      SameBucket(policy, a, b, now, k);
    }
    RipeAgrees(policy, a, b, now, Ascending(BucketKeys(policy, a, now)));
  }

  lemma {:induction false} SameBucket(policy: CompactionPolicy, a: seq<SegmentRef>, b: seq<SegmentRef>, now: i64, k: Bucket)
    requires multiset(a) == multiset(b) && IdsIdentify(a)
    ensures |InBucket(policy, a, now, k)| == |InBucket(policy, b, now, k)|
    ensures SortSegments(InBucket(policy, a, now, k)) == SortSegments(InBucket(policy, b, now, k))
  {
    var ba, bb := InBucket(policy, a, now, k), InBucket(policy, b, now, k);
    forall s ensures multiset(ba)[s] == multiset(bb)[s] {
      InBucketCounts(policy, a, now, k, s);
      InBucketCounts(policy, b, now, k, s);
    }
    assert multiset(ba) == multiset(bb);
    SameLength(ba, bb);
    SortSorts(ba);
    SortSorts(bb);
    forall x, y | x in SortSegments(ba) && y in SortSegments(ba) && x.segmentId == y.segmentId ensures x == y {
      MemberBucket(policy, a, now, k, x);
      MemberBucket(policy, a, now, k, y);
    }
    SortedUnique(SortSegments(ba), SortSegments(bb));
  }

  lemma {:induction false} RipeAgrees(policy: CompactionPolicy, a: seq<SegmentRef>, b: seq<SegmentRef>, now: i64, keys: seq<Bucket>)
    requires forall k :: |InBucket(policy, a, now, k)| == |InBucket(policy, b, now, k)|
    ensures Ripe(policy, a, now, keys) == Ripe(policy, b, now, keys)
  {
    if keys == [] {
    } else {
      RipeAgrees(policy, a, b, now, keys[1..]);
    }
  }

  // ------------------------------------------------------------------ executing plans terminates

  function TierWeight(t: CompactionTier): nat {
    3 - t.Rank()
  }

  ghost function Weight(segments: seq<SegmentRef>): nat {
    if segments == [] then 0 else Weight(segments[..|segments| - 1]) + TierWeight(segments[|segments| - 1].tier)
  }

  lemma {:induction false} WeightConcat(a: seq<SegmentRef>, b: seq<SegmentRef>)
    ensures Weight(a + b) == Weight(a) + Weight(b)
  {
    if b == [] {
      assert a + b == a;
    } else {
      assert (a + b)[..|a + b| - 1] == a + b[..|b| - 1];
      WeightConcat(a, b[..|b| - 1]);
    }
  }

  ghost function Superseded(groups: seq<CompactionGroup>): set<Uuid> {
    set s | s in Members(groups) :: s.segmentId
  }

  ghost function Retain(segments: seq<SegmentRef>, gone: set<Uuid>): seq<SegmentRef> {
    if segments == [] then []
    else
      var rest := Retain(segments[..|segments| - 1], gone);
      var s := segments[|segments| - 1];
      if s.segmentId in gone then rest else rest + [s]
  }

  lemma {:induction false} RetainCounts(segments: seq<SegmentRef>, gone: set<Uuid>, s: SegmentRef)
    ensures multiset(Retain(segments, gone))[s] == if s.segmentId in gone then 0 else multiset(segments)[s]
  {
    if segments == [] {
    } else {
      RetainCounts(segments[..|segments| - 1], gone, s);
      assert segments == segments[..|segments| - 1] + [segments[|segments| - 1]];
    }
  }

  /** What a plan takes and what it leaves is the ledger. */
  lemma {:induction false} PlanSplitsLedger(policy: CompactionPolicy, segments: seq<SegmentRef>, now: i64)
    requires IdsIdentify(segments)
    ensures var groups := PlanOf(policy, segments, now);
      Members(groups) + multiset(Retain(segments, Superseded(groups))) == multiset(segments)
  {
    var groups := PlanOf(policy, segments, now);
    var ks := RipeKeys(policy, segments, now);
    RipeKeysAre(policy, segments, now);
    forall s ensures Members(groups)[s] == if BucketOf(policy, s, now).Some? && BucketOf(policy, s, now).value in ks then multiset(segments)[s] else 0 {
      MembersCount(policy, segments, now, ks, s);
    }
    forall m | m in Members(groups) ensures m in segments {
      assert multiset(segments)[m] > 0;
    }
    forall s ensures Members(groups)[s] + multiset(Retain(segments, Superseded(groups)))[s] == multiset(segments)[s] {
      RetainCounts(segments, Superseded(groups), s);
      assert s in segments <==> multiset(segments)[s] > 0;
      assert s in segments && s.segmentId in Superseded(groups) ==> s in Members(groups);
    }
  }

  ghost function Emitted(outputs: seq<Option<SegmentRef>>): seq<SegmentRef> {
    if outputs == [] then []
    else Emitted(outputs[..|outputs| - 1]) + match outputs[|outputs| - 1] case None => [] case Some(s) => [s]
  }

  /** One output per group: a segment of the target tier, or none when no event survives. */
  ghost predicate Outputs(groups: seq<CompactionGroup>, outputs: seq<Option<SegmentRef>>) {
    && |outputs| == |groups|
    && forall i | 0 <= i < |groups| && outputs[i].Some? :: outputs[i].value.tier == groups[i].targetTier
  }

  /** The ledger after a plan: superseded segments leave, merged ones are appended. */
  ghost predicate Executed(policy: CompactionPolicy, now: i64, before: seq<SegmentRef>, after: seq<SegmentRef>) {
    var groups := PlanOf(policy, before, now);
    exists outputs :: Outputs(groups, outputs) && after == Retain(before, Superseded(groups)) + Emitted(outputs)
  }

  ghost function BucketWeights(policy: CompactionPolicy, segments: seq<SegmentRef>, now: i64, keys: seq<Bucket>): nat {
    if keys == [] then 0
    else
      var n := |keys| - 1;
      BucketWeights(policy, segments, now, keys[..n]) + Weight(InBucket(policy, segments, now, keys[n]))
  }

  lemma {:induction false} BucketWeightsGrow(policy: CompactionPolicy, front: seq<SegmentRef>, s: SegmentRef, now: i64, keys: seq<Bucket>)
    requires forall i, j | 0 <= i < j < |keys| :: BucketLess(keys[i], keys[j])
    ensures BucketWeights(policy, front + [s], now, keys)
         == BucketWeights(policy, front, now, keys)
          + if BucketOf(policy, s, now).Some? && BucketOf(policy, s, now).value in keys then TierWeight(s.tier) else 0
  {
    if keys == [] {
    } else {
      var ks, k := keys[..|keys| - 1], keys[|keys| - 1];
      assert keys == ks + [k] && k !in ks;
      BucketWeightsGrow(policy, front, s, now, ks);
      assert (front + [s])[..|front|] == front;
      var b := InBucket(policy, front, now, k);
      assert (b + [s])[..|b|] == b;
    }
  }

  lemma {:induction false} RetainAndBucketsFit(policy: CompactionPolicy, segments: seq<SegmentRef>, now: i64, keys: seq<Bucket>, gone: set<Uuid>)
    requires forall i, j | 0 <= i < j < |keys| :: BucketLess(keys[i], keys[j])
    requires forall s | s in segments && BucketOf(policy, s, now).Some? && BucketOf(policy, s, now).value in keys :: s.segmentId in gone
    ensures Weight(Retain(segments, gone)) + BucketWeights(policy, segments, now, keys) <= Weight(segments)
  {
    if segments == [] {
      NoSegmentsNoWeight(policy, now, keys);
    } else {
      var front, s := segments[..|segments| - 1], segments[|segments| - 1];
      assert segments == front + [s];
      RetainAndBucketsFit(policy, front, now, keys, gone);
      BucketWeightsGrow(policy, front, s, now, keys);
      var r := Retain(front, gone);
      assert (r + [s])[..|r|] == r;
    }
  }

  lemma {:induction false} NoSegmentsNoWeight(policy: CompactionPolicy, now: i64, keys: seq<Bucket>)
    ensures BucketWeights(policy, [], now, keys) == 0
  {
    if keys == [] {
    } else {
      NoSegmentsNoWeight(policy, now, keys[..|keys| - 1]);
    }
  }

  lemma {:induction false} BucketHasWeight(policy: CompactionPolicy, segments: seq<SegmentRef>, now: i64, k: Bucket)
    requires InBucket(policy, segments, now, k) != []
    ensures TierWeight(k.tier) <= Weight(InBucket(policy, segments, now, k))
  {
    var b := InBucket(policy, segments, now, k);
    assert b[|b| - 1] in multiset(b);
    InBucketCounts(policy, segments, now, k, b[|b| - 1]);
  }

  lemma {:induction false} EmittedWeight(os: seq<Option<SegmentRef>>, o: Option<SegmentRef>)
    ensures Weight(Emitted(os + [o])) == Weight(Emitted(os)) + if o.Some? then TierWeight(o.value.tier) else 0
  {
    assert (os + [o])[..|os|] == os;
    if o.Some? {
      WeightConcat(Emitted(os), [o.value]);
      assert [o.value][..0] == [];
      assert Weight([o.value]) == Weight([o.value][..0]) + TierWeight(o.value.tier);
    } else {
      assert Emitted(os) + [] == Emitted(os);
    }
  }

  lemma {:induction false} BucketWeightsSplit(policy: CompactionPolicy, segments: seq<SegmentRef>, now: i64, ks: seq<Bucket>, k: Bucket)
    ensures BucketWeights(policy, segments, now, ks + [k])
         == BucketWeights(policy, segments, now, ks) + Weight(InBucket(policy, segments, now, k))
  {
    assert (ks + [k])[..|ks|] == ks;
  }

  lemma {:induction false} OutputsAreLighter(policy: CompactionPolicy, segments: seq<SegmentRef>, now: i64, keys: seq<Bucket>, outputs: seq<Option<SegmentRef>>)
    requires |outputs| == |keys|
    requires forall i | 0 <= i < |keys| && outputs[i].Some? ::
               outputs[i].value.tier == GroupFor(policy, segments, now, keys[i]).targetTier
    requires forall k | k in keys :: !k.tier.Monthly? && InBucket(policy, segments, now, k) != []
    ensures Weight(Emitted(outputs)) + |keys| <= BucketWeights(policy, segments, now, keys)
  {
    if keys == [] {
    } else {
      var n := |keys| - 1;
      var ks, k, os, o := keys[..n], keys[n], outputs[..n], outputs[n];
      assert keys == ks + [k] && outputs == os + [o];
      assert k in keys && forall x | x in ks :: x in keys;
      OutputsAreLighter(policy, segments, now, ks, os);
      EmittedWeight(os, o);
      BucketWeightsSplit(policy, segments, now, ks, k);
      BucketHasWeight(policy, segments, now, k);
    }
  }

  /** Every executed group takes at least one unit off the weight of the ledger. */
  lemma {:induction false} ExecutionDropsWeight(policy: CompactionPolicy, now: i64, before: seq<SegmentRef>, after: seq<SegmentRef>)
    requires Executed(policy, now, before, after)
    ensures Weight(after) + |PlanOf(policy, before, now)| <= Weight(before)
  {
    var groups := PlanOf(policy, before, now);
    var outputs :| Outputs(groups, outputs) && after == Retain(before, Superseded(groups)) + Emitted(outputs);
    var keys := RipeKeys(policy, before, now);
    RipeKeysAre(policy, before, now);
    forall s | s in before && BucketOf(policy, s, now).Some? && BucketOf(policy, s, now).value in keys
      ensures s.segmentId in Superseded(groups)
    {
      PlanPartitions(policy, before, now, s);
      assert s in multiset(before);
    }
    RetainAndBucketsFit(policy, before, now, keys, Superseded(groups));
    OutputsAreLighter(policy, before, now, keys, outputs);
    WeightConcat(Retain(before, Superseded(groups)), Emitted(outputs));
  }

  /** From any ledger, at a fixed time, every run of non-empty plans stops: it is no longer than
      the weight of the ledger it starts from. */
  lemma {:induction false} CompactionReachesFixpoint(policy: CompactionPolicy, now: i64, run: seq<seq<SegmentRef>>)
    requires run != []
    requires forall i | 0 <= i < |run| - 1 :: PlanOf(policy, run[i], now) != [] && Executed(policy, now, run[i], run[i + 1])
    ensures |run| - 1 <= Weight(run[0])
  {
    if |run| == 1 {
    } else {
      assert PlanOf(policy, run[0], now) != [] && Executed(policy, now, run[0], run[0 + 1]);
      ExecutionDropsWeight(policy, now, run[0], run[1]);
      var rest := run[1..];
      forall i | 0 <= i < |rest| - 1
        ensures PlanOf(policy, rest[i], now) != [] && Executed(policy, now, rest[i], rest[i + 1])
      {
        assert rest[i] == run[i + 1] && rest[i + 1] == run[i + 1 + 1];
      }
      CompactionReachesFixpoint(policy, now, rest);
    }
  }
}
