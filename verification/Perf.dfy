/** Aggregating performance traces: nearest-rank percentiles, one summary per operation, budgets. */
module Perf {
  import opened Foundations

  datatype PerfTrace = PerfTrace(operation: string, startNs: u64, endNs: u64)

  datatype PerfSummary = PerfSummary(operation: string, count: nat, p50Ns: u64, p95Ns: u64, p99Ns: u64, maxNs: u64, totalNs: u64)

  datatype PerfBudget = PerfBudget(operation: string, p95BudgetNs: u64)

  datatype BudgetViolation = BudgetViolation(operation: string, measuredP95Ns: u64, budgetP95Ns: u64)

  function DurationNs(t: PerfTrace): u64 {
    if t.endNs < t.startNs then 0 else t.endNs - t.startNs
  }

  function Durations(traces: seq<PerfTrace>): (d: seq<u64>)
    ensures |d| == |traces| && forall i | 0 <= i < |d| :: d[i] == DurationNs(traces[i])
  {
    seq(|traces|, i requires 0 <= i < |traces| => DurationNs(traces[i]))
  }

  // ------------------------------------------------------------------ sorting

  ghost predicate Ascending(s: seq<u64>) {
    forall i, j | 0 <= i < j < |s| :: s[i] <= s[j]
  }

  function Insert(s: seq<u64>, x: u64): seq<u64> {
    if s == [] || s[|s| - 1] <= x then s + [x] else Insert(s[..|s| - 1], x) + [s[|s| - 1]]
  }

  function Sort(s: seq<u64>): seq<u64> {
    if s == [] then [] else Insert(Sort(s[..|s| - 1]), s[|s| - 1])
  }

  lemma {:induction false} InsertBounded(s: seq<u64>, x: u64, bound: u64)
    requires x <= bound && forall i | 0 <= i < |s| :: s[i] <= bound
    ensures forall i | 0 <= i < |Insert(s, x)| :: Insert(s, x)[i] <= bound
  {
    if s == [] {
    } else if s[|s| - 1] > x {
      InsertBounded(s[..|s| - 1], x, bound);
    }
  }

  lemma {:induction false} InsertKeeps(s: seq<u64>, x: u64)
    ensures multiset(Insert(s, x)) == multiset(s) + multiset{x}
    ensures |Insert(s, x)| == |s| + 1
  {
    if s == [] {
    } else if s[|s| - 1] > x {
      InsertKeeps(s[..|s| - 1], x);
      assert s == s[..|s| - 1] + [s[|s| - 1]];
    }
  }

  lemma {:induction false} InsertSorts(s: seq<u64>, x: u64)
    requires Ascending(s)
    ensures Ascending(Insert(s, x))
  {
    if s == [] {
    } else if s[|s| - 1] > x {
      InsertSorts(s[..|s| - 1], x);
      InsertBounded(s[..|s| - 1], x, s[|s| - 1]);
    }
  }

  lemma {:induction false} SortSorts(s: seq<u64>)
    ensures Ascending(Sort(s)) && multiset(Sort(s)) == multiset(s) && |Sort(s)| == |s|
  {
    if s == [] {
    } else {
      var front, last := s[..|s| - 1], s[|s| - 1];
      SortSorts(front);
      InsertSorts(Sort(front), last);
      InsertKeeps(Sort(front), last);
      assert s == front + [last];
    }
  }

  // ------------------------------------------------------------------ percentiles

  function Ceil(x: real): int {
    -((-x).Floor)
  }

  function Share(n: nat, pct: real): real {
    pct / 100.0 * n as real
  }

  /** The zero-based position of the percentile among `n` sorted durations. */
  function NearestRank(n: nat, pct: real): (i: nat)
    requires 0 < n
    ensures i < n
  {
    var rank := Ceil(Share(n, pct));
    (if rank < 1 then 1 else if rank > n then n else rank) - 1
  }

  function NearestRankPercentile(sorted: seq<u64>, pct: real): u64 {
    if sorted == [] then 0
    else if |sorted| == 1 then sorted[0]
    else sorted[NearestRank(|sorted|, pct)]
  }

  function CountAtMost(s: seq<u64>, x: u64): nat {
    if s == [] then 0 else CountAtMost(s[..|s| - 1], x) + if s[|s| - 1] <= x then 1 else 0
  }

  function CountBelow(s: seq<u64>, x: u64): nat {
    if s == [] then 0 else CountBelow(s[..|s| - 1], x) + if s[|s| - 1] < x then 1 else 0
  }

  lemma {:induction false} CountsBySplit(s: seq<u64>, x: u64, k: nat)
    requires k <= |s|
    ensures (forall i | 0 <= i < k :: s[i] <= x) ==> CountAtMost(s, x) >= k
    ensures (forall i | k <= i < |s| :: s[i] >= x) ==> CountBelow(s, x) <= k
    ensures CountBelow(s, x) <= |s|
  {
    if s == [] {
    } else {
      var front := s[..|s| - 1];
      assert forall i | 0 <= i < |front| :: front[i] == s[i];
      if k < |s| {
        CountsBySplit(front, x, k);
      } else {
        CountsBySplit(front, x, k - 1);
      }
    }
  }

  lemma {:induction false} CountsIgnoreOrder(s: seq<u64>, t: seq<u64>, x: u64)
    requires multiset(s) == multiset(t)
    ensures CountAtMost(s, x) == CountAtMost(t, x) && CountBelow(s, x) == CountBelow(t, x)
    decreases |s|
  {
    if s == [] {
      assert |t| == |multiset(t)| == |multiset(s)| == 0;
    } else {
      var front, last := s[..|s| - 1], s[|s| - 1];
      assert s == front + [last];
      assert last in multiset(t);
      var k :| 0 <= k < |t| && t[k] == last;
      CountsDrop(t, k, x);
      MultisetDrops(t, k);
      var rest := t[..k] + t[k + 1..];
      assert multiset(front) == multiset(rest);
      CountsIgnoreOrder(front, rest, x);
    }
  }

  lemma {:induction false} MultisetDrops(t: seq<u64>, k: nat)
    requires k < |t|
    ensures multiset(t[..k] + t[k + 1..]) == multiset(t) - multiset{t[k]}
  {
    assert t == t[..k] + [t[k]] + t[k + 1..];
  }

  lemma {:induction false} CountsDrop(t: seq<u64>, k: nat, x: u64)
    requires k < |t|
    ensures CountAtMost(t, x) == CountAtMost(t[..k] + t[k + 1..], x) + if t[k] <= x then 1 else 0
    ensures CountBelow(t, x) == CountBelow(t[..k] + t[k + 1..], x) + if t[k] < x then 1 else 0
    decreases |t|
  {
    if k == |t| - 1 {
      assert t[..k] + t[k + 1..] == t[..|t| - 1];
    } else {
      var front := t[..|t| - 1];
      CountsDrop(front, k, x);
      var rest := t[..k] + t[k + 1..];
      assert rest[..|rest| - 1] == front[..k] + front[k + 1..] && rest[|rest| - 1] == t[|t| - 1];
    }
  }

  lemma {:induction false} CountsAtPosition(sorted: seq<u64>, i: nat)
    requires Ascending(sorted) && i < |sorted|
    ensures CountAtMost(sorted, sorted[i]) >= i + 1 && CountBelow(sorted, sorted[i]) <= i
  {
    CountsBySplit(sorted, sorted[i], i + 1);
    CountsBySplit(sorted, sorted[i], i);
  }

  /** What a nearest-rank percentile is: one of the durations, with at least `pct` percent of them at
      most it and less than that strictly below it. */
  lemma {:induction false} PercentileMeaning(durations: seq<u64>, pct: real)
    requires durations != [] && 0.0 < pct <= 100.0
    ensures var p := NearestRankPercentile(Sort(durations), pct);
      && p in durations
      && CountAtMost(durations, p) as real >= Share(|durations|, pct)
      && (CountBelow(durations, p) as real) < Share(|durations|, pct)
  {
    var sorted := Sort(durations);
    SortSorts(durations);
    RankBounds(|durations|, pct);
    var i := NearestRank(|durations|, pct);
    CountsAtPosition(sorted, i);
    CountsIgnoreOrder(sorted, durations, sorted[i]);
    assert sorted[i] in multiset(sorted);
  }

  lemma {:induction false} RankBounds(n: nat, pct: real)
    requires 0 < n && 0.0 < pct <= 100.0
    ensures (NearestRank(n, pct) as real) < Share(n, pct) <= (NearestRank(n, pct) + 1) as real
  {
    Scale(pct / 100.0, n);
  }

  lemma {:induction false} Scale(a: real, n: nat)
    requires 0.0 < a <= 1.0 && 0 < n
    ensures 0.0 < a * n as real <= n as real
  {
  }

  lemma {:induction false} CeilMonotone(x: real, y: real)
    requires x <= y
    ensures Ceil(x) <= Ceil(y)
  {
  }

  /** A higher percentage never gives a smaller percentile. */
  lemma {:induction false} PercentilesAscend(sorted: seq<u64>, p: real, q: real)
    requires Ascending(sorted) && p <= q
    ensures NearestRankPercentile(sorted, p) <= NearestRankPercentile(sorted, q)
  {
    if |sorted| > 1 {
      ShareMonotone(|sorted|, p, q);
      CeilMonotone(Share(|sorted|, p), Share(|sorted|, q));
    }
  }

  lemma {:induction false} ShareMonotone(n: nat, p: real, q: real)
    requires p <= q
    ensures Share(n, p) <= Share(n, q)
  {
    ScaleMonotone(p / 100.0, q / 100.0, n as real);
  }

  lemma {:induction false} ScaleMonotone(a: real, b: real, n: real)
    requires a <= b && 0.0 <= n
    ensures a * n <= b * n
  {
  }

  // ------------------------------------------------------------------ one summary

  function Saturate(x: nat): u64 {
    if x < TWO_64 then x else TWO_64 - 1
  }

  function SaturatingTotal(s: seq<u64>): u64 {
    if s == [] then 0 else Saturate(SaturatingTotal(s[..|s| - 1]) + s[|s| - 1])
  }

  function Sum(s: seq<u64>): nat {
    if s == [] then 0 else Sum(s[..|s| - 1]) + s[|s| - 1]
  }

  function SummarizeTraces(operation: string, traces: seq<PerfTrace>): Option<PerfSummary> {
    if traces == [] then None
    else
      var durations := Sort(Durations(traces));
      SortSorts(Durations(traces));
      Some(PerfSummary(operation, |traces|,
        NearestRankPercentile(durations, 50.0), NearestRankPercentile(durations, 95.0), NearestRankPercentile(durations, 99.0),
        durations[|durations| - 1], SaturatingTotal(durations)))
  }

  lemma {:induction false} SaturatingTotalIs(s: seq<u64>)
    ensures SaturatingTotal(s) == Saturate(Sum(s))
  {
    if s == [] {
    } else {
      SaturatingTotalIs(s[..|s| - 1]);
    }
  }

  lemma {:induction false} SumOfInsert(s: seq<u64>, x: u64)
    ensures Sum(Insert(s, x)) == Sum(s) + x
  {
    if s == [] || s[|s| - 1] <= x {
      assert (s + [x])[..|s|] == s;
    } else {
      var front, last := s[..|s| - 1], s[|s| - 1];
      SumOfInsert(front, x);
      assert (Insert(front, x) + [last])[..|Insert(front, x)|] == Insert(front, x);
    }
  }

  lemma {:induction false} SumOfSort(s: seq<u64>)
    ensures Sum(Sort(s)) == Sum(s)
  {
    if s == [] {
    } else {
      SumOfSort(s[..|s| - 1]);
      SumOfInsert(Sort(s[..|s| - 1]), s[|s| - 1]);
    }
  }

  /** The statistics are those of the percentages they are named after: at least half of the durations
      are at most `p50Ns` and less than half are below it; likewise 95 and 99 percent. */
  lemma {:induction false} SummaryPercentiles(operation: string, traces: seq<PerfTrace>)
    requires traces != []
    ensures var s, d, n := SummarizeTraces(operation, traces).value, Durations(traces), |traces| as real;
      && s.p50Ns in d && CountAtMost(d, s.p50Ns) as real >= n / 2.0 && (CountBelow(d, s.p50Ns) as real) < n / 2.0
      && s.p95Ns in d && CountAtMost(d, s.p95Ns) as real >= n * 0.95 && (CountBelow(d, s.p95Ns) as real) < n * 0.95
      && s.p99Ns in d && CountAtMost(d, s.p99Ns) as real >= n * 0.99 && (CountBelow(d, s.p99Ns) as real) < n * 0.99
  {
    PercentileMeaning(Durations(traces), 50.0);
    PercentileMeaning(Durations(traces), 95.0);
    PercentileMeaning(Durations(traces), 99.0);
  }

  ghost function AtMost(s: seq<u64>, x: u64): set<int> {
    set i | 0 <= i < |s| && s[i] <= x
  }

  ghost function Below(s: seq<u64>, x: u64): set<int> {
    set i | 0 <= i < |s| && s[i] < x
  }

  lemma {:induction false} PositionsGrow(s: seq<u64>, x: u64)
    requires s != []
    ensures var n := |s| - 1;
      && AtMost(s, x) == AtMost(s[..n], x) + (if s[n] <= x then {n} else {}) && n !in AtMost(s[..n], x)
      && Below(s, x) == Below(s[..n], x) + (if s[n] < x then {n} else {}) && n !in Below(s[..n], x)
  {
  }

  /** The counts are numbers of positions. */
  lemma {:induction false} CountsAre(s: seq<u64>, x: u64)
    ensures CountAtMost(s, x) == |AtMost(s, x)| && CountBelow(s, x) == |Below(s, x)|
  {
    if s == [] {
    } else {
      CountsAre(s[..|s| - 1], x);
      PositionsGrow(s, x);
    }
  }

  /** A percentage of zero or less gives the fastest, one above 100 the slowest, of any durations. */
  lemma {:induction false} PercentileEnds(durations: seq<u64>, pct: real, x: u64)
    requires x in durations
    ensures pct <= 0.0 ==> NearestRankPercentile(Sort(durations), pct) <= x
    ensures pct >= 100.0 ==> x <= NearestRankPercentile(Sort(durations), pct)
  {
    var sorted := Sort(durations);
    SortSorts(durations);
    assert x in multiset(sorted);
    var i :| 0 <= i < |sorted| && sorted[i] == x;
    RankAtEnds(|sorted|, pct);
  }

  lemma {:induction false} RankAtEnds(n: nat, pct: real)
    requires 0 < n
    ensures pct <= 0.0 ==> NearestRank(n, pct) == 0
    ensures pct >= 100.0 ==> NearestRank(n, pct) == n - 1
  {
    ShareAtEnds(pct / 100.0, n);
    if pct <= 0.0 {
      CeilMonotone(Share(n, pct), 0.0);
    } else if pct >= 100.0 {
      CeilMonotone(n as real, Share(n, pct));
    }
  }

  lemma {:induction false} ShareAtEnds(a: real, n: nat)
    ensures a <= 0.0 ==> a * n as real <= 0.0
    ensures a >= 1.0 ==> a * n as real >= n as real
  {
  }

  /** Percentiles are ordered, the maximum is the slowest trace, the total is the sum of all, cut at
      the largest 64-bit value. */
  lemma {:induction false} SummaryMeaning(operation: string, traces: seq<PerfTrace>)
    requires traces != []
    ensures var s := SummarizeTraces(operation, traces).value;
      && s.count == |traces| && s.p50Ns <= s.p95Ns <= s.p99Ns <= s.maxNs
      && (forall i | 0 <= i < |traces| :: DurationNs(traces[i]) <= s.maxNs)
      && (exists i | 0 <= i < |traces| :: DurationNs(traces[i]) == s.maxNs)
      && s.totalNs == Saturate(Sum(Durations(traces)))
  {
    var d := Durations(traces);
    var sorted := Sort(d);
    SortSorts(d);
    PercentilesAscend(sorted, 50.0, 95.0);
    PercentilesAscend(sorted, 95.0, 99.0);
    var last := sorted[|sorted| - 1];
    forall i | 0 <= i < |traces| ensures DurationNs(traces[i]) <= last {
      assert d[i] in multiset(d);
      assert d[i] in sorted;
    }
    assert last in multiset(sorted);
    assert last in d;
    SaturatingTotalIs(sorted);
    SumOfSort(d);
  }

  /** No trace took longer than the maximum, and unless none took any time, one took just that long. */
  lemma {:induction false} SlowestIs(operation: string, traces: seq<PerfTrace>)
    requires traces != []
    ensures var max := SummarizeTraces(operation, traces).value.maxNs;
      && (forall i | 0 <= i < |traces| :: traces[i].endNs <= traces[i].startNs + max)
      && (max > 0 ==> exists i | 0 <= i < |traces| :: traces[i].endNs == traces[i].startNs + max)
  {
    SummaryMeaning(operation, traces);
  }

  // ------------------------------------------------------------------ one summary per operation

  /** Text order, character by character. */
  predicate Before(a: string, b: string) {
    b != "" && (a == "" || a[0] < b[0] || (a[0] == b[0] && Before(a[1..], b[1..])))
  }

  lemma {:induction false} BeforeIsTotal(a: string, b: string)
    ensures a == b || Before(a, b) || Before(b, a)
  {
    if a == "" || b == "" {
    } else if a[0] == b[0] {
      BeforeIsTotal(a[1..], b[1..]);
      assert a == [a[0]] + a[1..] && b == [b[0]] + b[1..];
    }
  }

  lemma {:induction false} BeforeIsTransitive(a: string, b: string, c: string)
    requires Before(a, b) && Before(b, c)
    ensures Before(a, c)
  {
    if a == "" {
    } else if a[0] == b[0] == c[0] {
      BeforeIsTransitive(a[1..], b[1..], c[1..]);
    }
  }

  lemma {:induction false} NotBeforeItself(a: string)
    ensures !Before(a, a)
  {
    if a == "" {
    } else {
      NotBeforeItself(a[1..]);
    }
  }

  ghost predicate InOrder(names: seq<string>) {
    forall i, j | 0 <= i < j < |names| :: Before(names[i], names[j])
  }

  /** The place of a key in an ordered map. */
  function InsertName(names: seq<string>, name: string): seq<string> {
    if names == [] || Before(names[|names| - 1], name) then names + [name]
    else if names[|names| - 1] == name then names
    else InsertName(names[..|names| - 1], name) + [names[|names| - 1]]
  }

  lemma {:induction false} InsertNameMembers(names: seq<string>, name: string, x: string)
    ensures x in InsertName(names, name) <==> x in names || x == name
  {
    if names == [] {
    } else if !Before(names[|names| - 1], name) && names[|names| - 1] != name {
      InsertNameMembers(names[..|names| - 1], name, x);
      assert names == names[..|names| - 1] + [names[|names| - 1]];
    }
  }

  lemma {:induction false} InsertNameOrders(names: seq<string>, name: string)
    requires InOrder(names)
    ensures InOrder(InsertName(names, name))
  {
    if names == [] {
    } else {
      var front, last := names[..|names| - 1], names[|names| - 1];
      if Before(last, name) {
        forall i | 0 <= i < |front| ensures Before(names[i], name) {
          BeforeIsTransitive(names[i], last, name);
        }
      } else if last != name {
        BeforeIsTotal(last, name);
        InsertNameOrders(front, name);
        var r := InsertName(front, name);
        forall i | 0 <= i < |r| ensures Before(r[i], last) {
          InsertNameMembers(front, name, r[i]);
        }
      }
    }
  }

  function Names(traces: seq<PerfTrace>): seq<string> {
    if traces == [] then [] else InsertName(Names(traces[..|traces| - 1]), traces[|traces| - 1].operation)
  }

  function TracesOf(traces: seq<PerfTrace>, operation: string): seq<PerfTrace> {
    if traces == [] then []
    else
      var last := traces[|traces| - 1];
      TracesOf(traces[..|traces| - 1], operation) + if last.operation == operation then [last] else []
  }

  /** The traces of an operation are exactly its own. */
  lemma {:induction false} TracesOfCounts(traces: seq<PerfTrace>, operation: string, t: PerfTrace)
    ensures multiset(TracesOf(traces, operation))[t] == if t.operation == operation then multiset(traces)[t] else 0
  {
    if traces == [] {
    } else {
      TracesOfCounts(traces[..|traces| - 1], operation, t);
      assert traces == traces[..|traces| - 1] + [traces[|traces| - 1]];
    }
  }

  lemma {:induction false} NamesAre(traces: seq<PerfTrace>)
    ensures InOrder(Names(traces))
    ensures forall name :: name in Names(traces) <==> TracesOf(traces, name) != []
  {
    if traces == [] {
    } else {
      var front, last := traces[..|traces| - 1], traces[|traces| - 1];
      NamesAre(front);
      InsertNameOrders(Names(front), last.operation);
      forall name ensures name in Names(traces) <==> TracesOf(traces, name) != [] {
        InsertNameMembers(Names(front), last.operation, name);
      }
    }
  }

  /** How many traces the listed operations account for. */
  function Counted(names: seq<string>, traces: seq<PerfTrace>): nat {
    if names == [] then 0 else Counted(names[..|names| - 1], traces) + |TracesOf(traces, names[|names| - 1])|
  }

  lemma {:induction false} CountedStep(names: seq<string>, traces: seq<PerfTrace>)
    requires traces != []
    ensures Counted(names, traces)
         == Counted(names, traces[..|traces| - 1]) + multiset(names)[traces[|traces| - 1].operation]
  {
    if names == [] {
    } else {
      var front, name, operation := names[..|names| - 1], names[|names| - 1], traces[|traces| - 1].operation;
      CountedStep(front, traces);
      assert names == front + [name];
      assert multiset(names)[operation] == multiset(front)[operation] + if name == operation then 1 else 0;
      assert |TracesOf(traces, name)| == |TracesOf(traces[..|traces| - 1], name)| + if name == operation then 1 else 0;
    }
  }

  lemma {:induction false} CountedNone(names: seq<string>)
    ensures Counted(names, []) == 0
  {
    if names == [] {
    } else {
      CountedNone(names[..|names| - 1]);
    }
  }

  lemma {:induction false} OrderedOnce(names: seq<string>, name: string)
    requires InOrder(names) && name in names
    ensures multiset(names)[name] == 1
  {
    var front, last := names[..|names| - 1], names[|names| - 1];
    assert names == front + [last];
    if name in front {
      OrderedOnce(front, name);
      NotBeforeItself(name);
    } else {
      assert multiset(front)[name] == 0;
    }
  }

  lemma {:induction false} CountedAll(names: seq<string>, traces: seq<PerfTrace>)
    requires InOrder(names) && forall i | 0 <= i < |traces| :: traces[i].operation in names
    ensures Counted(names, traces) == |traces|
  {
    if traces == [] {
      CountedNone(names);
    } else {
      CountedAll(names, traces[..|traces| - 1]);
      CountedStep(names, traces);
      OrderedOnce(names, traces[|traces| - 1].operation);
    }
  }

  lemma {:induction false} TraceIsListed(traces: seq<PerfTrace>, i: nat)
    requires i < |traces|
    ensures TracesOf(traces, traces[i].operation) != []
  {
    if i == |traces| - 1 {
    } else {
      TraceIsListed(traces[..|traces| - 1], i);
    }
  }

  /** The values of `f` that are there, in the order of the names. */
  function Collect(f: string -> Option<PerfSummary>, names: seq<string>): seq<PerfSummary> {
    if names == [] then []
    else
      var summary := f(names[|names| - 1]);
      Collect(f, names[..|names| - 1]) + if summary.Some? then [summary.value] else []
  }

  function Summarizer(traces: seq<PerfTrace>): string -> Option<PerfSummary> {
    (name: string) => SummarizeTraces(name, TracesOf(traces, name))
  }

  /** One summary for each listed operation that has traces. */
  function SummariesFor(names: seq<string>, traces: seq<PerfTrace>): seq<PerfSummary> {
    Collect(Summarizer(traces), names)
  }

  function Counts(summaries: seq<PerfSummary>): nat {
    if summaries == [] then 0 else Counts(summaries[..|summaries| - 1]) + summaries[|summaries| - 1].count
  }

  lemma {:induction false} CountsOfSummaries(names: seq<string>, traces: seq<PerfTrace>)
    ensures Counts(SummariesFor(names, traces)) == Counted(names, traces)
  {
    if names == [] {
    } else {
      var front, name := names[..|names| - 1], names[|names| - 1];
      CountsOfSummaries(front, traces);
      var before, summary := SummariesFor(front, traces), SummarizeTraces(name, TracesOf(traces, name));
      if summary.Some? {
        assert (before + [summary.value])[..|before|] == before;
      } else {
        assert SummariesFor(names, traces) == before;
      }
    }
  }

  lemma {:induction false} CollectAll(f: string -> Option<PerfSummary>, names: seq<string>)
    requires forall i | 0 <= i < |names| :: f(names[i]).Some?
    ensures |Collect(f, names)| == |names| && forall i | 0 <= i < |names| :: Some(Collect(f, names)[i]) == f(names[i])
  {
    if names == [] {
    } else {
      var front := names[..|names| - 1];
      assert forall i | 0 <= i < |front| :: front[i] == names[i];
      CollectAll(f, front);
    }
  }

  lemma {:induction false} HasSummary(operation: string, traces: seq<PerfTrace>)
    requires traces != []
    ensures var s := SummarizeTraces(operation, traces);
      s.Some? && s.value.operation == operation && s.value.count == |traces|
  {
  }

  /** Each listed operation that has traces gets its summary, at its place in the list. */
  lemma {:induction false} SummaryPerName(names: seq<string>, traces: seq<PerfTrace>)
    requires forall i | 0 <= i < |names| :: TracesOf(traces, names[i]) != []
    ensures |SummariesFor(names, traces)| == |names|
    ensures forall i | 0 <= i < |names| :: Some(SummariesFor(names, traces)[i]) == Summarizer(traces)(names[i])
  {
    var f := Summarizer(traces);
    forall i | 0 <= i < |names| ensures f(names[i]).Some? {
      HasSummary(names[i], TracesOf(traces, names[i]));
    }
    CollectAll(f, names);
  }

  /** Grouping loses no trace: the summaries come in name order, one for each operation that occurs,
      and their counts add up to the number of traces. */
  lemma {:induction false} GroupingIsComplete(traces: seq<PerfTrace>)
    ensures var names, out := Names(traces), SummariesFor(Names(traces), traces);
      && InOrder(names) && |out| == |names| && Counts(out) == |traces|
      && forall i | 0 <= i < |names| :: out[i].operation == names[i] && out[i].count == |TracesOf(traces, names[i])|
    ensures forall name :: name in Names(traces) <==> exists i | 0 <= i < |traces| :: traces[i].operation == name
  {
    var names := Names(traces);
    NamesAre(traces);
    forall i | 0 <= i < |traces| ensures traces[i].operation in names {
      TraceIsListed(traces, i);
    }
    forall name | name in names ensures exists i | 0 <= i < |traces| :: traces[i].operation == name {
      OperationOccurs(traces, name);
    }
    CountedAll(names, traces);
    CountsOfSummaries(names, traces);
    forall i | 0 <= i < |names| ensures TracesOf(traces, names[i]) != [] {
      assert names[i] in names;
    }
    SummaryPerName(names, traces);
    forall i | 0 <= i < |names|
      ensures SummariesFor(names, traces)[i].operation == names[i] && SummariesFor(names, traces)[i].count == |TracesOf(traces, names[i])|
    {
      assert Some(SummariesFor(names, traces)[i]) == Summarizer(traces)(names[i]);
      HasSummary(names[i], TracesOf(traces, names[i]));
    }
  }

  lemma {:induction false} OperationOccurs(traces: seq<PerfTrace>, name: string)
    requires TracesOf(traces, name) != []
    ensures exists i | 0 <= i < |traces| :: traces[i].operation == name
  {
    var n := |traces| - 1;
    if traces[n].operation == name {
    } else {
      OperationOccurs(traces[..n], name);
      var i :| 0 <= i < n && traces[..n][i].operation == name;
      assert traces[i].operation == name;
    }
  }

  class InMemoryPerfCollector {
    var buffer: seq<PerfTrace>

    constructor ()
      ensures buffer == []
    {
      buffer := [];
    }

    method Record(trace: PerfTrace)
      modifies this
      ensures buffer == old(buffer) + [trace]
    {
      buffer := buffer + [trace];
    }

    method Drain() returns (traces: seq<PerfTrace>)
      modifies this
      ensures traces == old(buffer) && buffer == []
    {
      traces := buffer;
      buffer := [];
    }

    method Summarize() returns (out: seq<PerfSummary>)
      ensures out == SummariesFor(Names(buffer), buffer)
    {
      var names, grouped := Group(buffer);
      NamesAre(buffer);
      forall name | name in names ensures name in grouped && grouped[name] == TracesOf(buffer, name) {
      }
      out := SummarizeGroups(names, grouped, buffer);
    }
  }

  method SummarizeGroups(names: seq<string>, grouped: map<string, seq<PerfTrace>>, ghost traces: seq<PerfTrace>) returns (out: seq<PerfSummary>)
    requires forall name | name in names :: name in grouped && grouped[name] == TracesOf(traces, name)
    ensures out == SummariesFor(names, traces)
  {
    ghost var f := Summarizer(traces);
    out := [];
    for i := 0 to |names|
      invariant out == Collect(f, names[..i])
    {
      assert names[..i + 1][..i] == names[..i] && names[i] in names;
      var summary := SummarizeTraces(names[i], grouped[names[i]]);
      assert summary == f(names[i]);
      if summary.Some? {
        out := out + [summary.value];
      }
    }
    assert names[..|names|] == names;
  }

  /** The map files every trace under its operation. */
  ghost predicate Files(grouped: map<string, seq<PerfTrace>>, traces: seq<PerfTrace>) {
    && (forall name :: name in grouped <==> TracesOf(traces, name) != [])
    && (forall name | name in grouped :: grouped[name] == TracesOf(traces, name))
  }

  lemma {:induction false} FilesOneMore(grouped: map<string, seq<PerfTrace>>, front: seq<PerfTrace>, t: PerfTrace)
    requires Files(grouped, front)
    ensures Files(grouped[t.operation := (if t.operation in grouped then grouped[t.operation] else []) + [t]], front + [t])
  {
    forall name ensures TracesOf(front + [t], name) == TracesOf(front, name) + if t.operation == name then [t] else [] {
      assert (front + [t])[..|front|] == front;
    }
  }

  /** The keys, in order, and the entries of an ordered map from operation to traces. */
  method Group(traces: seq<PerfTrace>) returns (names: seq<string>, grouped: map<string, seq<PerfTrace>>)
    ensures names == Names(traces)
    ensures Files(grouped, traces)
  {
    names, grouped := [], map[];
    for i := 0 to |traces|
      invariant names == Names(traces[..i])
      invariant Files(grouped, traces[..i])
    {
      var t := traces[i];
      assert traces[..i + 1] == traces[..i] + [t] && traces[..i + 1][..i] == traces[..i];
      FilesOneMore(grouped, traces[..i], t);
      grouped := grouped[t.operation := (if t.operation in grouped then grouped[t.operation] else []) + [t]];
      names := InsertName(names, t.operation);
    }
    assert traces[..|traces|] == traces;
  }

  // ------------------------------------------------------------------ budgets

  predicate OverBudget(s: PerfSummary, b: PerfBudget) {
    s.operation == b.operation && s.p95Ns > b.p95BudgetNs
  }

  function ViolationOf(s: PerfSummary, b: PerfBudget): BudgetViolation {
    BudgetViolation(s.operation, s.p95Ns, b.p95BudgetNs)
  }

  function ViolationsOf(summaries: seq<PerfSummary>, b: PerfBudget): seq<BudgetViolation> {
    if summaries == [] then []
    else
      var last := summaries[|summaries| - 1];
      ViolationsOf(summaries[..|summaries| - 1], b) + if OverBudget(last, b) then [ViolationOf(last, b)] else []
  }

  function Violations(summaries: seq<PerfSummary>, budgets: seq<PerfBudget>): seq<BudgetViolation> {
    if budgets == [] then []
    else Violations(summaries, budgets[..|budgets| - 1]) + ViolationsOf(summaries, budgets[|budgets| - 1])
  }

  method CheckBudgets(summaries: seq<PerfSummary>, budgets: seq<PerfBudget>) returns (out: seq<BudgetViolation>)
    ensures out == Violations(summaries, budgets)
  {
    out := [];
    for i := 0 to |budgets|
      invariant out == Violations(summaries, budgets[..i])
    {
      assert budgets[..i + 1][..i] == budgets[..i];
      var b := budgets[i];
      ghost var before := out;
      for j := 0 to |summaries|
        invariant out == before + ViolationsOf(summaries[..j], b)
      {
        assert summaries[..j + 1][..j] == summaries[..j];
        var s := summaries[j];
        if s.operation != b.operation { continue; }
        if s.p95Ns > b.p95BudgetNs {
          out := out + [ViolationOf(s, b)];
        }
      }
      assert summaries[..|summaries|] == summaries;
    }
    assert budgets[..|budgets|] == budgets;
  }

  ghost predicate Reported(s: PerfSummary, b: PerfBudget, v: BudgetViolation) {
    s.operation == b.operation && s.p95Ns > b.p95BudgetNs && v == BudgetViolation(s.operation, s.p95Ns, b.p95BudgetNs)
  }

  lemma {:induction false} ViolationsOfMembers(summaries: seq<PerfSummary>, b: PerfBudget, v: BudgetViolation)
    ensures v in ViolationsOf(summaries, b) <==> exists i | 0 <= i < |summaries| :: Reported(summaries[i], b, v)
  {
    if summaries == [] {
    } else {
      var front, n := summaries[..|summaries| - 1], |summaries| - 1;
      ViolationsOfMembers(front, b, v);
      assert forall i | 0 <= i < n :: front[i] == summaries[i];
      if Reported(summaries[n], b, v) {
        assert v in ViolationsOf(summaries, b);
      }
    }
  }

  /** A violation is reported exactly when some summary exceeds some budget of its operation. */
  lemma {:induction false} ReportedExactlyWhen(summaries: seq<PerfSummary>, budgets: seq<PerfBudget>, v: BudgetViolation)
    ensures v in Violations(summaries, budgets)
       <==> exists s, b | s in summaries && b in budgets :: Reported(s, b, v)
  {
    if budgets == [] {
    } else {
      var front, last := budgets[..|budgets| - 1], budgets[|budgets| - 1];
      ReportedExactlyWhen(summaries, front, v);
      ViolationsOfMembers(summaries, last, v);
      assert budgets == front + [last];
    }
  }

  ghost function OverOne(summaries: seq<PerfSummary>, b: PerfBudget): set<int> {
    set i | 0 <= i < |summaries| && summaries[i].operation == b.operation && summaries[i].p95Ns > b.p95BudgetNs
  }

  /** How many (summary, budget) pairs are over budget. */
  ghost function OverPairs(summaries: seq<PerfSummary>, budgets: seq<PerfBudget>): nat {
    if budgets == [] then 0 else OverPairs(summaries, budgets[..|budgets| - 1]) + |OverOne(summaries, budgets[|budgets| - 1])|
  }

  lemma {:induction false} ViolationsOfCount(summaries: seq<PerfSummary>, b: PerfBudget)
    ensures |ViolationsOf(summaries, b)| == |OverOne(summaries, b)|
  {
    if summaries == [] {
    } else {
      var front, n := summaries[..|summaries| - 1], |summaries| - 1;
      ViolationsOfCount(front, b);
      assert OverOne(summaries, b) == OverOne(front, b) + if OverBudget(summaries[n], b) then {n} else {};
      assert n !in OverOne(front, b);
    }
  }

  /** Each pair over budget is reported once. */
  lemma {:induction false} ReportedOnce(summaries: seq<PerfSummary>, budgets: seq<PerfBudget>)
    ensures |Violations(summaries, budgets)| == OverPairs(summaries, budgets)
  {
    if budgets == [] {
    } else {
      ReportedOnce(summaries, budgets[..|budgets| - 1]);
      ViolationsOfCount(summaries, budgets[|budgets| - 1]);
    }
  }

  lemma {:induction false} ViolationsOfConcat(a: seq<PerfSummary>, c: seq<PerfSummary>, b: PerfBudget)
    ensures ViolationsOf(a + c, b) == ViolationsOf(a, b) + ViolationsOf(c, b)
  {
    if c == [] {
      assert a + c == a;
    } else {
      var front, last := c[..|c| - 1], c[|c| - 1];
      assert (a + c)[..|a + c| - 1] == a + front;
      ViolationsOfConcat(a, front, b);
    }
  }

  /** Reports come in the order of the budgets, and under one budget in the order of the summaries. */
  lemma {:induction false} ReportsFollowBudgets(summaries: seq<PerfSummary>, more: seq<PerfSummary>, budgets: seq<PerfBudget>, b: PerfBudget)
    ensures Violations(summaries + more, budgets + [b])
         == Violations(summaries + more, budgets) + (ViolationsOf(summaries, b) + ViolationsOf(more, b))
  {
    ViolationsOfConcat(summaries, more, b);
    assert (budgets + [b])[..|budgets|] == budgets;
  }
}
