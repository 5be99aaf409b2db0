/** The coarse monthly buckets events are grouped by: thirty-day months in 365-day years. */
module TimeBuckets {
  import opened Foundations

  /** Year and month of a timestamp, unless it lies a second or more before the epoch. */
  function YearMonth(createdAtMs: i64): (r: Option<(int, int)>)
    ensures r.Some? ==> r.value.0 >= 1970 && 1 <= r.value.1 <= 12
  {
    var secs := TruncDiv(createdAtMs, 1000);
    if secs < 0 then None
    else
      var totalDays := secs / 86400;
      var month := totalDays % 365 / 30;
      Some((1970 + totalDays / 365, 1 + if month < 11 then month else 11))
  }

  predicate Digits(s: string) {
    forall i | 0 <= i < |s| :: '0' <= s[i] <= '9'
  }

  function Digit(d: nat): (c: char)
    requires d < 10
    ensures '0' <= c <= '9' && (c - '0') as int == d
  {
    d as char + '0'
  }

  function Decimal(n: nat): (s: string)
    ensures |s| > 0 && Digits(s)
  {
    if n < 10 then [Digit(n)] else Decimal(n / 10) + [Digit(n % 10)]
  }

  /** `format!("{n:0width}")`. */
  function Padded(n: nat, width: nat): (s: string)
    ensures |s| > 0 && Digits(s)
  {
    var digits := Decimal(n);
    if |digits| >= width then digits else seq(width - |digits|, _ => '0') + digits
  }

  function DefaultTimeBucketForMs(createdAtMs: i64): string {
    var b := YearMonth(createdAtMs);
    if b.None? then "unknown" else Padded(b.value.0, 4) + "-" + Padded(b.value.1, 2)
  }

  /** Timestamps up to a second before the epoch still count as January 1970. */
  lemma {:induction false} UnknownExactlyWhen(ms: i64)
    ensures YearMonth(ms) == None <==> ms <= -1000
  {
  }

  /** The first millisecond of a month: 365 days a year, 30 days a month, in UTC. */
  function MonthStart(year: int, month: int): int {
    86_400_000 * (365 * (year - 1970) + 30 * (month - 1))
  }

  /** Every month has 30 days, except that the last one has the 35 days up to the end of the year; the
      second before the epoch counts as the first month. */
  lemma {:induction false} MonthExactlyWhen(ms: i64, year: int, month: int)
    ensures YearMonth(ms) == Some((year, month))
       <==> && 1970 <= year && 1 <= month <= 12
            && (MonthStart(year, month) <= ms || (year == 1970 && month == 1 && -1000 < ms))
            && ms < if month < 12 then MonthStart(year, month + 1) else MonthStart(year + 1, 1)
  {
    var secs := TruncDiv(ms, 1000);
    var days := secs / 86400;
    if 0 <= ms {
      DaysAre(ms);
    }
  }

  lemma {:induction false} DaysAre(ms: nat)
    ensures ms / 1000 / 86400 == ms / 86_400_000
    ensures 86_400_000 * (ms / 86_400_000) <= ms < 86_400_000 * (ms / 86_400_000 + 1)
  {
  }

  ghost predicate NotAfter(a: (int, int), b: (int, int)) {
    a.0 < b.0 || (a.0 == b.0 && a.1 <= b.1)
  }

  /** Later events never fall into earlier buckets. */
  lemma {:induction false} BucketsFollowTime(a: i64, b: i64)
    requires a <= b && YearMonth(a).Some?
    ensures YearMonth(b).Some? && NotAfter(YearMonth(a).value, YearMonth(b).value)
  {
    UnknownExactlyWhen(a);
    UnknownExactlyWhen(b);
    var x, y := TruncDiv(a, 1000), TruncDiv(b, 1000);
    assert x <= y;
    assert x / 86400 <= y / 86400;
  }

  function Value(s: string): nat
    requires Digits(s)
  {
    if s == "" then 0 else Value(s[..|s| - 1]) * 10 + (s[|s| - 1] - '0') as int
  }

  lemma {:induction false} DecimalValue(n: nat)
    ensures Value(Decimal(n)) == n
  {
    var d := Decimal(n);
    if n < 10 {
      assert d[..|d| - 1] == "";
    } else {
      assert d[..|d| - 1] == Decimal(n / 10);
      DecimalValue(n / 10);
    }
  }

  lemma {:induction false} ZerosAddNothing(k: nat, s: string)
    requires Digits(s)
    ensures Value(seq(k, _ => '0') + s) == Value(s)
  {
    var z := seq(k, _ => '0');
    if s == "" {
      assert z + s == z;
      if k > 0 {
        assert z[..k - 1] == seq(k - 1, _ => '0') && z[..k - 1] + "" == z[..k - 1];
        ZerosAddNothing(k - 1, s);
      }
    } else {
      assert (z + s)[..|z + s| - 1] == z + s[..|s| - 1];
      ZerosAddNothing(k, s[..|s| - 1]);
    }
  }

  lemma {:induction false} PaddedValue(n: nat, width: nat)
    ensures Value(Padded(n, width)) == n
  {
    var digits := Decimal(n);
    DecimalValue(n);
    if |digits| < width {
      ZerosAddNothing(width - |digits|, digits);
      assert Padded(n, width) == seq(width - |digits|, _ => '0') + digits;
    }
  }

  lemma {:induction false} PaddedWidth(n: nat, width: nat)
    ensures |Padded(n, width)| >= width
    ensures n < 10 && 0 < width ==> |Padded(n, width)| == width
    ensures n < 100 && 1 < width ==> |Padded(n, width)| == width
  {
    assert n < 10 ==> |Decimal(n)| == 1;
    assert 10 <= n < 100 ==> |Decimal(n / 10)| == 1;
  }

  /** The name is made of the year in at least four digits, a dash and the month in two. */
  ghost predicate Reads(name: string, y: string, m: string, year: int, month: int) {
    && name == y + "-" + m && |y| >= 4 && |m| == 2
    && Digits(y) && Digits(m) && Value(y) == year && Value(m) == month
  }

  lemma {:induction false} NameIs(ms: i64, year: int, month: int)
    requires YearMonth(ms) == Some((year, month))
    ensures exists y, m :: Reads(DefaultTimeBucketForMs(ms), y, m, year, month)
  {
    PaddedWidth(year, 4);
    PaddedWidth(month, 2);
    PaddedValue(year, 4);
    PaddedValue(month, 2);
    assert Reads(DefaultTimeBucketForMs(ms), Padded(year, 4), Padded(month, 2), year, month);
  }

  lemma {:induction false} DashSplits(y1: string, m1: string, y2: string, m2: string)
    requires '-' !in y1 && '-' !in y2 && y1 + "-" + m1 == y2 + "-" + m2
    ensures y1 == y2 && m1 == m2
  {
    var s := y1 + "-" + m1;
    assert s[|y1|] == '-' && s[|y2|] == '-';
    assert forall i | 0 <= i < |y1| :: s[i] == y1[i] && y1[i] in y1;
    assert forall i | 0 <= i < |y2| :: s[i] == y2[i] && y2[i] in y2;
    assert |y1| == |y2|;
    assert s[..|y1|] == y1 && s[..|y2|] == y2;
    assert s[|y1| + 1..] == m1 && s[|y2| + 1..] == m2;
  }

  /** Two events share a bucket name exactly when they share year and month. */
  lemma {:induction false} SameBucketExactlyWhen(a: i64, b: i64)
    ensures DefaultTimeBucketForMs(a) == DefaultTimeBucketForMs(b) <==> YearMonth(a) == YearMonth(b)
  {
    var x, y := YearMonth(a), YearMonth(b);
    if DefaultTimeBucketForMs(a) == DefaultTimeBucketForMs(b) {
      if x.Some? && y.Some? {
        var (y1, m1) := x.value;
        var (y2, m2) := y.value;
        DashSplits(Padded(y1, 4), Padded(m1, 2), Padded(y2, 4), Padded(m2, 2));
        PaddedValue(y1, 4);
        PaddedValue(y2, 4);
        PaddedValue(m1, 2);
        PaddedValue(m2, 2);
      } else if x.Some? {
        StartsWithDigit(x.value.0, x.value.1);
      } else if y.Some? {
        StartsWithDigit(y.value.0, y.value.1);
      }
    }
  }

  lemma {:induction false} StartsWithDigit(year: nat, month: nat)
    ensures Padded(year, 4) + "-" + Padded(month, 2) != "unknown"
  {
    assert (Padded(year, 4) + "-" + Padded(month, 2))[0] == Padded(year, 4)[0] != "unknown"[0];
  }
}
