/**
 Calendar dates as already-parsed values, and the month-end resampling
 `series.resample('ME').size()`: one bucket per calendar month from the
 earliest to the latest date present, each with its number of rows
 (months without rows included, with count 0).
 */
module Calendar {
  import opened Sequences

  /** A month of the year, January being 1. */
  type MonthOfYear = m: int | 1 <= m <= 12 witness 1

  /** A parsed timestamp, down to the day (the time of day plays no part here). */
  datatype Date = Date(year: int, month: MonthOfYear, day: int)

  /** A calendar month: the label of one resampling bucket. */
  datatype YearMonth = YearMonth(year: int, month: int)

  /** One resampling bucket: a month and the number of rows dated in it. */
  datatype MonthCount = MonthCount(month: YearMonth, count: nat)

  /** Months counted from January of year 0, so that consecutive months differ by one. */
  function MonthNumber(ym: YearMonth): int {
    ym.year * 12 + (ym.month - 1)
  }

  /** The month a date falls in. */
  function MonthOf(d: Date): (ym: YearMonth)
    ensures 1 <= ym.month <= 12
  {
    YearMonth(d.year, d.month)
  }

  /** The month with the given number. */
  function MonthAt(m: int): (ym: YearMonth)
    ensures 1 <= ym.month <= 12
    ensures MonthNumber(ym) == m
  {
    YearMonth(m / 12, m % 12 + 1)
  }

  /** Month numbers name months uniquely: numbering a valid month and decoding gives it back. */
  lemma MonthAtNumber(ym: YearMonth)
    requires 1 <= ym.month <= 12
    ensures MonthAt(MonthNumber(ym)) == ym
  {
    var m := MonthNumber(ym);
    assert m == ym.year * 12 + (ym.month - 1);
    assert m / 12 == ym.year && m % 12 == ym.month - 1;
  }

  function Min(ms: seq<int>): (lo: int)
    requires ms != []
    ensures lo in ms
    ensures forall i :: 0 <= i < |ms| ==> lo <= ms[i]
  {
    if |ms| == 1 then ms[0]
    else
      var m := Min(ms[1..]);
      assert forall i :: 1 <= i < |ms| ==> ms[i] == ms[1..][i - 1];
      if ms[0] <= m then ms[0] else m
  }

  function Max(ms: seq<int>): (hi: int)
    requires ms != []
    ensures hi in ms
    ensures forall i :: 0 <= i < |ms| ==> ms[i] <= hi
  {
    if |ms| == 1 then ms[0]
    else
      var m := Max(ms[1..]);
      assert forall i :: 1 <= i < |ms| ==> ms[i] == ms[1..][i - 1];
      if ms[0] >= m then ms[0] else m
  }

  /** The month after `ym`. */
  function NextMonth(ym: YearMonth): (n: YearMonth)
    requires 1 <= ym.month <= 12
    ensures 1 <= n.month <= 12
    ensures MonthNumber(n) == MonthNumber(ym) + 1
  {
    if ym.month == 12 then YearMonth(ym.year + 1, 1) else YearMonth(ym.year, ym.month + 1)
  }

  /** The buckets for the months from `start` to the month numbered `hi`, counting the month numbers in `ms`. */
  function Buckets(ms: seq<int>, start: YearMonth, hi: int): (r: seq<MonthCount>)
    requires 1 <= start.month <= 12
    decreases hi - MonthNumber(start)
    ensures |r| == if MonthNumber(start) <= hi then hi - MonthNumber(start) + 1 else 0
    ensures forall k :: 0 <= k < |r| ==>
      MonthNumber(r[k].month) == MonthNumber(start) + k && 1 <= r[k].month.month <= 12 && r[k].count == Count(ms, MonthNumber(start) + k)
  {
    if MonthNumber(start) > hi then []
    else [MonthCount(start, Count(ms, MonthNumber(start)))] + Buckets(ms, NextMonth(start), hi)
  }

  /** Sum of the bucket counts. */
  function TotalCount(r: seq<MonthCount>): nat {
    if r == [] then 0 else r[0].count + TotalCount(r[1..])
  }

  /** Number of elements of `ms` between `lo` and `hi` inclusive. */
  function CountBetween(ms: seq<int>, lo: int, hi: int): nat {
    if ms == [] then 0
    else (if lo <= ms[0] <= hi then 1 else 0) + CountBetween(ms[1..], lo, hi)
  }

  lemma {:induction false} CountBetweenSplit(ms: seq<int>, lo: int, hi: int)
    requires lo <= hi
    ensures CountBetween(ms, lo, hi) == Count(ms, lo) + CountBetween(ms, lo + 1, hi)
  {
    if ms != [] {
      CountBetweenSplit(ms[1..], lo, hi);
    }
  }

  lemma {:induction false} CountBetweenAll(ms: seq<int>, lo: int, hi: int)
    requires forall i :: 0 <= i < |ms| ==> lo <= ms[i] <= hi
    ensures CountBetween(ms, lo, hi) == |ms|
  {
    if ms != [] {
      assert forall i :: 1 <= i < |ms| ==> ms[i] == ms[1..][i - 1];
      CountBetweenAll(ms[1..], lo, hi);
    }
  }

  /** The buckets from `start` to `hi` together count every element in that range once. */
  lemma {:induction false} TotalBuckets(ms: seq<int>, start: YearMonth, hi: int)
    requires 1 <= start.month <= 12
    decreases hi - MonthNumber(start)
    ensures TotalCount(Buckets(ms, start, hi)) == CountBetween(ms, MonthNumber(start), hi)
  {
    var lo := MonthNumber(start);
    if lo > hi {
      CountBetweenEmpty(ms, lo, hi);
    } else {
      TotalBuckets(ms, NextMonth(start), hi);
      CountBetweenSplit(ms, lo, hi);
      var r := Buckets(ms, start, hi);
      assert r[1..] == Buckets(ms, NextMonth(start), hi);
    }
  }

  lemma {:induction false} CountBetweenEmpty(ms: seq<int>, lo: int, hi: int)
    requires lo > hi
    ensures CountBetween(ms, lo, hi) == 0
  {
    if ms != [] {
      CountBetweenEmpty(ms[1..], lo, hi);
    }
  }

  /**
   `resample('ME').size()` over rows dated in the months numbered `ms`:
   consecutive months from the earliest to the latest, each with its number
   of rows; nothing for no rows.
   */
  function Monthly(ms: seq<int>): (r: seq<MonthCount>)
    ensures ms == [] <==> r == []
    ensures forall k :: 0 <= k < |r| - 1 ==> MonthNumber(r[k + 1].month) == MonthNumber(r[k].month) + 1
    ensures forall k :: 0 <= k < |r| ==> 1 <= r[k].month.month <= 12 && r[k].count == Count(ms, MonthNumber(r[k].month))
    ensures r != [] ==> r[0].count > 0 && r[|r| - 1].count > 0
    ensures r != [] ==> forall i :: 0 <= i < |ms| ==> MonthNumber(r[0].month) <= ms[i] <= MonthNumber(r[|r| - 1].month)
    ensures TotalCount(r) == |ms|
  {
    if ms == [] then []
    else
      var lo, hi := Min(ms), Max(ms);
      var start := MonthAt(lo);
      SpanLabels(ms, start, hi);
      SpanEnds(ms, start, hi);
      SpanTotal(ms, start, hi);
      Buckets(ms, start, hi)
  }

  /** In a run of consecutive months, the `k`-th is `k` months after the first. */
  lemma {:induction false} ConsecutiveOffsets(r: seq<MonthCount>)
    requires forall k :: 0 <= k < |r| - 1 ==> MonthNumber(r[k + 1].month) == MonthNumber(r[k].month) + 1
    ensures forall k :: 0 <= k < |r| ==> MonthNumber(r[k].month) == MonthNumber(r[0].month) + k
  {
    if |r| > 1 {
      ConsecutiveOffsets(r[1..]);
      assert forall k :: 1 <= k < |r| ==> r[k] == r[1..][k - 1];
    }
  }

  /** Every month in which some row is dated is, as itself, the label of a non-empty bucket. */
  lemma {:induction false} MonthlyShowsMonth(ms: seq<int>, ym: YearMonth)
    requires 1 <= ym.month <= 12
    requires MonthNumber(ym) in ms
    ensures exists k :: 0 <= k < |Monthly(ms)| && Monthly(ms)[k].month == ym && Monthly(ms)[k].count > 0
  {
    var r := Monthly(ms);
    var m := MonthNumber(ym);
    var i :| 0 <= i < |ms| && ms[i] == m;
    ConsecutiveOffsets(r);
    var k := m - MonthNumber(r[0].month);
    assert 0 <= k < |r|;
    MonthAtNumber(r[k].month);
    MonthAtNumber(ym);
    assert r[k].month == ym;
  }

  /** Buckets are consecutive calendar months, each counting its month number. */
  lemma SpanLabels(ms: seq<int>, start: YearMonth, hi: int)
    requires 1 <= start.month <= 12
    ensures var r := Buckets(ms, start, hi);
      && (forall k :: 0 <= k < |r| - 1 ==> MonthNumber(r[k + 1].month) == MonthNumber(r[k].month) + 1)
      && (forall k :: 0 <= k < |r| ==> 1 <= r[k].month.month <= 12 && r[k].count == Count(ms, MonthNumber(r[k].month)))
  {
  }

  /** Buckets from the earliest to the latest month of `ms` start and end with a non-empty month. */
  lemma SpanEnds(ms: seq<int>, start: YearMonth, hi: int)
    requires 1 <= start.month <= 12
    requires MonthNumber(start) in ms && hi in ms
    requires forall i :: 0 <= i < |ms| ==> MonthNumber(start) <= ms[i] <= hi
    ensures var r := Buckets(ms, start, hi);
      && r != [] && r[0].count > 0 && r[|r| - 1].count > 0
      && (forall i :: 0 <= i < |ms| ==> MonthNumber(r[0].month) <= ms[i] <= MonthNumber(r[|r| - 1].month))
  {
  }

  /** Buckets from the earliest to the latest month of `ms` count every element once. */
  lemma SpanTotal(ms: seq<int>, start: YearMonth, hi: int)
    requires 1 <= start.month <= 12
    requires forall i :: 0 <= i < |ms| ==> MonthNumber(start) <= ms[i] <= hi
    ensures TotalCount(Buckets(ms, start, hi)) == |ms|
  {
    TotalBuckets(ms, start, hi);
    CountBetweenAll(ms, MonthNumber(start), hi);
  }
}
