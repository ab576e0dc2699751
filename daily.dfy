/**
 * The number of records per calendar day: a daily series that starts on the
 * day of the earliest record, ends on the day of the latest one, has one
 * entry per day in between, and holds zero for the days without records.
 */
module Daily {
  import opened Calendar
  import opened Timestamps
  import opened LogRecords
  import opened Counting

  /** The day number of a record's date (days since 0000-01-01). */
  function Day(r: Record): (n: nat)
    ensures n == Ordinal(r.timestamp.date) && n < DayLimit
  {
    Ordinal(r.timestamp.date)
  }

  function Days(rs: seq<Record>): (ds: seq<nat>)
    ensures |ds| == |rs| && forall i :: 0 <= i < |rs| ==> ds[i] == Day(rs[i])
  {
    seq(|rs|, i requires 0 <= i < |rs| => Day(rs[i]))
  }

  /** The smallest element of a non-empty sequence. */
  function MinOf(s: seq<nat>): (m: nat)
    requires s != []
    ensures m in s && forall i :: 0 <= i < |s| ==> m <= s[i]
  {
    if |s| == 1 then s[0]
    else
      var m := MinOf(s[1..]);
      if s[0] <= m then s[0] else m
  }

  /** The largest element of a non-empty sequence. */
  function MaxOf(s: seq<nat>): (m: nat)
    requires s != []
    ensures m in s && forall i :: 0 <= i < |s| ==> s[i] <= m
  {
    if |s| == 1 then s[0]
    else
      var m := MaxOf(s[1..]);
      if s[0] >= m then s[0] else m
  }

  /** The consecutive day numbers lo, lo + 1, ..., lo + n - 1. */
  function Span(lo: nat, n: nat): (r: seq<nat>)
    ensures |r| == n && forall i :: 0 <= i < n ==> r[i] == lo + i
  {
    seq(n, i requires 0 <= i < n => lo + i)
  }

  /**
   * The tally of a non-empty sequence of day numbers over the consecutive
   * days from its smallest element to its largest one.
   */
  function SpanCounts(ds: seq<nat>): (counts: seq<nat>)
    requires ds != []
    ensures |counts| == MaxOf(ds) - MinOf(ds) + 1
  {
    Tally(Span(MinOf(ds), MaxOf(ds) - MinOf(ds) + 1), ds)
  }

  /** Entry i of the span tally is the number of occurrences of the i-th day number of the span. */
  lemma SpanCountsAt(ds: seq<nat>, i: nat)
    requires ds != [] && i < |SpanCounts(ds)|
    ensures SpanCounts(ds)[i] == Occurrences<nat>(ds, MinOf(ds) + i)
  {
    var lo := MinOf(ds);
    var keys := Span(lo, MaxOf(ds) - lo + 1);
    assert SpanCounts(ds) == Tally(keys, ds);
    assert keys[i] == lo + i;
  }

  /** Each day number of the sequence has an entry of at least one, at its offset from the smallest. */
  lemma SpanCountsCovers(ds: seq<nat>, k: nat)
    requires k < |ds|
    ensures 0 <= ds[k] - MinOf(ds) < |SpanCounts(ds)| && SpanCounts(ds)[ds[k] - MinOf(ds)] >= 1
  {
    hide *;
    var i := ds[k] - MinOf(ds);
    SpanCountsAt(ds, i);
    var x := ds[k];
    assert MinOf(ds) + i == x;
    OccurrencesPositive(ds, x);
  }

  /** Every day number falls on exactly one day of the span: the entries add up to the length. */
  lemma SpanCountsSum(ds: seq<nat>)
    requires ds != []
    ensures Sum(SpanCounts(ds)) == |ds|
  {
    var lo := MinOf(ds);
    var keys := Span(lo, MaxOf(ds) - lo + 1);
    assert forall i :: 0 <= i < |ds| ==> ds[i] == keys[ds[i] - lo];
    TallySum(keys, ds);
  }

  /** A count per day, counts[i] being the count of the i-th day after start. */
  datatype DailySeries = DailySeries(start: Date, counts: seq<nat>)

  /** The series starts on a real date and all its days lie within the calendar. */
  predicate WellFormed(series: DailySeries) {
    ValidDate(series.start) && Ordinal(series.start) + |series.counts| <= DayLimit
  }

  /** The date an entry of the series counts. */
  function DayOf(series: DailySeries, i: nat): (d: Date)
    requires WellFormed(series) && i < |series.counts|
    ensures ValidDate(d) && Ordinal(d) == Ordinal(series.start) + i
  {
    FromOrdinal(Ordinal(series.start) + i)
  }

  /** Number of records dated d: the reference against which the series is checked. */
  function CountOn(rs: seq<Record>, d: Date): nat {
    if rs == [] then 0
    else CountOn(rs[..|rs| - 1], d) + (if rs[|rs| - 1].timestamp.date == d then 1 else 0)
  }

  /** The day number of the earliest record. */
  function FirstDay(rs: seq<Record>): (n: nat)
    requires rs != []
    ensures n < DayLimit
    ensures forall k :: 0 <= k < |rs| ==> n <= Day(rs[k])
    ensures exists k :: 0 <= k < |rs| && Day(rs[k]) == n
  {
    var ds := Days(rs);
    MinOf(ds)
  }

  /** The day number of the latest record. */
  function LastDay(rs: seq<Record>): (n: nat)
    requires rs != []
    ensures FirstDay(rs) <= n < DayLimit
    ensures forall k :: 0 <= k < |rs| ==> Day(rs[k]) <= n
    ensures exists k :: 0 <= k < |rs| && Day(rs[k]) == n
  {
    var ds := Days(rs);
    MaxOf(ds)
  }

  /**
   * Resampling the records by calendar day and taking the size of each bin:
   * one bin per day from the earliest record's day to the latest one's.
   */
  function LogsPerDay(rs: seq<Record>): (series: DailySeries)
    requires rs != []
    ensures WellFormed(series)
    ensures Ordinal(series.start) == FirstDay(rs)
    ensures |series.counts| == LastDay(rs) - FirstDay(rs) + 1
  {
    var ds := Days(rs);
    DailySeries(FromOrdinal(MinOf(ds)), SpanCounts(ds))
  }

  /** No record is dated d exactly when the count for d is zero. */
  lemma {:induction false} CountOnZero(rs: seq<Record>, d: Date)
    ensures CountOn(rs, d) == 0 <==> forall k :: 0 <= k < |rs| ==> rs[k].timestamp.date != d
  {
    if rs != [] {
      var p := rs[..|rs| - 1];
      CountOnZero(p, d);
      assert forall k :: 0 <= k < |p| ==> p[k] == rs[k];
    }
  }

  /** The per-day count of records equals the multiplicity of the day number among the records' day numbers. */
  lemma {:induction false} CountOnDays(rs: seq<Record>, d: Date)
    requires ValidDate(d)
    ensures Occurrences(Days(rs), Ordinal(d)) == CountOn(rs, d)
  {
    if rs != [] {
      var p, r := rs[..|rs| - 1], rs[|rs| - 1];
      CountOnDays(p, d);
      assert Days(rs)[..|rs| - 1] == Days(p);
      if Day(r) == Ordinal(d) {
        OrdinalInjective(r.timestamp.date, d);
      }
    }
  }

  /**
   * The series of the records is the span tally of their day numbers, starting
   * on the earliest day.  It only unfolds LogsPerDay, for proofs that hide it.
   */
  lemma LogsPerDayDays(rs: seq<Record>)
    requires rs != []
    ensures LogsPerDay(rs).counts == SpanCounts(Days(rs))
    ensures Ordinal(LogsPerDay(rs).start) == MinOf(Days(rs)) == FirstDay(rs)
    ensures MaxOf(Days(rs)) == LastDay(rs)
  {
  }

  /**
   * The series spans exactly the days of the records: every record's day lies
   * within it, its first day is the day of some record, and so is its last.
   */
  lemma LogsPerDaySpan(rs: seq<Record>)
    requires rs != []
    ensures var series := LogsPerDay(rs);
      var lo := Ordinal(series.start);
      && (forall k :: 0 <= k < |rs| ==> lo <= Day(rs[k]) < lo + |series.counts|)
      && (exists k :: 0 <= k < |rs| && rs[k].timestamp.date == series.start)
      && (exists k :: 0 <= k < |rs| && Day(rs[k]) == lo + |series.counts| - 1)
  {
    var k :| 0 <= k < |rs| && Day(rs[k]) == FirstDay(rs);
    OrdinalInjective(rs[k].timestamp.date, LogsPerDay(rs).start);
  }

  /** Entry i of the series is the number of records dated on the i-th day of the span. */
  lemma LogsPerDayCounts(rs: seq<Record>)
    requires rs != []
    ensures var series := LogsPerDay(rs);
      forall i :: 0 <= i < |series.counts| ==> series.counts[i] == CountOn(rs, DayOf(series, i))
  {
    forall i | 0 <= i < |LogsPerDay(rs).counts|
      ensures LogsPerDay(rs).counts[i] == CountOn(rs, DayOf(LogsPerDay(rs), i))
    {
      LogsPerDayCountAt(rs, i);
    }
  }

  lemma LogsPerDayCountAt(rs: seq<Record>, i: nat)
    requires rs != [] && i < |LogsPerDay(rs).counts|
    ensures LogsPerDay(rs).counts[i] == CountOn(rs, DayOf(LogsPerDay(rs), i))
  {
    hide *;
    var series, ds := LogsPerDay(rs), Days(rs);
    LogsPerDayDays(rs);
    SpanCountsAt(ds, i);
    CountOnDays(rs, DayOf(series, i));
  }

  /** The series is zero-filled: an entry is zero exactly when no record is dated on its day. */
  lemma LogsPerDayZeroFilled(rs: seq<Record>)
    requires rs != []
    ensures var series := LogsPerDay(rs);
      forall i :: 0 <= i < |series.counts| ==>
        (series.counts[i] == 0 <==> forall k :: 0 <= k < |rs| ==> rs[k].timestamp.date != DayOf(series, i))
  {
    var series := LogsPerDay(rs);
    forall i | 0 <= i < |series.counts|
      ensures series.counts[i] == 0 <==> forall k :: 0 <= k < |rs| ==> rs[k].timestamp.date != DayOf(series, i)
    {
      LogsPerDayCountAt(rs, i);
      CountOnZero(rs, DayOf(series, i));
    }
  }

  /** The days of a series are consecutive calendar days, from its start onwards. */
  lemma SeriesConsecutive(series: DailySeries)
    requires WellFormed(series) && |series.counts| >= 1
    ensures DayOf(series, 0) == series.start
    ensures forall i :: 0 <= i < |series.counts| - 1 ==> DayOf(series, i + 1) == NextDay(DayOf(series, i))
  {
    OrdinalRoundTrip(series.start);
    forall i | 0 <= i < |series.counts| - 1
      ensures DayOf(series, i + 1) == NextDay(DayOf(series, i))
    {
      DayOfNext(series, i);
    }
  }

  lemma DayOfNext(series: DailySeries, i: nat)
    requires WellFormed(series) && i + 1 < |series.counts|
    ensures DayOf(series, i + 1) == NextDay(DayOf(series, i))
  {
    var n := Ordinal(series.start) + i;
    assert n + 1 < DayLimit;
    hide *;
    FromOrdinalSucc(n);
    OrdinalInjective(DayOf(series, i), FromOrdinal(n));
    OrdinalInjective(DayOf(series, i + 1), FromOrdinal(n + 1));
  }

  /** The day of a record has a count of at least one, at its own place in the series. */
  lemma RecordCounted(rs: seq<Record>, k: nat)
    requires k < |rs|
    ensures var series := LogsPerDay(rs);
      var i := Day(rs[k]) - FirstDay(rs);
      0 <= i < |series.counts| && DayOf(series, i) == rs[k].timestamp.date && series.counts[i] >= 1
  {
    RecordEntry(rs, k);
    RecordDate(rs, k);
  }

  lemma RecordEntry(rs: seq<Record>, k: nat)
    requires k < |rs|
    ensures var i := Day(rs[k]) - FirstDay(rs);
      0 <= i < |LogsPerDay(rs).counts| && LogsPerDay(rs).counts[i] >= 1
  {
    hide *;
    var ds := Days(rs);
    LogsPerDayDays(rs);
    SpanCountsCovers(ds, k);
  }

  lemma RecordDate(rs: seq<Record>, k: nat)
    requires k < |rs|
    requires 0 <= Day(rs[k]) - FirstDay(rs) < |LogsPerDay(rs).counts|
    ensures DayOf(LogsPerDay(rs), Day(rs[k]) - FirstDay(rs)) == rs[k].timestamp.date
  {
    var d := rs[k].timestamp.date;
    assert ValidDate(d);
    hide *;
    var series := LogsPerDay(rs);
    var e := DayOf(series, Day(rs[k]) - FirstDay(rs));
    OrdinalInjective(e, d);
  }

  /** Every record is counted: the series has its date, with a count of at least one. */
  lemma LogsPerDayCovers(rs: seq<Record>)
    requires rs != []
    ensures var series := LogsPerDay(rs);
      forall k :: 0 <= k < |rs| ==>
        exists i :: 0 <= i < |series.counts| && DayOf(series, i) == rs[k].timestamp.date && series.counts[i] >= 1
  {
    hide *;
    var series := LogsPerDay(rs);
    forall k | 0 <= k < |rs|
      ensures exists i :: 0 <= i < |series.counts| && DayOf(series, i) == rs[k].timestamp.date && series.counts[i] >= 1
    {
      RecordCounted(rs, k);
      var i := Day(rs[k]) - FirstDay(rs);
      assert DayOf(series, i) == rs[k].timestamp.date && series.counts[i] >= 1;
    }
  }

  /** The first and the last day of the series each have at least one record. */
  lemma LogsPerDayEnds(rs: seq<Record>)
    requires rs != []
    ensures var series := LogsPerDay(rs);
      series.counts[0] >= 1 && series.counts[|series.counts| - 1] >= 1
  {
    hide *;
    var ds := Days(rs);
    LogsPerDayDays(rs);
    var j :| 0 <= j < |ds| && ds[j] == MinOf(ds);
    SpanCountsCovers(ds, j);
    var l :| 0 <= l < |ds| && ds[l] == MaxOf(ds);
    SpanCountsCovers(ds, l);
  }

  /** Every record falls in exactly one day of the series: the entries add up to the number of records. */
  lemma LogsPerDaySum(rs: seq<Record>)
    requires rs != []
    ensures Sum(LogsPerDay(rs).counts) == |rs|
  {
    LogsPerDayDays(rs);
    SpanCountsSum(Days(rs));
  }

  /** Records that all fall on one day give a one-entry series on that day, holding the number of records. */
  lemma LogsPerDaySingleDay(rs: seq<Record>)
    requires rs != []
    requires forall k :: 0 <= k < |rs| ==> rs[k].timestamp.date == rs[0].timestamp.date
    ensures LogsPerDay(rs) == DailySeries(rs[0].timestamp.date, [|rs|])
  {
    var series := LogsPerDay(rs);
    var d := rs[0].timestamp.date;
    assert ValidDate(series.start) && ValidDate(d);
    assert forall k :: 0 <= k < |rs| ==> Day(rs[k]) == Day(rs[0]);
    LogsPerDaySum(rs);
    SumSingle(series.counts);
    hide *;
    var j :| 0 <= j < |rs| && Day(rs[j]) == FirstDay(rs);
    var l :| 0 <= l < |rs| && Day(rs[l]) == LastDay(rs);
    assert |series.counts| == 1;
    assert series.counts == [|rs|];
    OrdinalInjective(series.start, d);
  }
}
