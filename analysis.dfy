/**
 * The analysis of a loaded record set: level and action counts, the total,
 * the number of distinct users, and the average and the maximum of the logs
 * per day.  A missing or empty record set has no statistics.  Counting values
 * and counting distinct users skip missing values; the total and the logs per
 * day count every record.
 */
module Analysis {
  import opened Wrappers
  import opened Calendar
  import opened LogRecords
  import opened Counting
  import opened Daily
  import opened Averages

  function Levels(rs: seq<Record>): (col: seq<Option<string>>)
    ensures |col| == |rs| && forall i :: 0 <= i < |rs| ==> col[i] == rs[i].level
  {
    seq(|rs|, i requires 0 <= i < |rs| => rs[i].level)
  }

  function Actions(rs: seq<Record>): (col: seq<Option<string>>)
    ensures |col| == |rs| && forall i :: 0 <= i < |rs| ==> col[i] == rs[i].action
  {
    seq(|rs|, i requires 0 <= i < |rs| => rs[i].action)
  }

  function Users(rs: seq<Record>): (col: seq<Option<string>>)
    ensures |col| == |rs| && forall i :: 0 <= i < |rs| ==> col[i] == rs[i].user
  {
    seq(|rs|, i requires 0 <= i < |rs| => rs[i].user)
  }

  /** A cell as it stands: its value, or None when it is missing. */
  function AsIs(cell: Option<string>): Option<string> {
    cell
  }

  /** Number of missing values in a column. */
  function Missing(col: seq<Option<string>>): nat {
    CountNone(AsIs, col)
  }

  /**
   * The values present in a column, in order, as value_counts and nunique
   * see it: a value is there exactly when some cell holds it, and the present
   * and the missing values together make up the column.
   */
  function Present(col: seq<Option<string>>): (vs: seq<string>)
    ensures |vs| + Missing(col) == |col|
    ensures forall v :: v in vs <==> exists i :: 0 <= i < |col| && col[i] == Some(v)
  {
    FilterMapCount(AsIs, col);
    FilterMapMembers(AsIs, col);
    FilterMap(AsIs, col)
  }

  /** Each value occurs among the present values of a column as often as cells of the column hold it. */
  lemma {:induction false} PresentCount(col: seq<Option<string>>, v: string)
    ensures multiset(Present(col))[v] == Occurrences(col, Some(v))
  {
    if col != [] {
      var p := col[..|col| - 1];
      FilterMapLast(AsIs, col);
      PresentCount(p, v);
    }
  }

  /** A column without missing values has nothing missing. */
  lemma NoneMissing(col: seq<Option<string>>)
    requires forall i :: 0 <= i < |col| ==> col[i].Some?
    ensures Missing(col) == 0
  {
    CountNoneAllSome(AsIs, col);
  }

  /** The statistics of a non-empty record set. */
  datatype Summary = Summary(
    levelCounts: seq<(string, nat)>,
    actionCounts: seq<(string, nat)>,
    total: nat,
    uniqueUsers: nat,
    average: real,
    maximum: nat)

  /** The outcome of the analysis: no data, or the statistics. */
  datatype Outcome = NoData | Stats(summary: Summary)

  /**
   * Analyses a record set, None standing for a load that failed.  There are
   * statistics exactly when there is at least one record; the total is the
   * number of records; the average and the maximum are taken over the daily
   * series of the records, which is not itself part of the statistics.
   */
  function Analyze(df: Option<seq<Record>>): (a: Outcome)
    ensures a.NoData? <==> df.None? || df.value == []
    ensures a.Stats? ==> a.summary.total == |df.value|
  {
    if df.None? || df.value == [] then NoData
    else
      var rs := df.value;
      var series := LogsPerDay(rs);
      Stats(Summary(ValueCounts(Present(Levels(rs))), ValueCounts(Present(Actions(rs))), |rs|,
                    |Distinct(Present(Users(rs)))|, Mean(series.counts), MaxOf(series.counts)))
  }

  /** The statistics of a non-empty record set, field by field; it only unfolds Analyze, for proofs that hide it. */
  lemma AnalyzeFields(rs: seq<Record>)
    requires rs != []
    ensures Analyze(Some(rs)).Stats?
    ensures var s := Analyze(Some(rs)).summary;
      && s.levelCounts == ValueCounts(Present(Levels(rs))) && s.actionCounts == ValueCounts(Present(Actions(rs)))
      && s.total == |rs| && s.uniqueUsers == |Distinct(Present(Users(rs)))|
      && s.average == Mean(LogsPerDay(rs).counts) && s.maximum == MaxOf(LogsPerDay(rs).counts)
  {
  }

  /** Value counts of a column: each value observed in the column once, with its number of occurrences, most frequent first. */
  ghost predicate CountsColumn(t: seq<(string, nat)>, col: seq<string>) {
    && (forall p :: p in t ==> p.1 == multiset(col)[p.0] && p.1 >= 1)
    && (forall v :: v in Keys(t) <==> v in col)
    && NoDup(Keys(t)) && Descending(t)
    && Sum(Counts(t)) == |col|
  }

  /** Unfolds CountsColumn for ValueCounts, whose own ensures give each conjunct. */
  lemma ValueCountsColumn(col: seq<string>)
    ensures CountsColumn(ValueCounts(col), col)
  {
  }

  /**
   * The value counts of the present values of a column: they describe the
   * present values, and with the missing values they add up to the column.
   */
  lemma ColumnCounts(col: seq<Option<string>>)
    ensures CountsColumn(ValueCounts(Present(col)), Present(col))
    ensures Sum(Counts(ValueCounts(Present(col)))) + Missing(col) == |col|
  {
    ValueCountsColumn(Present(col));
  }

  /** Each value-count pair of the present values counts the cells of the column that hold the value. */
  lemma ColumnOccurrences(col: seq<Option<string>>)
    ensures forall p :: p in ValueCounts(Present(col)) ==> p.1 == Occurrences(col, Some(p.0))
  {
    ValueCountsColumn(Present(col));
    forall p | p in ValueCounts(Present(col)) ensures p.1 == Occurrences(col, Some(p.0)) {
      PresentCount(col, p.0);
    }
  }

  /**
   * Level counts: every level present in the records once, with the number
   * of records carrying it, most frequent first.  The counts and the number
   * of records without a level add up to the total, so the counts add up to
   * the total when no level is missing.
   */
  lemma AnalyzeLevels(rs: seq<Record>)
    requires rs != []
    ensures var s := Analyze(Some(rs)).summary;
      var levels := Present(Levels(rs));
      && CountsColumn(s.levelCounts, levels)
      && (forall p :: p in s.levelCounts ==> p.1 == Occurrences(Levels(rs), Some(p.0)))
      && (forall v :: v in levels <==> exists k :: 0 <= k < |rs| && rs[k].level == Some(v))
      && Sum(Counts(s.levelCounts)) + Missing(Levels(rs)) == s.total
      && ((forall k :: 0 <= k < |rs| ==> rs[k].level.Some?) ==> Sum(Counts(s.levelCounts)) == s.total)
  {
    hide *;
    AnalyzeFields(rs);
    ColumnCounts(Levels(rs));
    ColumnOccurrences(Levels(rs));
    LevelsPresent(rs);
    if forall k :: 0 <= k < |rs| ==> rs[k].level.Some? {
      LevelsComplete(rs);
    }
  }

  lemma LevelsPresent(rs: seq<Record>)
    ensures |Levels(rs)| == |rs|
    ensures forall v :: v in Present(Levels(rs)) <==> exists k :: 0 <= k < |rs| && rs[k].level == Some(v)
  {
    var col := Levels(rs);
    assert forall k :: 0 <= k < |rs| ==> col[k] == rs[k].level;
    hide *;
    forall v ensures v in Present(col) <==> exists k :: 0 <= k < |rs| && rs[k].level == Some(v) {
      if v in Present(col) {
        var i :| 0 <= i < |col| && col[i] == Some(v);
        assert rs[i].level == Some(v);
      }
    }
  }

  lemma LevelsComplete(rs: seq<Record>)
    requires forall k :: 0 <= k < |rs| ==> rs[k].level.Some?
    ensures Missing(Levels(rs)) == 0
  {
    NoneMissing(Levels(rs));
  }

  /**
   * Action counts: every action present in the records once, with the
   * number of records carrying it, most frequent first.  The counts and the
   * number of records without an action add up to the total.
   */
  lemma AnalyzeActions(rs: seq<Record>)
    requires rs != []
    ensures var s := Analyze(Some(rs)).summary;
      var actions := Present(Actions(rs));
      && CountsColumn(s.actionCounts, actions)
      && (forall p :: p in s.actionCounts ==> p.1 == Occurrences(Actions(rs), Some(p.0)))
      && (forall v :: v in actions <==> exists k :: 0 <= k < |rs| && rs[k].action == Some(v))
      && Sum(Counts(s.actionCounts)) + Missing(Actions(rs)) == s.total
      && ((forall k :: 0 <= k < |rs| ==> rs[k].action.Some?) ==> Sum(Counts(s.actionCounts)) == s.total)
  {
    hide *;
    AnalyzeFields(rs);
    ColumnCounts(Actions(rs));
    ColumnOccurrences(Actions(rs));
    ActionsPresent(rs);
    if forall k :: 0 <= k < |rs| ==> rs[k].action.Some? {
      ActionsComplete(rs);
    }
  }

  lemma ActionsPresent(rs: seq<Record>)
    ensures |Actions(rs)| == |rs|
    ensures forall v :: v in Present(Actions(rs)) <==> exists k :: 0 <= k < |rs| && rs[k].action == Some(v)
  {
    var col := Actions(rs);
    assert forall k :: 0 <= k < |rs| ==> col[k] == rs[k].action;
    hide *;
    forall v ensures v in Present(col) <==> exists k :: 0 <= k < |rs| && rs[k].action == Some(v) {
      if v in Present(col) {
        var i :| 0 <= i < |col| && col[i] == Some(v);
        assert rs[i].action == Some(v);
      }
    }
  }

  lemma ActionsComplete(rs: seq<Record>)
    requires forall k :: 0 <= k < |rs| ==> rs[k].action.Some?
    ensures Missing(Actions(rs)) == 0
  {
    NoneMissing(Actions(rs));
  }

  /** The number of unique users is the number of distinct user names present, at most the total. */
  lemma AnalyzeUsers(rs: seq<Record>)
    requires rs != []
    ensures var s := Analyze(Some(rs)).summary;
      s.uniqueUsers == |set r | r in rs && r.user.Some? :: r.user.value| <= s.total
  {
    hide *;
    AnalyzeFields(rs);
    var users := Present(Users(rs));
    DistinctCount(users);
    UserNames(rs);
  }

  /** The users present are the user names of the records, and there are at most as many as records. */
  lemma UserNames(rs: seq<Record>)
    ensures |Present(Users(rs))| <= |rs|
    ensures (set u | u in Present(Users(rs))) == (set r | r in rs && r.user.Some? :: r.user.value)
  {
    var col := Users(rs);
    var users := Present(col);
    assert |col| == |rs| && forall k :: 0 <= k < |rs| ==> col[k] == rs[k].user;
    hide *;
    forall u | u in users ensures u in set r | r in rs && r.user.Some? :: r.user.value {
      var k :| 0 <= k < |col| && col[k] == Some(u);
      assert rs[k] in rs && rs[k].user == Some(u);
    }
    forall r | r in rs && r.user.Some? ensures r.user.value in users {
      var k :| 0 <= k < |rs| && rs[k] == r;
      assert col[k] == Some(r.user.value);
    }
  }

  /**
   * The logs per day: the daily counts add up to the total, and the maximum
   * is the largest daily count, at least one.
   */
  lemma AnalyzeDaily(rs: seq<Record>)
    requires rs != []
    ensures var s := Analyze(Some(rs)).summary;
      var days := LogsPerDay(rs).counts;
      && Sum(days) == s.total
      && s.maximum in days && (forall i :: 0 <= i < |days| ==> days[i] <= s.maximum)
      && 1 <= s.maximum
  {
    var days := LogsPerDay(rs).counts;
    assert Analyze(Some(rs)).summary.maximum == MaxOf(days);
    LogsPerDaySum(rs);
    LogsPerDayEnds(rs);
  }

  /** The average is the total over the number of days, and at most the maximum. */
  lemma AnalyzeAverage(rs: seq<Record>)
    requires rs != []
    ensures var s := Analyze(Some(rs)).summary;
      var days := LogsPerDay(rs).counts;
      IsAverage(s.average, s.total, |days|) && s.average <= s.maximum as real
  {
    var days := LogsPerDay(rs).counts;
    AnalyzeFields(rs);
    LogsPerDaySum(rs);
  }

  /** Records that all fall on one day give a single-entry series: the average and the maximum are the total. */
  lemma AnalyzeSingleDay(rs: seq<Record>)
    requires rs != []
    requires forall k :: 0 <= k < |rs| ==> rs[k].timestamp.date == rs[0].timestamp.date
    ensures var s := Analyze(Some(rs)).summary;
      && LogsPerDay(rs) == DailySeries(rs[0].timestamp.date, [|rs|])
      && s.average == |rs| as real && s.maximum == |rs|
  {
    AnalyzeFields(rs);
    LogsPerDaySingleDay(rs);
    MeanSingle(|rs|);
  }

  /** Loading then analysing: there are statistics exactly when some line of the log yields a record. */
  lemma AnalyzeLoaded(lines: seq<string>)
    ensures Analyze(Some(ParseAll(lines))).Stats? <==> exists i :: 0 <= i < |lines| && ParseLine(lines[i]).Some?
  {
    ParseAllEmpty(lines);
  }
}
