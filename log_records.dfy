/**
 * Loading log lines into records.  A line is stripped of surrounding
 * whitespace and split on " - " into the four fields Timestamp, Log_Level,
 * Action and User; the timestamp text is stripped again and parsed; a line
 * whose timestamp does not parse is dropped.  Level, action and user are kept
 * as the split leaves them, with no check against any vocabulary, except that
 * the texts read_csv treats as missing by default become missing values.
 */
module LogRecords {
  import opened Wrappers
  import opened Text
  import opened Timestamps

  /** A row of the loaded frame; None is a missing value (NaN). */
  datatype Record = Record(timestamp: Instant, level: Option<string>, action: Option<string>, user: Option<string>)

  /** The field texts read_csv reads as missing values by default (its na_values list). */
  const NaMarkers: set<string> := {
    "", "#N/A", "#N/A N/A", "#NA", "-1.#IND", "-1.#QNAN", "-NaN", "-nan", "1.#IND", "1.#QNAN",
    "<NA>", "N/A", "NA", "NULL", "NaN", "None", "n/a", "nan", "null"}

  /** The value a field's text gives: missing for a marker, the text itself otherwise. */
  function Cell(text: string): (v: Option<string>)
    ensures v.None? <==> text in NaMarkers
    ensures v.Some? ==> v.value == text
  {
    if text in NaMarkers then None else Some(text)
  }

  /**
   * The record four fields make, if any: None unless there are exactly four
   * fields and the first, stripped, parses as a timestamp.
   */
  function RecordOf(fields: seq<string>): (r: Option<Record>)
    ensures r.Some? <==> |fields| == 4 && ParseTimestamp(Strip(fields[0])).Some?
    ensures r.Some? ==> r.value.level == Cell(fields[1]) && r.value.action == Cell(fields[2]) && r.value.user == Cell(fields[3])
    ensures r.Some? ==> ParseTimestamp(Strip(fields[0])) == Some(r.value.timestamp)
  {
    hide *;
    if |fields| != 4 then None
    else
      match ParseTimestamp(Strip(fields[0]))
      case None => None
      case Some(t) => Some(Record(t, Cell(fields[1]), Cell(fields[2]), Cell(fields[3])))
  }

  /**
   * The record a line yields, if any: the line is stripped before it is split
   * (as read_csv does when its separator is longer than one character); None
   * when it does not split into exactly four fields or its stripped timestamp
   * field does not parse.  LineParses and ParsedLineShape say which lines
   * these are.
   */
  function ParseLine(line: string): (r: Option<Record>)
    ensures var fields := Split(Strip(line));
      r.Some? <==> |fields| == 4 && ParseTimestamp(Strip(fields[0])).Some?
    ensures var fields := Split(Strip(line));
      r.Some? ==> ParseTimestamp(Strip(fields[0])) == Some(r.value.timestamp)
    ensures var fields := Split(Strip(line));
      r.Some? ==> r.value.level == Cell(fields[1]) && r.value.action == Cell(fields[2]) && r.value.user == Cell(fields[3])
  {
    RecordOf(Split(Strip(line)))
  }

  /**
   * Level, action and user texts that come back as the last three fields of
   * a line: none holds the separator, the level and the action do not end in
   * " -", and the user does not end in whitespace.
   */
  predicate PlainFields(level: string, action: string, user: string) {
    && SepFree(level) && SepFree(action) && SepFree(user)
    && !EndsWithSpaceDash(level) && !EndsWithSpaceDash(action)
    && user != [] && !IsSpace(user[|user| - 1])
  }

  /**
   * line is a log line: blanks, a timestamp written with k >= 1 spaces and
   * followed by blanks, then level, action and user, separated by " - ",
   * then blanks.
   */
  predicate InLogFormat(line: string, pre: string, t: DateTime, k: nat, pad: string,
                        level: string, action: string, user: string, post: string) {
    && AllSpace(pre) && AllSpace(pad) && AllSpace(post) && ValidDateTime(t) && k >= 1
    && PlainFields(level, action, user)
    && line == pre + Join([FormatWith(t, k) + pad, level, action, user]) + post
  }

  /** Every line in the log format yields the record of its timestamp and its three field values. */
  lemma LineParses(pre: string, t: DateTime, k: nat, pad: string, level: string, action: string, user: string, post: string)
    requires AllSpace(pre) && AllSpace(pad) && AllSpace(post) && ValidDateTime(t) && k >= 1
    requires PlainFields(level, action, user)
    ensures ParseLine(pre + Join([FormatWith(t, k) + pad, level, action, user]) + post)
      == Some(Record(t, Cell(level), Cell(action), Cell(user)))
  {
    var ts := FormatWith(t, k);
    var body := Join([ts + pad, level, action, user]);
    var line := pre + body + post;
    assert ts != [] && Trimmed(ts) && SepFree(ts) && !EndsWithSpaceDash(ts);
    assert ParseLine(line) == RecordOf(Split(Strip(line)));
    hide *;
    BodySplits(ts, pad, level, action, user);
    StripPadded(pre, body, post);
    StampRecord(t, k, pad, level, action, user);
  }

  /** The four fields of a line whose timestamp field is padded come back from the split, and the joined line has no whitespace at its ends. */
  lemma BodySplits(ts: string, pad: string, level: string, action: string, user: string)
    requires ts != [] && Trimmed(ts) && SepFree(ts) && !EndsWithSpaceDash(ts) && AllSpace(pad)
    requires PlainFields(level, action, user)
    ensures Trimmed(Join([ts + pad, level, action, user]))
    ensures Split(Join([ts + pad, level, action, user])) == [ts + pad, level, action, user]
  {
    var f0 := ts + pad;
    var fields := [f0, level, action, user];
    Join4(f0, level, action, user);
    var body := Join(fields);
    assert body[0] == ts[0] && body[|body| - 1] == user[|user| - 1];
    PaddedField(ts, pad);
    assert fields[0] == f0 && fields[1] == level && fields[2] == action && fields[3] == user;
    assert Splittable(fields);
    SplitJoin(fields);
  }

  /** The record the four fields of a line in the log format give. */
  lemma StampRecord(t: DateTime, k: nat, pad: string, level: string, action: string, user: string)
    requires ValidDateTime(t) && k >= 1 && AllSpace(pad)
    ensures RecordOf([FormatWith(t, k) + pad, level, action, user]) == Some(Record(t, Cell(level), Cell(action), Cell(user)))
  {
    hide *;
    var ts := FormatWith(t, k);
    StripPadded([], ts, pad);
    assert [] + ts + pad == ts + pad;
    ParseFormatWith(t, k);
    var fields := [ts + pad, level, action, user];
    assert |fields| == 4 && fields[0] == ts + pad && fields[1] == level && fields[2] == action && fields[3] == user;
    var r := RecordOf(fields);
    assert r.Some? && r.value.timestamp == t;
  }

  /** Every line that yields a record is in the log format, with the record's timestamp and field values. */
  lemma ParsedLineShape(line: string) returns (pre: string, k: nat, pad: string, level: string, action: string, user: string, post: string)
    requires ParseLine(line).Some?
    ensures var r := ParseLine(line).value;
      && InLogFormat(line, pre, r.timestamp, k, pad, level, action, user, post)
      && r.level == Cell(level) && r.action == Cell(action) && r.user == Cell(user)
  {
    hide *;
    var r := ParseLine(line).value;
    ParsedFields(line);
    var s := Strip(line);
    var fields := Split(s);
    var f0 := fields[0];
    var ts := Strip(f0);
    level, action, user := fields[1], fields[2], fields[3];
    var lead, trail := StripParts(line);
    var gap, pad' := StripParts(f0);
    k, pad := |ts| - 18, pad';
    SplittableFour(fields);
    FourFields(fields);
    assert Trimmed(Join([f0, level, action, user]));
    LastField(f0, level, action, user);
    PaddedJoin(gap, ts + pad, level, action, user);
    assert f0 == gap + (ts + pad);
    pre, post := lead + gap, trail;
    AllSpaceConcat(lead, gap);
    assert line == pre + Join([ts + pad, level, action, user]) + post;
    LogFormatIntro(line, pre, r.timestamp, k, pad, level, action, user, post);
  }

  /** Introduces InLogFormat from its conjuncts, for proofs that hide its definition. */
  lemma LogFormatIntro(line: string, pre: string, t: DateTime, k: nat, pad: string,
                       level: string, action: string, user: string, post: string)
    requires AllSpace(pre) && AllSpace(pad) && AllSpace(post) && ValidDateTime(t) && k >= 1
    requires SepFree(level) && SepFree(action) && SepFree(user)
    requires !EndsWithSpaceDash(level) && !EndsWithSpaceDash(action)
    requires user != [] && !IsSpace(user[|user| - 1])
    requires line == pre + Join([FormatWith(t, k) + pad, level, action, user]) + post
    ensures InLogFormat(line, pre, t, k, pad, level, action, user, post)
  {
  }

  /** Unfolds Splittable for four fields, for proofs that hide its definition. */
  lemma SplittableFour(fields: seq<string>)
    requires |fields| == 4 && Splittable(fields)
    ensures SepFree(fields[1]) && SepFree(fields[2]) && SepFree(fields[3])
    ensures !EndsWithSpaceDash(fields[1]) && !EndsWithSpaceDash(fields[2])
  {
  }

  /** What the parse of a line that yields a record establishes about its fields. */
  lemma ParsedFields(line: string)
    requires ParseLine(line).Some?
    ensures var r := ParseLine(line).value;
      var fields := Split(Strip(line));
      && |fields| == 4 && Splittable(fields) && Join(fields) == Strip(line) && Trimmed(Strip(line))
      && |Strip(fields[0])| >= 19 && Strip(fields[0]) == FormatWith(r.timestamp, |Strip(fields[0])| - 18)
      && r.level == Cell(fields[1]) && r.action == Cell(fields[2]) && r.user == Cell(fields[3])
  {
    hide *;
    var r := ParseLine(line).value;
    var fields := Split(Strip(line));
    var ts := Strip(fields[0]);
    assert ParseTimestamp(ts) == Some(r.timestamp);
  }

  /** A four-field sequence is the display of its four fields; stated once so that proofs need not rebuild it. */
  lemma FourFields(fields: seq<string>)
    requires |fields| == 4
    ensures fields == [fields[0], fields[1], fields[2], fields[3]]
  {
  }

  /** The last of four joined fields is not empty and does not end in whitespace, when the joined line does not. */
  lemma LastField(a: string, b: string, c: string, d: string)
    requires Trimmed(Join([a, b, c, d]))
    ensures d != [] && !IsSpace(d[|d| - 1])
  {
    var s := Join([a, b, c, d]);
    Join4(a, b, c, d);
    assert s[|s| - 1] == (if d == [] then ' ' else d[|d| - 1]);
  }

  /** Whitespace in front of the first field is whitespace in front of the line. */
  lemma PaddedJoin(gap: string, a: string, b: string, c: string, d: string)
    ensures Join([gap + a, b, c, d]) == gap + Join([a, b, c, d])
  {
    Join4(gap + a, b, c, d);
    Join4(a, b, c, d);
  }

  /**
   * A line yields record r exactly when it is in the log format with r's
   * timestamp and with field texts that give r's level, action and user.
   */
  lemma ParseLineExactly(line: string, r: Record)
    ensures ParseLine(line) == Some(r) <==>
      exists pre, k, pad, level, action, user, post ::
        && InLogFormat(line, pre, r.timestamp, k, pad, level, action, user, post)
        && r.level == Cell(level) && r.action == Cell(action) && r.user == Cell(user)
  {
    hide ParseLine, RecordOf, Strip, Split, Join, FormatWith, ParseTimestamp, Cell;
    if ParseLine(line) == Some(r) {
      var pre, k, pad, level, action, user, post := ParsedLineShape(line);
      assert InLogFormat(line, pre, r.timestamp, k, pad, level, action, user, post);
    }
    if exists pre, k, pad, level, action, user, post ::
        && InLogFormat(line, pre, r.timestamp, k, pad, level, action, user, post)
        && r.level == Cell(level) && r.action == Cell(action) && r.user == Cell(user) {
      var pre, k, pad, level, action, user, post :|
        && InLogFormat(line, pre, r.timestamp, k, pad, level, action, user, post)
        && r.level == Cell(level) && r.action == Cell(action) && r.user == Cell(user);
      LineParses(pre, r.timestamp, k, pad, level, action, user, post);
    }
  }

  /** The values f gives the elements of xs, in order, skipping the elements it maps to None. */
  function FilterMap<A, B>(f: A -> Option<B>, xs: seq<A>): (ys: seq<B>)
    ensures |ys| <= |xs|
  {
    if xs == [] then []
    else
      var kept := match f(xs[|xs| - 1]) case Some(y) => [y] case None => [];
      FilterMap(f, xs[..|xs| - 1]) + kept
  }

  /** Number of elements of xs that f maps to None. */
  function CountNone<A, B>(f: A -> Option<B>, xs: seq<A>): nat {
    if xs == [] then 0
    else CountNone(f, xs[..|xs| - 1]) + (if f(xs[|xs| - 1]).None? then 1 else 0)
  }

  lemma {:induction false} FilterMapAppend<A, B>(f: A -> Option<B>, a: seq<A>, b: seq<A>)
    ensures FilterMap(f, a + b) == FilterMap(f, a) + FilterMap(f, b)
    decreases |b|
  {
    if b == [] {
      assert a + b == a;
    } else {
      var b' := b[..|b| - 1];
      assert (a + b)[..|a + b| - 1] == a + b';
      FilterMapAppend(f, a, b');
    }
  }

  lemma FilterMapSingle<A, B>(f: A -> Option<B>, x: A)
    ensures FilterMap(f, [x]) == match f(x) case Some(y) => [y] case None => []
  {
    assert [x][..0] == [];
  }

  /** A value is in the result exactly when f gives it some element. */
  lemma FilterMapMembers<A, B>(f: A -> Option<B>, xs: seq<A>)
    ensures forall y :: y in FilterMap(f, xs) <==> exists i :: 0 <= i < |xs| && f(xs[i]) == Some(y)
  {
    forall y ensures y in FilterMap(f, xs) <==> exists i :: 0 <= i < |xs| && f(xs[i]) == Some(y) {
      if y in FilterMap(f, xs) {
        var i := FilterMapSource(f, xs, y);
      }
      forall i | 0 <= i < |xs| && f(xs[i]) == Some(y) ensures y in FilterMap(f, xs) {
        FilterMapKeeps(f, xs, i, y);
      }
    }
  }

  /** A value in the result comes from some element. */
  lemma {:induction false} FilterMapSource<A, B>(f: A -> Option<B>, xs: seq<A>, y: B) returns (i: nat)
    requires y in FilterMap(f, xs)
    ensures i < |xs| && f(xs[i]) == Some(y)
  {
    var p := xs[..|xs| - 1];
    FilterMapLast(f, xs);
    if f(xs[|xs| - 1]) == Some(y) {
      i := |xs| - 1;
    } else {
      i := FilterMapSource(f, p, y);
      assert xs[i] == p[i];
    }
  }

  /** The value f gives an element is in the result. */
  lemma {:induction false} FilterMapKeeps<A, B>(f: A -> Option<B>, xs: seq<A>, i: nat, y: B)
    requires i < |xs| && f(xs[i]) == Some(y)
    ensures y in FilterMap(f, xs)
  {
    var p := xs[..|xs| - 1];
    FilterMapLast(f, xs);
    if i < |xs| - 1 {
      assert p[i] == xs[i];
      FilterMapKeeps(f, p, i, y);
    }
  }

  /** The last element contributes its value, if any, after those of the others. */
  lemma FilterMapLast<A, B>(f: A -> Option<B>, xs: seq<A>)
    requires xs != []
    ensures f(xs[|xs| - 1]).Some? ==> FilterMap(f, xs) == FilterMap(f, xs[..|xs| - 1]) + [f(xs[|xs| - 1]).value]
    ensures f(xs[|xs| - 1]).None? ==> FilterMap(f, xs) == FilterMap(f, xs[..|xs| - 1])
  {
  }

  lemma {:induction false} FilterMapCount<A, B>(f: A -> Option<B>, xs: seq<A>)
    ensures |FilterMap(f, xs)| + CountNone(f, xs) == |xs|
  {
    if xs != [] {
      FilterMapCount(f, xs[..|xs| - 1]);
    }
  }

  /** Nothing is dropped when f gives every element a value. */
  lemma {:induction false} CountNoneAllSome<A, B>(f: A -> Option<B>, xs: seq<A>)
    requires forall i :: 0 <= i < |xs| ==> f(xs[i]).Some?
    ensures CountNone(f, xs) == 0
  {
    if xs != [] {
      var p := xs[..|xs| - 1];
      assert forall i :: 0 <= i < |p| ==> p[i] == xs[i];
      CountNoneAllSome(f, p);
    }
  }

  lemma {:induction false} FilterMapEmpty<A, B>(f: A -> Option<B>, xs: seq<A>)
    ensures FilterMap(f, xs) == [] <==> forall i :: 0 <= i < |xs| ==> f(xs[i]).None?
  {
    if xs != [] {
      var p := xs[..|xs| - 1];
      FilterMapEmpty(f, p);
      assert forall i :: 0 <= i < |p| ==> p[i] == xs[i];
    }
  }

  /**
   * The record set built from lines: the surviving records, in input order.
   * A record is in it exactly when some line yields it.
   */
  function ParseAll(lines: seq<string>): (df: seq<Record>)
    ensures |df| <= |lines|
    ensures forall rec :: rec in df <==> exists i :: 0 <= i < |lines| && ParseLine(lines[i]) == Some(rec)
  {
    FilterMapMembers(ParseLine, lines);
    FilterMap(ParseLine, lines)
  }

  /**
   * Loads the records from the lines of a log file, one line at a time,
   * appending each line's record when its timestamp parses and dropping the
   * line otherwise.  An input where no line survives gives the empty record set.
   */
  method LoadAndProcess(lines: seq<string>) returns (df: seq<Record>)
    ensures df == ParseAll(lines)
  {
    df := [];
    for i := 0 to |lines|
      invariant df == ParseAll(lines[..i])
    {
      ParseAllStep(lines, i);
      hide *;
      var fields := Split(Strip(lines[i]));
      if |fields| == 4 {
        var stamp := Strip(fields[0]);
        var t := ParseTimestamp(stamp);
        if t.Some? {
          var rec := Record(t.value, Cell(fields[1]), Cell(fields[2]), Cell(fields[3]));
          assert ParseLine(lines[i]).value == rec;
          df := df + [rec];
        } else {
          assert ParseLine(lines[i]).None?;
        }
      } else {
        assert ParseLine(lines[i]).None?;
      }
    }
    assert lines[..|lines|] == lines;
  }

  /** Taking one more line appends that line's record, if it yields one. */
  lemma ParseAllStep(lines: seq<string>, i: nat)
    requires i < |lines|
    ensures ParseLine(lines[i]).Some? ==> ParseAll(lines[..i + 1]) == ParseAll(lines[..i]) + [ParseLine(lines[i]).value]
    ensures ParseLine(lines[i]).None? ==> ParseAll(lines[..i + 1]) == ParseAll(lines[..i])
  {
    assert lines[..i + 1][..i] == lines[..i];
  }

  /** The line the log generator writes: the timestamp, level, action and user joined by " - ". */
  function LogLine(t: DateTime, level: string, action: string, user: string): string
    requires ValidDateTime(t)
  {
    Join([Format(t), level, action, user])
  }

  /**
   * Every line the generator writes is accepted and yields exactly its own
   * timestamp, level, action and user, whatever the words are, provided no
   * word holds the separator or is a missing-value marker.
   */
  lemma LogLineParses(t: DateTime, level: string, action: string, user: string)
    requires ValidDateTime(t) && PlainFields(level, action, user)
    requires level !in NaMarkers && action !in NaMarkers && user !in NaMarkers
    ensures ParseLine(LogLine(t, level, action, user)) == Some(Record(t, Some(level), Some(action), Some(user)))
  {
    assert FormatWith(t, 2) + [] == Format(t);
    assert [] + LogLine(t, level, action, user) + [] == LogLine(t, level, action, user);
    LineParses([], t, 2, [], level, action, user, []);
  }

  /**
   * Each line contributes its own record, or nothing, at its own place:
   * surviving rows keep their input order and equal records are all kept.
   */
  lemma ParseAllAppend(a: seq<string>, line: string, b: seq<string>)
    ensures ParseAll(a + [line] + b) ==
      ParseAll(a) + (match ParseLine(line) case Some(r) => [r] case None => []) + ParseAll(b)
  {
    FilterMapAppend(ParseLine, a + [line], b);
    FilterMapAppend(ParseLine, a, [line]);
    FilterMapSingle(ParseLine, line);
  }

  /** Number of lines that yield no record. */
  function Dropped(lines: seq<string>): nat {
    CountNone(ParseLine, lines)
  }

  /** Every line either yields one record or is dropped: records plus dropped lines make up the input. */
  lemma ParseAllCount(lines: seq<string>)
    ensures |ParseAll(lines)| + Dropped(lines) == |lines|
  {
    FilterMapCount(ParseLine, lines);
  }

  /** No record survives exactly when every line is dropped; an empty input gives an empty record set. */
  lemma ParseAllEmpty(lines: seq<string>)
    ensures ParseAll(lines) == [] <==> forall i :: 0 <= i < |lines| ==> ParseLine(lines[i]).None?
  {
    FilterMapEmpty(ParseLine, lines);
  }
}
