/**
 * Timestamps of the log format: "YYYY-MM-DD", one or more spaces, "HH:MM:SS"
 * (full-date and partial-time of RFC 3339, section 5.6, with a run of spaces
 * as the separator).  Timestamps are naive: they carry no time zone, and a
 * record's calendar day is the literal date written in it.
 */
module Timestamps {
  import opened Wrappers
  import opened Calendar
  import opened Text

  datatype DateTime = DateTime(date: Date, hour: int, minute: int, second: int)

  /** In range per section 5.7 of RFC 3339, without the leap second 60. */
  predicate ValidDateTime(t: DateTime) {
    ValidDate(t.date) && 0 <= t.hour < 24 && 0 <= t.minute < 60 && 0 <= t.second < 60
  }

  /** A successfully parsed timestamp. */
  type Instant = t: DateTime | ValidDateTime(t) witness DateTime(Date(1970, 1, 1), 0, 0, 0)

  function Spaces(k: nat): (s: string)
    ensures |s| == k && forall i :: 0 <= i < k ==> s[i] == ' '
  {
    seq(k, _ => ' ')
  }

  function DatePart(t: DateTime): (s: string)
    requires ValidDateTime(t)
    ensures |s| == 10
  {
    Decimal(t.date.year, 4) + "-" + Decimal(t.date.month, 2) + "-" + Decimal(t.date.day, 2)
  }

  function TimePart(t: DateTime): (s: string)
    requires ValidDateTime(t)
    ensures |s| == 8
  {
    Decimal(t.hour, 2) + ":" + Decimal(t.minute, 2) + ":" + Decimal(t.second, 2)
  }

  /**
   * The timestamp written with k spaces between the date and the time.  It
   * has no whitespace at its ends, does not contain the field separator and
   * does not end in " -", so it is found again as the first field of a line.
   */
  function FormatWith(t: DateTime, k: nat): (s: string)
    requires ValidDateTime(t)
    ensures |s| == 18 + k
    ensures Trimmed(s) && SepFree(s) && !EndsWithSpaceDash(s)
  {
    var s := DatePart(t) + Spaces(k) + TimePart(t);
    StampIsField(t, k, s);
    s
  }

  /** The date part has the shape DDDD-DD-DD. */
  predicate DateShape(d: string)
    requires |d| == 10
  {
    AllDigits(d[..4]) && d[4] == '-' && AllDigits(d[5..7]) && d[7] == '-' && AllDigits(d[8..])
  }

  /** The time part has the shape DD:DD:DD. */
  predicate TimeShape(h: string)
    requires |h| == 8
  {
    AllDigits(h[..2]) && h[2] == ':' && AllDigits(h[3..5]) && h[5] == ':' && AllDigits(h[6..])
  }

  /**
   * Parses a timestamp; None when the text is not of the form, or when a
   * field is out of range (month 13, February 30 outside a leap year, hour 24).
   * Whatever it accepts is a valid instant written in the form with
   * |s| - 18 spaces between date and time.
   */
  function ParseTimestamp(s: string): (r: Option<Instant>)
    ensures r.Some? ==> |s| >= 19 && s == FormatWith(r.value, |s| - 18)
  {
    hide *;
    if |s| < 19 then None
    else
      var k := |s| - 18;
      var d, gap, h := s[..10], s[10..10 + k], s[10 + k..];
      if !(DateShape(d) && gap == Spaces(k) && TimeShape(h)) then None
      else
        var t := DateTime(DateFields(d), DecimalValue(h[..2]), DecimalValue(h[3..5]), DecimalValue(h[6..]));
        if !ValidDateTime(t) then None
        else
          DateRebuild(d, t);
          TimeRebuild(h, t);
          SliceRejoin(s, 10, 10 + k);
          FormatWithParts(t, k);
          Some(t)
  }

  /** Unfolds FormatWith, for proofs that hide its definition. */
  lemma FormatWithParts(t: DateTime, k: nat)
    requires ValidDateTime(t)
    ensures FormatWith(t, k) == DatePart(t) + Spaces(k) + TimePart(t)
  {
  }

  /** The date the digits of a date part spell, which need not be a valid date. */
  function DateFields(d: string): Date
    requires |d| == 10 && DateShape(d)
  {
    Date(DecimalValue(d[..4]), DecimalValue(d[5..7]), DecimalValue(d[8..]))
  }

  /** A date part of the right shape is the date part of the date its digits spell. */
  lemma DateRebuild(d: string, t: DateTime)
    requires |d| == 10 && DateShape(d) && ValidDateTime(t)
    requires t.date == DateFields(d)
    ensures DatePart(t) == d
  {
    DecimalValueRoundTrip(d[..4]);
    DecimalValueRoundTrip(d[5..7]);
    DecimalValueRoundTrip(d[8..]);
    DelimitedRejoin(d, 4, 7);
  }

  /** A time part of the right shape is the time part of the time its digits spell. */
  lemma TimeRebuild(h: string, t: DateTime)
    requires |h| == 8 && TimeShape(h) && ValidDateTime(t)
    requires t.hour == DecimalValue(h[..2]) && t.minute == DecimalValue(h[3..5]) && t.second == DecimalValue(h[6..])
    ensures TimePart(t) == h
  {
    DecimalValueRoundTrip(h[..2]);
    DecimalValueRoundTrip(h[3..5]);
    DecimalValueRoundTrip(h[6..]);
    DelimitedRejoin(h, 2, 5);
  }

  lemma FieldWidths()
    ensures Pow10(2) == 100 && Pow10(4) == 10000
  {
  }

  lemma DatePartShape(t: DateTime)
    requires ValidDateTime(t)
    ensures DateShape(DatePart(t))
    ensures DecimalValue(DatePart(t)[..4]) == t.date.year
    ensures DecimalValue(DatePart(t)[5..7]) == t.date.month
    ensures DecimalValue(DatePart(t)[8..]) == t.date.day
  {
    var y, m, dd := Decimal(t.date.year, 4), Decimal(t.date.month, 2), Decimal(t.date.day, 2);
    assert DatePart(t) == y + ['-'] + m + ['-'] + dd;
    DelimitedSlices(y, '-', m, '-', dd);
    FieldWidths();
    DecimalRoundTrip(t.date.year, 4);
    DecimalRoundTrip(t.date.month, 2);
    DecimalRoundTrip(t.date.day, 2);
  }

  lemma TimePartShape(t: DateTime)
    requires ValidDateTime(t)
    ensures TimeShape(TimePart(t))
    ensures DecimalValue(TimePart(t)[..2]) == t.hour
    ensures DecimalValue(TimePart(t)[3..5]) == t.minute
    ensures DecimalValue(TimePart(t)[6..]) == t.second
  {
    var hh, mm, ss := Decimal(t.hour, 2), Decimal(t.minute, 2), Decimal(t.second, 2);
    assert TimePart(t) == hh + [':'] + mm + [':'] + ss;
    DelimitedSlices(hh, ':', mm, ':', ss);
    FieldWidths();
    DecimalRoundTrip(t.hour, 2);
    DecimalRoundTrip(t.minute, 2);
    DecimalRoundTrip(t.second, 2);
  }

  /** A valid timestamp written with any positive number of spaces parses back to itself. */
  lemma ParseFormatWith(t: DateTime, k: nat)
    requires ValidDateTime(t) && k >= 1
    ensures ParseTimestamp(FormatWith(t, k)) == Some(t)
  {
    DatePartShape(t);
    TimePartShape(t);
    ConcatSlices(DatePart(t), Spaces(k), TimePart(t));
  }

  /**
   * The form the log generator writes, strftime "%Y-%m-%d  %H:%M:%S": two
   * spaces between date and time.  It parses back to the same date-time.
   */
  function Format(t: DateTime): (s: string)
    requires ValidDateTime(t)
    ensures |s| == 20 && ParseTimestamp(s) == Some(t)
  {
    ParseFormatWith(t, 2);
    FormatWith(t, 2)
  }

  /** Text is accepted exactly when it is a valid instant written with one or more spaces between date and time. */
  lemma ParseTimestampExactly(s: string, t: DateTime)
    ensures ParseTimestamp(s) == Some(t) <==> ValidDateTime(t) && |s| >= 19 && s == FormatWith(t, |s| - 18)
  {
    hide *;
    var r := ParseTimestamp(s);
    if r == Some(t) {
      assert ValidDateTime(r.value) && s == FormatWith(r.value, |s| - 18);
    }
    if ValidDateTime(t) && |s| >= 19 && s == FormatWith(t, |s| - 18) {
      ParseFormatWith(t, |s| - 18);
    }
  }

  /** A written timestamp has no whitespace at its ends and does not contain the field separator. */
  lemma StampIsField(t: DateTime, k: nat, s: string)
    requires ValidDateTime(t) && s == DatePart(t) + Spaces(k) + TimePart(t)
    ensures Trimmed(s) && SepFree(s) && !EndsWithSpaceDash(s)
  {
    var d, h := DatePart(t), TimePart(t);
    assert s[0] == d[0] && s[|s| - 1] == h[7];
    assert forall i :: 0 <= i < 10 ==> s[i] == d[i];
    assert forall i :: 10 <= i < 10 + k ==> s[i] == ' ';
    assert forall i :: 0 <= i < 8 ==> s[10 + k + i] == h[i];
    assert forall i :: 0 <= i < 10 ==> d[i] != ' ' by {
      assert d == Decimal(t.date.year, 4) + "-" + Decimal(t.date.month, 2) + "-" + Decimal(t.date.day, 2);
    }
    assert forall i :: 0 <= i < 8 ==> h[i] != ' ' && h[i] != '-' by {
      assert h == Decimal(t.hour, 2) + ":" + Decimal(t.minute, 2) + ":" + Decimal(t.second, 2);
    }
    forall i | 0 <= i < |s| ensures !SepAt(s, i) {
      if i < 10 {
        assert s[i] != ' ';
      } else if i + 1 < 10 + k {
        assert s[i + 1] == ' ';
      } else if i < 10 + k {
        assert s[i + 1] == h[0];
      } else {
        assert s[i] == h[i - 10 - k];
      }
    }
  }

  /** Surrounding blanks do not change the instant a timestamp field parses to, once it is stripped. */
  lemma StripThenParse(a: string, t: DateTime, k: nat, b: string)
    requires AllSpace(a) && AllSpace(b) && ValidDateTime(t) && k >= 1
    ensures ParseTimestamp(Strip(a + FormatWith(t, k) + b)) == Some(t)
  {
    StripPadded(a, FormatWith(t, k), b);
    ParseFormatWith(t, k);
  }
}
