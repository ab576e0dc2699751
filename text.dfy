/**
 * Text operations the log loader relies on: stripping surrounding
 * whitespace from a field, splitting a line on the literal " - " separator,
 * and reading and writing fixed-width decimal numbers.
 */
module Text {

  /** A character Python's str.strip() removes: ASCII and Unicode whitespace. */
  predicate IsSpace(c: char) {
    var n := c as int;
    n == 0x20 || 0x09 <= n <= 0x0D || 0x1C <= n <= 0x1F || n == 0x85 || n == 0xA0
    || n == 0x1680 || 0x2000 <= n <= 0x200A || n == 0x2028 || n == 0x2029
    || n == 0x202F || n == 0x205F || n == 0x3000
  }

  predicate AllSpace(s: string) {
    forall i :: 0 <= i < |s| ==> IsSpace(s[i])
  }

  /** s has no whitespace at either end. */
  predicate Trimmed(s: string) {
    s == [] || (!IsSpace(s[0]) && !IsSpace(s[|s| - 1]))
  }

  /** Drops leading whitespace: the result is the suffix of s left after a run of whitespace. */
  function TrimStart(s: string): (r: string)
    ensures |r| <= |s| && r == s[|s| - |r|..]
    ensures AllSpace(s[..|s| - |r|])
    ensures r == [] || !IsSpace(r[0])
  {
    hide IsSpace;
    if s != [] && IsSpace(s[0]) then
      var r := TrimStart(s[1..]);
      assert s[..|s| - |r|] == [s[0]] + s[1..][..|s| - 1 - |r|];
      r
    else s
  }

  /** Drops trailing whitespace: the result is the prefix of s left before a run of whitespace. */
  function TrimEnd(s: string): (r: string)
    ensures |r| <= |s| && r == s[..|r|]
    ensures AllSpace(s[|r|..])
    ensures r == [] || !IsSpace(r[|r| - 1])
  {
    hide IsSpace;
    if s != [] && IsSpace(s[|s| - 1]) then
      var r := TrimEnd(s[..|s| - 1]);
      assert s[|r|..] == s[..|s| - 1][|r|..] + [s[|s| - 1]];
      r
    else s
  }

  /**
   * Python's str.strip(): s without its leading and trailing whitespace.  The
   * result has no whitespace at its ends; StripParts gives back the
   * whitespace removed, and StripPadded says exactly that much is removed.
   */
  function Strip(s: string): (r: string)
    ensures Trimmed(r)
    ensures |r| <= |s|
  {
    hide *;
    var t := TrimStart(s);
    var r := TrimEnd(t);
    TrimmedEnds(t, r);
    r
  }

  /** A prefix of t that keeps t's first character and ends in a non-space has no whitespace at its ends. */
  lemma TrimmedEnds(t: string, r: string)
    requires t == [] || !IsSpace(t[0])
    requires |r| <= |t| && r == t[..|r|] && (r == [] || !IsSpace(r[|r| - 1]))
    ensures Trimmed(r)
  {
    if r != [] {
      assert r[0] == t[0];
    }
  }

  /** s is Strip(s) with the whitespace Strip removes on either side. */
  lemma StripParts(s: string) returns (lead: string, trail: string)
    ensures AllSpace(lead) && AllSpace(trail) && s == lead + Strip(s) + trail
  {
    hide IsSpace;
    var t := TrimStart(s);
    var r := TrimEnd(t);
    lead, trail := s[..|s| - |t|], t[|r|..];
    assert AllSpace(lead) && AllSpace(trail);
    assert Strip(s) == r;
    hide *;
    Rejoin(s, |s| - |t|, t, r);
  }

  /** s is its prefix before i, then the prefix r of its suffix t from i, then the rest of t. */
  lemma Rejoin(s: string, i: nat, t: string, r: string)
    requires i <= |s| && t == s[i..] && |r| <= |t| && r == t[..|r|]
    ensures s == s[..i] + r + t[|r|..]
  {
    assert s == s[..i] + t;
    assert t == r + t[|r|..];
  }

  lemma AllSpaceConcat(a: string, b: string)
    requires AllSpace(a) && AllSpace(b)
    ensures AllSpace(a + b)
  {
  }

  lemma {:induction false} TrimStartPadded(a: string, t: string)
    requires AllSpace(a) && (t == [] || !IsSpace(t[0]))
    ensures TrimStart(a + t) == t
    decreases |a|
  {
    if a != [] {
      assert (a + t)[1..] == a[1..] + t;
      TrimStartPadded(a[1..], t);
    }
  }

  lemma {:induction false} TrimEndPadded(t: string, b: string)
    requires AllSpace(b) && (t == [] || !IsSpace(t[|t| - 1]))
    ensures TrimEnd(t + b) == t
    decreases |b|
  {
    if b != [] {
      assert (t + b)[..|t + b| - 1] == t + b[..|b| - 1];
      TrimEndPadded(t, b[..|b| - 1]);
    } else {
      assert t + b == t;
    }
  }

  /** Stripping removes exactly the whitespace padding around text that has none at its ends. */
  lemma StripPadded(a: string, t: string, b: string)
    requires AllSpace(a) && AllSpace(b) && Trimmed(t)
    ensures Strip(a + t + b) == t
  {
    if t == [] {
      assert a + t + b == a + b;
      TrimStartPadded(a + b, []);
      assert a + b + [] == a + b;
      TrimEndPadded([], []);
    } else {
      assert a + t + b == a + (t + b);
      TrimStartPadded(a, t + b);
      TrimEndPadded(t, b);
    }
  }

  /** The field separator of the log format. */
  const Separator: string := " - "

  /** The separator occurs in s starting at index i. */
  predicate SepAt(s: string, i: int) {
    0 <= i && i + 2 < |s| && s[i] == ' ' && s[i + 1] == '-' && s[i + 2] == ' '
  }

  predicate SepFree(s: string) {
    forall i :: 0 <= i < |s| ==> !SepAt(s, i)
  }

  /** Index of the leftmost occurrence of the separator at or after k, or |s| when there is none. */
  function FindSep(s: string, k: nat): (i: nat)
    requires k <= |s|
    ensures k <= i <= |s|
    ensures i < |s| ==> SepAt(s, i)
    ensures forall j :: k <= j < i ==> !SepAt(s, j)
    ensures i == |s| ==> forall j :: k <= j ==> !SepAt(s, j)
    decreases |s| - k
  {
    if k == |s| then k
    else if SepAt(s, k) then k
    else FindSep(s, k + 1)
  }

  /** Puts the separator between consecutive fields. */
  function Join(fields: seq<string>): string
    requires |fields| >= 1
  {
    if |fields| == 1 then fields[0] else fields[0] + Separator + Join(fields[1..])
  }

  /** Four fields joined, written out. */
  lemma Join4(a: string, b: string, c: string, d: string)
    ensures Join([a, b, c, d]) == a + Separator + b + Separator + c + Separator + d
  {
    assert [c, d][1..] == [d];
    assert Join([c, d]) == c + Separator + d;
    assert [b, c, d][1..] == [c, d];
    assert Join([b, c, d]) == b + Separator + (c + Separator + d);
    assert [a, b, c, d][1..] == [b, c, d];
  }

  /**
   * Splits a line on the separator, scanning left to right and taking
   * non-overlapping occurrences, as a regular-expression split does.
   * Joining the fields gives back the line, no field contains the
   * separator, and no field but the last ends in " -" (the separator is
   * always taken at its leftmost position); with SplitJoin, these fix the
   * fields of every line.
   */
  function Split(s: string): (fields: seq<string>)
    ensures Splittable(fields)
    ensures Join(fields) == s
    decreases |s|
  {
    var i := FindSep(s, 0);
    if i == |s| then
      assert forall j :: !SepAt(s, j);
      [s]
    else
      var head, tail := s[..i], Split(s[i + 3..]);
      assert SepFree(head) by {
        forall j ensures !SepAt(head, j) {
          if SepAt(head, j) { assert SepAt(s, j); }
        }
      }
      assert !EndsWithSpaceDash(head) by {
        assert i >= 2 ==> !SepAt(s, i - 2);
      }
      assert s == head + Separator + s[i + 3..];
      var fields := [head] + tail;
      assert fields[1..] == tail;
      assert forall j :: 1 <= j < |fields| ==> fields[j] == tail[j - 1];
      fields
  }

  /** A field ending in " -" would merge with the separator that follows it. */
  predicate EndsWithSpaceDash(s: string) {
    |s| >= 2 && s[|s| - 2] == ' ' && s[|s| - 1] == '-'
  }

  /** Fields that Split gives back unchanged once joined. */
  predicate Splittable(fields: seq<string>) {
    && |fields| >= 1
    && (forall i :: 0 <= i < |fields| ==> SepFree(fields[i]))
    && (forall i :: 0 <= i < |fields| - 1 ==> !EndsWithSpaceDash(fields[i]))
  }

  lemma FirstSepAfterField(f: string, rest: string)
    requires SepFree(f) && !EndsWithSpaceDash(f)
    ensures FindSep(f + Separator + rest, 0) == |f|
  {
    var s := f + Separator + rest;
    var i := FindSep(s, 0);
    assert SepAt(s, |f|);
    forall j | 0 <= j < |f| ensures !SepAt(s, j) {
      if j + 2 < |f| {
        assert s[j] == f[j] && s[j + 1] == f[j + 1] && s[j + 2] == f[j + 2];
        assert !SepAt(f, j);
      } else if j + 2 == |f| {
        assert s[j] == f[j] && s[j + 1] == f[j + 1];
      } else {
        assert s[j + 1] == ' ';
      }
    }
  }

  /** Trailing whitespace keeps a field free of the separator and from ending in " -". */
  lemma PaddedField(f: string, pad: string)
    requires SepFree(f) && !EndsWithSpaceDash(f) && AllSpace(pad)
    ensures SepFree(f + pad) && !EndsWithSpaceDash(f + pad)
  {
    var s := f + pad;
    forall i | 0 <= i < |s| ensures !SepAt(s, i) {
      if i + 2 < |f| {
        assert s[i] == f[i] && s[i + 1] == f[i + 1] && s[i + 2] == f[i + 2];
        assert !SepAt(f, i);
      } else if i + 2 == |f| {
        assert s[i] == f[i] && s[i + 1] == f[i + 1];
      } else if i + 1 < |s| {
        assert s[i + 1] == pad[i + 1 - |f|];
      }
    }
    if pad == [] {
      assert s == f;
    } else {
      assert s[|s| - 1] == pad[|pad| - 1];
    }
  }

  /** Splitting joined fields gives the fields back, when no field holds or ends into the separator. */
  lemma {:induction false} SplitJoin(fields: seq<string>)
    requires Splittable(fields)
    ensures Split(Join(fields)) == fields
    decreases |fields|
  {
    var s := Join(fields);
    if |fields| == 1 {
      assert SepFree(fields[0]);
      assert FindSep(s, 0) == |s|;
    } else {
      var f, rest := fields[0], Join(fields[1..]);
      assert s == f + Separator + rest;
      FirstSepAfterField(f, rest);
      assert s[..|f|] == f;
      assert s[|f| + 3..] == rest;
      assert Splittable(fields[1..]) by {
        forall i | 0 <= i < |fields| - 2 ensures !EndsWithSpaceDash(fields[1..][i]) {
          assert fields[1..][i] == fields[i + 1];
        }
      }
      SplitJoin(fields[1..]);
      assert fields == [f] + fields[1..];
    }
  }

  /* Slicing concatenations. */

  /** The pieces of a + b + c are found again at their offsets. */
  lemma ConcatSlices(a: string, b: string, c: string)
    ensures var s := a + b + c;
      s[..|a|] == a && s[|a|..|a| + |b|] == b && s[|a| + |b|..] == c
  {
    var s := a + b + c;
    assert s[..|a|] == a;
    assert s[|a|..|a| + |b|] == b;
    assert s[|a| + |b|..] == c;
  }

  lemma SliceRejoin(s: string, i: nat, j: nat)
    requires i <= j <= |s|
    ensures s == s[..i] + s[i..j] + s[j..]
  {
  }

  /** The fields and the two delimiters of a + [x] + b + [y] + c are found again at their offsets. */
  lemma DelimitedSlices(a: string, x: char, b: string, y: char, c: string)
    ensures var s := a + [x] + b + [y] + c;
      && s[..|a|] == a && s[|a|] == x && s[|a| + 1..|a| + 1 + |b|] == b
      && s[|a| + 1 + |b|] == y && s[|a| + 2 + |b|..] == c
  {
    var s := a + [x] + b + [y] + c;
    assert s[..|a|] == a;
    assert s[|a| + 1..|a| + 1 + |b|] == b;
    assert s[|a| + 2 + |b|..] == c;
  }

  lemma DelimitedRejoin(s: string, i: nat, j: nat)
    requires i < j < |s|
    ensures s == s[..i] + [s[i]] + s[i + 1..j] + [s[j]] + s[j + 1..]
  {
  }

  /* Decimal digits. */

  predicate IsDigit(c: char) {
    '0' <= c <= '9'
  }

  predicate AllDigits(s: string) {
    forall i :: 0 <= i < |s| ==> IsDigit(s[i])
  }

  function DigitChar(v: nat): (c: char)
    requires v < 10
    ensures IsDigit(c)
  {
    (('0' as int) + v) as char
  }

  function Pow10(w: nat): (p: nat)
    ensures p >= 1
  {
    if w == 0 then 1 else 10 * Pow10(w - 1)
  }

  /** The value of a string of decimal digits, most significant first. */
  function DecimalValue(s: string): (v: nat)
    requires AllDigits(s)
    ensures v < Pow10(|s|)
  {
    if s == [] then 0
    else DecimalValue(s[..|s| - 1]) * 10 + ((s[|s| - 1] as int) - ('0' as int))
  }

  /** v written with exactly w decimal digits, zero-padded on the left (the low w digits when v is larger). */
  function Decimal(v: nat, w: nat): (s: string)
    ensures |s| == w && AllDigits(s)
  {
    if w == 0 then [] else Decimal(v / 10, w - 1) + [DigitChar(v % 10)]
  }

  /** Reading back a number written in a wide enough field gives the number. */
  lemma {:induction false} DecimalRoundTrip(v: nat, w: nat)
    requires v < Pow10(w)
    ensures DecimalValue(Decimal(v, w)) == v
  {
    if w > 0 {
      var s := Decimal(v, w);
      assert s[..|s| - 1] == Decimal(v / 10, w - 1);
      DecimalRoundTrip(v / 10, w - 1);
    }
  }

  /** Writing back the value of a digit string, at its own width, gives the string. */
  lemma {:induction false} DecimalValueRoundTrip(s: string)
    requires AllDigits(s)
    ensures Decimal(DecimalValue(s), |s|) == s
  {
    if s != [] {
      var p, c := s[..|s| - 1], s[|s| - 1];
      var d := (c as int) - ('0' as int);
      var v := DecimalValue(s);
      assert 0 <= d < 10 && v == DecimalValue(p) * 10 + d;
      assert DigitChar(d) == c;
      assert Decimal(v, |s|) == Decimal(v / 10, |p|) + [DigitChar(v % 10)];
      hide *;
      LastDigit(DecimalValue(p), d);
      DecimalValueRoundTrip(p);
      assert s == p + [c];
    }
  }

  /** Appending a digit d to a number a: dividing by ten gives back a, and the remainder is d. */
  lemma LastDigit(a: nat, d: int)
    requires 0 <= d < 10
    ensures (a * 10 + d) / 10 == a && (a * 10 + d) % 10 == d
  {
  }
}
