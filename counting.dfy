/**
 * Counting over a column of values: the number of occurrences of chosen
 * keys, the distinct values in order of first appearance, and the
 * value_counts table, each observed value with its number of occurrences,
 * most frequent first.
 */
module Counting {

  function Sum(s: seq<nat>): nat {
    if s == [] then 0 else s[0] + Sum(s[1..])
  }

  /** A one-element sequence sums to its element. */
  lemma SumSingle(s: seq<nat>)
    requires |s| == 1
    ensures Sum(s) == s[0] && s == [s[0]]
  {
  }

  lemma {:induction false} SumConcat(a: seq<nat>, b: seq<nat>)
    ensures Sum(a + b) == Sum(a) + Sum(b)
  {
    if a != [] {
      assert (a + b)[1..] == a[1..] + b;
      SumConcat(a[1..], b);
    } else {
      assert a + b == b;
    }
  }

  predicate NoDup<T(==)>(s: seq<T>) {
    forall i, j :: 0 <= i < j < |s| ==> s[i] != s[j]
  }

  /** Number of positions of s holding x. */
  function Occurrences<T(==)>(s: seq<T>, x: T): nat {
    if s == [] then 0
    else Occurrences(s[..|s| - 1], x) + (if s[|s| - 1] == x then 1 else 0)
  }

  /** Counting positions agrees with the multiplicity in the multiset of s. */
  lemma {:induction false} OccurrencesMultiplicity<T>(s: seq<T>, x: T)
    ensures Occurrences(s, x) == multiset(s)[x]
  {
    if s != [] {
      var p := s[..|s| - 1];
      OccurrencesMultiplicity(p, x);
      assert s == p + [s[|s| - 1]];
    }
  }

  /** Every element of a sequence occurs in it at least once. */
  lemma {:induction false} OccurrencesPositive<T>(s: seq<T>, x: T)
    requires x in s
    ensures Occurrences(s, x) >= 1
  {
    var p := s[..|s| - 1];
    if s[|s| - 1] != x {
      assert s == p + [s[|s| - 1]];
      OccurrencesPositive(p, x);
    }
  }

  /** How often each of keys occurs in s, key by key. */
  function Tally<T(==)>(keys: seq<T>, s: seq<T>): seq<nat> {
    seq(|keys|, i requires 0 <= i < |keys| => Occurrences(s, keys[i]))
  }

  /** One more value in the column adds one to the tally of its key, if it is among the keys, once. */
  lemma {:induction false} TallyStep<T>(keys: seq<T>, s: seq<T>, x: T)
    requires NoDup(keys)
    ensures Sum(Tally(keys, s + [x])) == Sum(Tally(keys, s)) + (if x in keys then 1 else 0)
  {
    if keys != [] {
      assert Tally(keys, s + [x])[1..] == Tally(keys[1..], s + [x]);
      assert Tally(keys, s)[1..] == Tally(keys[1..], s);
      assert (s + [x])[..|s|] == s;
      TallyStep(keys[1..], s, x);
      assert x in keys <==> x == keys[0] || x in keys[1..];
    }
  }

  /** When the keys are distinct and cover every value of s, the tallies add up to the length of s. */
  lemma {:induction false} TallySum<T>(keys: seq<T>, s: seq<T>)
    requires NoDup(keys)
    requires forall i :: 0 <= i < |s| ==> s[i] in keys
    ensures Sum(Tally(keys, s)) == |s|
  {
    if s == [] {
      assert forall i :: 0 <= i < |keys| ==> Tally(keys, s)[i] == 0;
      ZeroSum(Tally(keys, s));
    } else {
      var p := s[..|s| - 1];
      TallySum(keys, p);
      TallyStep(keys, p, s[|s| - 1]);
      assert p + [s[|s| - 1]] == s;
    }
  }

  lemma {:induction false} ZeroSum(s: seq<nat>)
    requires forall i :: 0 <= i < |s| ==> s[i] == 0
    ensures Sum(s) == 0
  {
    if s != [] {
      ZeroSum(s[1..]);
    }
  }

  /** The distinct values of s, in order of first appearance. */
  function Distinct<T(==, !new)>(s: seq<T>): (d: seq<T>)
    ensures NoDup(d)
    ensures forall x :: x in d <==> x in s
    ensures |d| <= |s|
  {
    if s == [] then []
    else
      var p, x := s[..|s| - 1], s[|s| - 1];
      assert forall y :: y in s <==> y in p || y == x;
      var d := Distinct(p);
      if x in d then d else d + [x]
  }

  /** A sequence without repetitions has as many elements as its set of elements. */
  lemma {:induction false} NoDupCardinality<T>(d: seq<T>)
    requires NoDup(d)
    ensures |set x | x in d| == |d|
  {
    if d != [] {
      var p := d[..|d| - 1];
      NoDupCardinality(p);
      assert (set x | x in d) == (set x | x in p) + {d[|d| - 1]};
      assert d[|d| - 1] !in p;
    }
  }

  /** The number of distinct values is the cardinality of the set of values, and at most the number of values. */
  lemma DistinctCount<T(!new)>(s: seq<T>)
    ensures |Distinct(s)| == |set x | x in s|
    ensures |set x | x in s| <= |s|
  {
    var d := Distinct(s);
    NoDupCardinality(d);
    assert (set x | x in d) == (set x | x in s);
  }

  /* The value_counts table. */

  function Keys<T>(ps: seq<(T, nat)>): seq<T> {
    seq(|ps|, i requires 0 <= i < |ps| => ps[i].0)
  }

  function Counts<T>(ps: seq<(T, nat)>): seq<nat> {
    seq(|ps|, i requires 0 <= i < |ps| => ps[i].1)
  }

  /** Most frequent first. */
  predicate Descending<T>(ps: seq<(T, nat)>) {
    forall i, j :: 0 <= i < j < |ps| ==> ps[i].1 >= ps[j].1
  }

  /** Where p goes in a table sorted most frequent first: before the first entry not more frequent than p. */
  function InsertPos<T>(p: (T, nat), ps: seq<(T, nat)>): (i: nat)
    ensures i <= |ps|
    ensures forall j :: 0 <= j < i ==> ps[j].1 > p.1
    ensures i < |ps| ==> ps[i].1 <= p.1
  {
    if ps == [] || ps[0].1 <= p.1 then 0 else 1 + InsertPos(p, ps[1..])
  }

  function InsertByCount<T>(p: (T, nat), ps: seq<(T, nat)>): seq<(T, nat)> {
    var i := InsertPos(p, ps);
    ps[..i] + [p] + ps[i..]
  }

  lemma KeysCountsSplit<T>(a: seq<(T, nat)>, p: (T, nat), b: seq<(T, nat)>)
    ensures Keys(a + [p] + b) == Keys(a) + [p.0] + Keys(b)
    ensures Keys(a + b) == Keys(a) + Keys(b)
    ensures Sum(Counts(a + [p] + b)) == Sum(Counts(a + b)) + p.1
  {
    assert Counts(a + [p] + b) == Counts(a) + [p.1] + Counts(b);
    assert Counts(a + b) == Counts(a) + Counts(b);
    SumConcat(Counts(a) + [p.1], Counts(b));
    SumConcat(Counts(a), [p.1]);
    SumConcat(Counts(a), Counts(b));
  }

  lemma InsertByCountContents<T>(p: (T, nat), ps: seq<(T, nat)>)
    ensures multiset(InsertByCount(p, ps)) == multiset(ps) + multiset{p}
    ensures multiset(Keys(InsertByCount(p, ps))) == multiset(Keys(ps)) + multiset{p.0}
    ensures Sum(Counts(InsertByCount(p, ps))) == Sum(Counts(ps)) + p.1
  {
    var i := InsertPos(p, ps);
    var a, b := ps[..i], ps[i..];
    assert ps == a + b;
    KeysCountsSplit(a, p, b);
  }

  lemma InsertByCountDescending<T>(p: (T, nat), ps: seq<(T, nat)>)
    requires Descending(ps)
    ensures Descending(InsertByCount(p, ps))
  {
    var i := InsertPos(p, ps);
    var r := InsertByCount(p, ps);
    forall j, k | 0 <= j < k < |r| ensures r[j].1 >= r[k].1 {
      if k > i && j != i {
        var j' := if j < i then j else j - 1;
        assert r[j] == ps[j'] && r[k] == ps[k - 1];
      } else if k > i {
        assert r[k] == ps[k - 1];
      }
    }
  }

  /** Putting a new value anywhere in a sequence without repetitions leaves it without repetitions. */
  lemma NoDupInsert<T>(k: seq<T>, i: nat, x: T)
    requires NoDup(k) && x !in k && i <= |k|
    ensures NoDup(k[..i] + [x] + k[i..])
  {
    var r := k[..i] + [x] + k[i..];
    forall j, l | 0 <= j < l < |r| ensures r[j] != r[l] {
      if j == i {
        assert r[l] == k[l - 1];
      } else if l == i {
        assert r[j] == k[j];
      } else if l < i {
        assert r[j] == k[j] && r[l] == k[l];
      } else if j < i {
        assert r[j] == k[j] && r[l] == k[l - 1];
      } else {
        assert r[j] == k[j - 1] && r[l] == k[l - 1];
      }
    }
  }

  lemma InsertByCountNoDup<T>(p: (T, nat), ps: seq<(T, nat)>)
    requires NoDup(Keys(ps)) && p.0 !in Keys(ps)
    ensures NoDup(Keys(InsertByCount(p, ps)))
  {
    var i := InsertPos(p, ps);
    var kp := Keys(ps);
    KeysCountsSplit(ps[..i], p, ps[i..]);
    assert Keys(ps[..i]) == kp[..i] && Keys(ps[i..]) == kp[i..];
    NoDupInsert(kp, i, p.0);
  }

  /**
   * Sorts a table most frequent first by inserting entries one by one;
   * the result is a rearrangement of the input.
   */
  function SortByCount<T(==)>(ps: seq<(T, nat)>): (r: seq<(T, nat)>)
    ensures Descending(r)
    ensures multiset(r) == multiset(ps)
    ensures multiset(Keys(r)) == multiset(Keys(ps))
    ensures Sum(Counts(r)) == Sum(Counts(ps))
    ensures NoDup(Keys(ps)) ==> NoDup(Keys(r))
  {
    if ps == [] then []
    else
      var rest := SortByCount(ps[1..]);
      SortStep(ps, rest);
      InsertByCount(ps[0], rest)
  }

  lemma NoDupTail<T>(k: seq<T>)
    requires NoDup(k) && k != []
    ensures k[0] !in k[1..] && NoDup(k[1..])
  {
    forall j | 0 <= j < |k| - 1 ensures k[1..][j] != k[0] {
      assert k[1..][j] == k[j + 1];
    }
  }

  lemma ConsFacts<T>(ps: seq<(T, nat)>)
    requires ps != []
    ensures multiset(ps) == multiset(ps[1..]) + multiset{ps[0]}
    ensures Keys(ps) == [ps[0].0] + Keys(ps[1..])
    ensures Sum(Counts(ps)) == Sum(Counts(ps[1..])) + ps[0].1
  {
    assert ps == [ps[0]] + ps[1..];
    assert Counts(ps) == [ps[0].1] + Counts(ps[1..]);
  }

  lemma SortStep<T>(ps: seq<(T, nat)>, rest: seq<(T, nat)>)
    requires ps != [] && Descending(rest)
    requires multiset(rest) == multiset(ps[1..]) && multiset(Keys(rest)) == multiset(Keys(ps[1..]))
    requires Sum(Counts(rest)) == Sum(Counts(ps[1..]))
    requires NoDup(Keys(ps[1..])) ==> NoDup(Keys(rest))
    ensures Descending(InsertByCount(ps[0], rest))
    ensures multiset(InsertByCount(ps[0], rest)) == multiset(ps)
    ensures multiset(Keys(InsertByCount(ps[0], rest))) == multiset(Keys(ps))
    ensures Sum(Counts(InsertByCount(ps[0], rest))) == Sum(Counts(ps))
    ensures NoDup(Keys(ps)) ==> NoDup(Keys(InsertByCount(ps[0], rest)))
  {
    InsertByCountContents(ps[0], rest);
    InsertByCountDescending(ps[0], rest);
    ConsFacts(ps);
    if NoDup(Keys(ps)) {
      NoDupTail(Keys(ps));
      assert Keys(ps)[1..] == Keys(ps[1..]);
      assert ps[0].0 !in multiset(Keys(rest));
      InsertByCountNoDup(ps[0], rest);
    }
  }

  /** Each of keys paired with its number of occurrences in s. */
  function CountPairs<T(==)>(keys: seq<T>, s: seq<T>): (ps: seq<(T, nat)>)
    ensures Keys(ps) == keys && Counts(ps) == Tally(keys, s)
  {
    seq(|keys|, i requires 0 <= i < |keys| => (keys[i], Occurrences(s, keys[i])))
  }

  /**
   * pandas' value_counts: every value observed in s exactly once, with the
   * number of times it occurs, most frequent first (ties in order of first
   * appearance).  The counts add up to the length of s.
   */
  function ValueCounts<T(==, !new)>(s: seq<T>): (r: seq<(T, nat)>)
    ensures forall p :: p in r ==> p.1 == multiset(s)[p.0] && p.1 >= 1
    ensures forall v :: v in Keys(r) <==> v in s
    ensures NoDup(Keys(r))
    ensures Sum(Counts(r)) == |s|
    ensures Descending(r)
    ensures |r| == |set v | v in s|
  {
    var d := Distinct(s);
    var r := SortByCount(CountPairs(d, s));
    TableEntries(s, d, r);
    TableKeys(s, d, r);
    TableSum(s, d);
    DistinctCount(s);
    assert |multiset(r)| == |multiset(CountPairs(d, s))|;
    r
  }

  /* Facts about the table of the distinct values d of s paired with their counts. */

  lemma TableSum<T>(s: seq<T>, d: seq<T>)
    requires NoDup(d) && forall x :: x in d <==> x in s
    ensures Sum(Counts(CountPairs(d, s))) == |s|
  {
    assert forall i :: 0 <= i < |s| ==> s[i] in d;
    TallySum(d, s);
  }

  lemma TableEntries<T>(s: seq<T>, d: seq<T>, r: seq<(T, nat)>)
    requires forall x :: x in d <==> x in s
    requires multiset(r) == multiset(CountPairs(d, s))
    ensures forall p :: p in r ==> p.1 == multiset(s)[p.0] && p.1 >= 1
  {
    var table := CountPairs(d, s);
    forall p | p in r ensures p.1 == multiset(s)[p.0] && p.1 >= 1 {
      assert p in multiset(table);
      var i :| 0 <= i < |table| && table[i] == p;
      assert p.0 == d[i] && d[i] in s;
      OccurrencesMultiplicity(s, p.0);
    }
  }

  lemma TableKeys<T>(s: seq<T>, d: seq<T>, r: seq<(T, nat)>)
    requires forall x :: x in d <==> x in s
    requires multiset(Keys(r)) == multiset(Keys(CountPairs(d, s)))
    ensures forall v :: v in Keys(r) <==> v in s
  {
    var table := CountPairs(d, s);
    forall v ensures v in Keys(r) <==> v in s {
      assert v in Keys(r) <==> v in multiset(Keys(r));
      assert v in Keys(table) <==> v in multiset(Keys(table));
    }
  }
}
