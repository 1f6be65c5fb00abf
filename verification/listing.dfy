/**
  Reading entries back in the order `sort({ date: -1 })` gives: newest date
  first. Also the filter the search endpoint applies before sorting.
 */
module Listing {
  import opened DateOrder
  import opened Entries

  /** Every entry sorts at or after each entry that follows it. */
  predicate DateDescending(s: seq<Entry>) {
    forall i, j :: 0 <= i < j < |s| ==> LexLe(s[j].date, s[i].date)
  }

  /** No two entries of `s` share a date. */
  predicate DistinctDates(s: seq<Entry>) {
    forall i, j :: 0 <= i < j < |s| ==> s[i].date != s[j].date
  }

  /** Puts `e` into the date-descending sequence `s` at its place. */
  function InsertByDate(e: Entry, s: seq<Entry>): (r: seq<Entry>)
    requires DateDescending(s)
    ensures DateDescending(r)
    ensures multiset(r) == multiset(s) + multiset{e}
  {
    if |s| == 0 then [e]
    else if LexLe(s[0].date, e.date) then
      AllAtOrBefore(s, e.date);
      Prepend(e, s);
      [e] + s
    else
      var rest := InsertByDate(e, s[1..]);
      LexLeTotal(s[0].date, e.date);
      assert s == [s[0]] + s[1..];
      RestAtOrBefore(e, s, rest);
      Prepend(s[0], rest);
      [s[0]] + rest
  }

  /** An entry that sorts at or after every entry of a date-descending
      sequence can head it. */
  lemma Prepend(x: Entry, t: seq<Entry>)
    requires DateDescending(t)
    requires forall j :: 0 <= j < |t| ==> LexLe(t[j].date, x.date)
    ensures DateDescending([x] + t)
  {
    var r := [x] + t;
    forall i, j | 0 <= i < j < |r|
      ensures LexLe(r[j].date, r[i].date)
    {
      assert r[j] == t[j - 1];
      if i > 0 {
        assert r[i] == t[i - 1];
      }
    }
  }

  /** When the head of a date-descending sequence sorts at or before `d`,
      every entry does. */
  lemma AllAtOrBefore(s: seq<Entry>, d: string)
    requires DateDescending(s) && |s| > 0 && LexLe(s[0].date, d)
    ensures forall j :: 0 <= j < |s| ==> LexLe(s[j].date, d)
  {
    forall j | 0 <= j < |s|
      ensures LexLe(s[j].date, d)
    {
      if j == 0 {
        LexLeReflexive(s[0].date);
      }
      LexLeTransitive(s[j].date, s[0].date, d);
    }
  }

  /** The tail of a date-descending sequence with `e` added, where `e`
      sorts at or before the head, still sorts at or before the head. */
  lemma RestAtOrBefore(e: Entry, s: seq<Entry>, rest: seq<Entry>)
    requires DateDescending(s) && |s| > 0 && LexLe(e.date, s[0].date)
    requires multiset(rest) == multiset(s[1..]) + multiset{e}
    ensures forall j :: 0 <= j < |rest| ==> LexLe(rest[j].date, s[0].date)
  {
    forall j | 0 <= j < |rest|
      ensures LexLe(rest[j].date, s[0].date)
    {
      assert rest[j] in multiset(rest);
      if rest[j] != e {
        assert rest[j] in multiset(s[1..]);
        var k :| 0 <= k < |s[1..]| && s[1..][k] == rest[j];
        assert s[k + 1] == rest[j];
      }
    }
  }

  /** `s` arranged newest date first: the order of `find().sort({date: -1})`. */
  function SortByDateDesc(s: seq<Entry>): (r: seq<Entry>)
    ensures DateDescending(r)
    ensures multiset(r) == multiset(s)
  {
    if |s| == 0 then []
    else
      assert s == [s[0]] + s[1..];
      InsertByDate(s[0], SortByDateDesc(s[1..]))
  }

  /** The entries whose content `matches` the query, in their stored order. */
  function Matching(s: seq<Entry>, q: string, matches: (string, string) -> bool): (r: seq<Entry>)
    ensures forall e :: multiset(r)[e] == if matches(e.content, q) then multiset(s)[e] else 0
  {
    if |s| == 0 then []
    else
      assert s == [s[0]] + s[1..];
      var rest := Matching(s[1..], q, matches);
      if matches(s[0].content, q) then [s[0]] + rest else rest
  }

  /** Every entry of a date-descending sequence sorts at or before the
      first. */
  lemma FirstIsGreatest(s: seq<Entry>, e: Entry)
    requires DateDescending(s) && |s| > 0 && e in s
    ensures LexLe(e.date, s[0].date)
  {
    var k :| 0 <= k < |s| && s[k] == e;
    if k == 0 {
      LexLeReflexive(e.date);
    }
  }

  /** Two date-descending arrangements of the same entries, with distinct
      dates, start with the same entry. */
  lemma SameFirst(a: seq<Entry>, b: seq<Entry>)
    requires multiset(a) == multiset(b) && |a| > 0
    requires DateDescending(a) && DateDescending(b)
    requires DistinctDates(a)
    ensures |b| > 0 && a[0] == b[0]
  {
    assert a[0] in multiset(b);
    assert b[0] in multiset(a);
    FirstIsGreatest(a, b[0]);
    FirstIsGreatest(b, a[0]);
    LexLeAntisymmetric(a[0].date, b[0].date);
    var k :| 0 <= k < |a| && a[k] == b[0];
    assert a[0].date == a[k].date;
  }

  /** Removing the same first entry from two arrangements of the same
      entries leaves arrangements of the same entries. */
  lemma SameRest(a: seq<Entry>, b: seq<Entry>)
    requires multiset(a) == multiset(b) && |a| > 0 && |b| > 0 && a[0] == b[0]
    ensures multiset(a[1..]) == multiset(b[1..])
  {
    assert a == [a[0]] + a[1..];
    assert b == [b[0]] + b[1..];
    assert multiset(a) == multiset{a[0]} + multiset(a[1..]);
    assert multiset(b) == multiset{a[0]} + multiset(b[1..]);
    forall x
      ensures multiset(a[1..])[x] == multiset(b[1..])[x]
    {
      assert multiset(a)[x] == multiset{a[0]}[x] + multiset(a[1..])[x];
      assert multiset(b)[x] == multiset{a[0]}[x] + multiset(b[1..])[x];
    }
  }

  /** Sorting by date is determined: when dates are distinct, two date-
      descending arrangements of the same entries are the same sequence. So
      any correct `sort({date: -1})` returns exactly `SortByDateDesc`. */
  lemma {:induction false} DescendingArrangementUnique(a: seq<Entry>, b: seq<Entry>)
    requires multiset(a) == multiset(b)
    requires DateDescending(a) && DateDescending(b)
    requires DistinctDates(a)
    ensures a == b
    decreases |a|
  {
    assert |a| == |multiset(a)| == |b|;
    if |a| > 0 {
      SameFirst(a, b);
      SameRest(a, b);
      DescendingArrangementUnique(a[1..], b[1..]);
      assert a == [a[0]] + a[1..];
      assert b == [b[0]] + b[1..];
    }
  }
}
