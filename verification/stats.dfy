/**
  The summary behind `GET /api/stats`: entry count, total and average word
  counts, and the earliest and latest dates.
 */
module Statistics {
  import opened Options
  import opened Text
  import opened DateOrder
  import opened Entries

  datatype Stats = Stats(
    totalEntries: nat,
    avgWordsPerEntry: nat,
    firstEntryDate: Option<string>,
    lastEntryDate: Option<string>,
    totalWords: nat)

  /** `entries.reduce((sum, e) => sum + e.content.split(/\s+/).length, 0)`.
      `split` always yields at least one piece, so every entry adds at least
      one. */
  function TotalWords(s: seq<Entry>): (r: nat)
    ensures r >= |s|
  {
    if |s| == 0 then 0 else TotalWords(s[..|s| - 1]) + SplitLength(s[|s| - 1].content)
  }

  /** The sum of the real word counts of the entries' contents. */
  function SumWordCounts(s: seq<Entry>): nat {
    if |s| == 0 then 0 else SumWordCounts(s[..|s| - 1]) + WordCount(s[|s| - 1].content)
  }

  /** Stored contents are trimmed and non-empty, so the `split`-based total
      counts exactly the words of the store. */
  lemma {:induction false} TotalWordsCountsWords(s: seq<Entry>)
    requires forall i :: 0 <= i < |s| ==> WellFormed(s[i])
    ensures TotalWords(s) == SumWordCounts(s)
  {
    if |s| > 0 {
      TotalWordsCountsWords(s[..|s| - 1]);
      SplitLengthOfTrimmed(s[|s| - 1].content);
    }
  }

  /** `Math.round(a / b)` for a non-negative ratio: the integer nearest to
      `a / b`, a tie going upward. */
  function RoundedRatio(a: nat, b: nat): (r: nat)
    requires b > 0
    ensures 2 * b * r <= 2 * a + b < 2 * b * r + 2 * b
  {
    var r := (2 * a + b) / (2 * b);
    assert (2 * a + b) == 2 * b * r + (2 * a + b) % (2 * b);
    r
  }

  /** The position of the entry `findOne().sort({ date: 1 })` returns: one
      with the least date. */
  function EarliestIndex(s: seq<Entry>): (k: nat)
    requires |s| > 0
    ensures k < |s|
    ensures forall i :: 0 <= i < |s| ==> LexLe(s[k].date, s[i].date)
  {
    if |s| == 1 then
      LexLeReflexive(s[0].date);
      0
    else
      var k := EarliestIndex(s[..|s| - 1]);
      var d, last := s[k].date, s[|s| - 1].date;
      assert forall i :: 0 <= i < |s| - 1 ==> s[..|s| - 1][i] == s[i];
      LexLeTotal(d, last);
      LexLeReflexive(last);
      if LexLe(d, last) then
        k
      else
        forall i | 0 <= i < |s| - 1
          ensures LexLe(last, s[i].date)
        {
          LexLeTransitive(last, d, s[i].date);
        }
        |s| - 1
  }

  /** The position of the entry `findOne().sort({ date: -1 })` returns: one
      with the greatest date. */
  function LatestIndex(s: seq<Entry>): (k: nat)
    requires |s| > 0
    ensures k < |s|
    ensures forall i :: 0 <= i < |s| ==> LexLe(s[i].date, s[k].date)
  {
    if |s| == 1 then
      LexLeReflexive(s[0].date);
      0
    else
      var k := LatestIndex(s[..|s| - 1]);
      var d, last := s[k].date, s[|s| - 1].date;
      assert forall i :: 0 <= i < |s| - 1 ==> s[..|s| - 1][i] == s[i];
      LexLeTotal(d, last);
      LexLeReflexive(last);
      if LexLe(last, d) then
        k
      else
        forall i | 0 <= i < |s| - 1
          ensures LexLe(s[i].date, last)
        {
          LexLeTransitive(s[i].date, d, last);
        }
        |s| - 1
  }

  function EarliestDate(s: seq<Entry>): string
    requires |s| > 0
  {
    s[EarliestIndex(s)].date
  }

  function LatestDate(s: seq<Entry>): string
    requires |s| > 0
  {
    s[LatestIndex(s)].date
  }

  /** The statistics of a collection of entries. */
  function Summarize(s: seq<Entry>): (r: Stats)
    ensures r.totalEntries == |s|
    ensures r.totalWords == TotalWords(s)
    ensures |s| == 0 ==> r.avgWordsPerEntry == 0
    ensures |s| > 0 ==> 2 * |s| * r.avgWordsPerEntry <= 2 * r.totalWords + |s|
    ensures |s| > 0 ==> 2 * r.totalWords + |s| < 2 * |s| * r.avgWordsPerEntry + 2 * |s|
    ensures r.firstEntryDate.None? <==> |s| == 0
    ensures r.lastEntryDate.None? <==> |s| == 0
    ensures r.firstEntryDate.Some? ==>
              (exists i :: 0 <= i < |s| && s[i].date == r.firstEntryDate.value)
              && forall i :: 0 <= i < |s| ==> LexLe(r.firstEntryDate.value, s[i].date)
    ensures r.lastEntryDate.Some? ==>
              (exists i :: 0 <= i < |s| && s[i].date == r.lastEntryDate.value)
              && forall i :: 0 <= i < |s| ==> LexLe(s[i].date, r.lastEntryDate.value)
  {
    var totalEntries := |s|;
    var totalWords := TotalWords(s);
    var avgWords := if totalEntries > 0 then RoundedRatio(totalWords, totalEntries) else 0;
    Stats(
      totalEntries,
      avgWords,
      if totalEntries > 0 then Some(EarliestDate(s)) else None,
      if totalEntries > 0 then Some(LatestDate(s)) else None,
      totalWords)
  }
}
