/**
  Properties of the journal API that relate several requests, or a request
  to an independent description of its result.
 */
module Properties {
  import opened Options
  import opened Text
  import opened DateOrder
  import opened Entries
  import opened Listing
  import opened Statistics
  import opened Handlers

  /** Saving to a date that has an entry replaces that entry's content in
      place and changes nothing else. */
  lemma UpsertExisting(st: Store, date: string, content: string, i: nat)
    requires OnlyDateAt(st.entries, date, i)
    ensures Upsert(st, date, content).response.status == 200
    ensures Upsert(st, date, content).store == Store(WithContent(st.entries, i, content), st.nextId)
  {
    var r := Upsert(st, date, content);
    var j: nat :| ContentChangedAt(st.entries, r.store.entries, j, content)
                  && st.entries[j].date == date;
    assert j == i;
    assert r.store.entries == WithContent(st.entries, i, content);
  }

  /** Saving to a date without an entry appends one with the next id. */
  lemma UpsertNew(st: Store, date: string, content: string)
    requires forall k :: 0 <= k < |st.entries| ==> st.entries[k].date != date
    ensures Upsert(st, date, content).response.status == 201
    ensures Upsert(st, date, content).store
            == Store(st.entries + [Entry(st.nextId, date, content)], st.nextId + 1)
  {
  }

  /** A save with a non-empty date and non-blank content reaches the store
      with the trimmed content. */
  lemma SaveReachesStore(st: Store, date: string, content: string)
    requires |date| > 0 && !AllSpace(content)
    ensures SaveEntry(st, Some(date), Some(content)) == Upsert(st, date, Trim(content))
  {
    assert !Falsy(Some(date));
    assert !Blank(Some(content));
  }

  /** Saving twice for the same date leaves exactly one entry for it,
      holding the second content; the second save is an update (200) and
      does not grow the store. */
  lemma SaveTwiceKeepsOneEntry(st: Store, date: string, first: string, second: string)
    requires Valid(st)
    requires |date| > 0 && !AllSpace(first) && !AllSpace(second)
    ensures var r1 := SaveEntry(st, Some(date), Some(first));
            var r2 := SaveEntry(r1.store, Some(date), Some(second));
            && r1.response.status in {200, 201}
            && r2.response.status == 200
            && |r2.store.entries| == |r1.store.entries|
            && exists i: nat :: OnlyDateAt(r2.store.entries, date, i)
                                && r2.store.entries[i].content == Trim(second)
  {
    SaveReachesStore(st, date, first);
    var r1 := Upsert(st, date, Trim(first));
    var i: nat :| OnlyDateAt(r1.store.entries, date, i)
                  && r1.store.entries[i].content == Trim(first);
    SaveReachesStore(r1.store, date, second);
    UpsertOverOnly(r1.store, date, Trim(second), i);
  }

  /** Saving to the date held only by the entry at `i` keeps it the only
      one, now holding the new content, and keeps the store's size. */
  lemma UpsertOverOnly(st: Store, date: string, content: string, i: nat)
    requires OnlyDateAt(st.entries, date, i)
    ensures var r := Upsert(st, date, content);
            && r.response.status == 200
            && |r.store.entries| == |st.entries|
            && OnlyDateAt(r.store.entries, date, i)
            && r.store.entries[i].content == content
  {
    UpsertExisting(st, date, content, i);
    var entries := WithContent(st.entries, i, content);
    assert OnlyDateAt(entries, date, i);
  }

  /** Saving the same date and content a second time changes nothing. */
  lemma SaveIsIdempotent(st: Store, date: string, content: string)
    requires Valid(st)
    requires |date| > 0 && !AllSpace(content)
    ensures var r1 := SaveEntry(st, Some(date), Some(content));
            SaveEntry(r1.store, Some(date), Some(content)).store == r1.store
  {
    var c := Trim(content);
    SaveReachesStore(st, date, content);
    var r1 := SaveEntry(st, Some(date), Some(content));
    SaveReachesStore(r1.store, date, content);
    UpsertIsIdempotent(st, date, c);
  }

  lemma UpsertIsIdempotent(st: Store, date: string, c: string)
    requires Valid(st)
    ensures var r1 := Upsert(st, date, c);
            Upsert(r1.store, date, c).store == r1.store
  {
    var r1 := Upsert(st, date, c);
    var i: nat :| OnlyDateAt(r1.store.entries, date, i) && r1.store.entries[i].content == c;
    UpsertExisting(r1.store, date, c, i);
    var e := r1.store.entries;
    assert e[i] == Entry(e[i].id, e[i].date, c);
    assert WithContent(e, i, c) == e;
  }

  /** After a successful save, reading the date back gives the stored,
      trimmed content. */
  lemma SaveThenGet(st: Store, date: string, content: string)
    requires Valid(st)
    requires |date| > 0 && !AllSpace(content)
    ensures var r := SaveEntry(st, Some(date), Some(content));
            var g := GetEntry(r.store, date);
            && g.status == 200
            && g.body.data.entry.date == date
            && g.body.data.entry.content == Trim(content)
  {
    SaveReachesStore(st, date, content);
    var r := Upsert(st, date, Trim(content));
    var i: nat :| OnlyDateAt(r.store.entries, date, i)
                  && r.store.entries[i].content == Trim(content);
    var g := GetEntry(r.store, date);
    assert g.status == 200;
  }

  /** Creating an entry for a new date and then deleting it by the id it
      was given restores the collection exactly. */
  lemma CreateThenDeleteRestores(st: Store, date: string, content: string)
    requires Valid(st)
    requires |date| > 0 && !AllSpace(content)
    requires forall k :: 0 <= k < |st.entries| ==> st.entries[k].date != date
    ensures var r1 := SaveEntry(st, Some(date), Some(content));
            var r2 := DeleteEntry(r1.store, st.nextId);
            && r1.response.status == 201
            && r1.response.body.data.entry.id == st.nextId
            && r2.response.status == 200
            && r2.store.entries == st.entries
  {
    SaveReachesStore(st, date, content);
    UpsertNew(st, date, Trim(content));
    var s1 := st.entries + [Entry(st.nextId, date, Trim(content))];
    DeleteLast(Store(s1, st.nextId + 1), st.nextId);
  }

  /** Deleting the last entry by its id, when no other entry has that id,
      drops exactly that entry. */
  lemma DeleteLast(st: Store, id: nat)
    requires |st.entries| > 0 && st.entries[|st.entries| - 1].id == id
    requires forall k :: 0 <= k < |st.entries| - 1 ==> st.entries[k].id != id
    ensures DeleteEntry(st, id).response.status == 200
    ensures DeleteEntry(st, id).store.entries == st.entries[..|st.entries| - 1]
  {
    var s := st.entries;
    var r := DeleteEntry(st, id);
    var i :| 0 <= i < |s| && s[i].id == id && r.store.entries == s[..i] + s[i + 1..];
    assert i == |s| - 1;
  }

  /** Updating an entry by id and then updating it back to its former
      content restores the collection exactly. */
  lemma UpdateThenRevertRestores(st: Store, id: nat, content: string, i: nat)
    requires Valid(st)
    requires !AllSpace(content)
    requires i < |st.entries| && st.entries[i].id == id
    ensures var r1 := UpdateEntry(st, id, Some(content));
            && r1.response.status == 200
            && UpdateEntry(r1.store, id, Some(st.entries[i].content)).store == st
  {
    var c := Trim(content);
    var former := st.entries[i].content;
    TrimOfTrimmed(former);
    TrimEmptyIffAllSpace(former);
    var r1 := UpdateEntry(st, id, Some(content));
    assert r1 == ReplaceContent(st, id, c);
    var r2 := UpdateEntry(r1.store, id, Some(former));
    assert r2 == ReplaceContent(r1.store, id, former);
    ReplaceThenRevert(st, id, c, i);
  }

  /** The store step of the above. */
  lemma ReplaceThenRevert(st: Store, id: nat, content: string, i: nat)
    requires Valid(st)
    requires i < |st.entries| && st.entries[i].id == id
    ensures var r1 := ReplaceContent(st, id, content);
            && r1.response.status == 200
            && ReplaceContent(r1.store, id, st.entries[i].content).store == st
  {
    ReplaceAt(st, id, content, i);
    var s1 := WithContent(st.entries, i, content);
    ReplaceAt(Store(s1, st.nextId), id, st.entries[i].content, i);
    assert WithContent(s1, i, st.entries[i].content) == st.entries;
  }

  /** Replacing by the id of the entry at `i`, when no other entry has it,
      replaces that entry's content. */
  lemma ReplaceAt(st: Store, id: nat, content: string, i: nat)
    requires i < |st.entries| && st.entries[i].id == id
    requires forall k :: 0 <= k < |st.entries| && k != i ==> st.entries[k].id != id
    ensures ReplaceContent(st, id, content).response.status == 200
    ensures ReplaceContent(st, id, content).store
            == Store(WithContent(st.entries, i, content), st.nextId)
  {
    var r := ReplaceContent(st, id, content);
    var j: nat :| ContentChangedAt(st.entries, r.store.entries, j, content)
                  && st.entries[j].id == id;
    assert j == i;
    assert r.store.entries == WithContent(st.entries, i, content);
  }

  /** The listing is determined by the store: any arrangement of the stored
      entries newest date first is exactly what GET /api/entries returns. */
  lemma ListingIsTheDescendingArrangement(st: Store, arranged: seq<Entry>)
    requires Valid(st)
    requires multiset(arranged) == multiset(st.entries) && DateDescending(arranged)
    ensures ListEntries(st).body.data.entries == arranged
  {
    var listed := ListEntries(st).body.data.entries;
    assert DistinctDates(st.entries);
    DistinctDatesOfPermutation(st.entries, listed);
    DescendingArrangementUnique(listed, arranged);
  }

  /** Distinct dates survive rearrangement. */
  lemma DistinctDatesOfPermutation(a: seq<Entry>, b: seq<Entry>)
    requires DistinctDates(a) && multiset(a) == multiset(b)
    ensures DistinctDates(b)
  {
    forall i, j | 0 <= i < j < |b|
      ensures b[i].date != b[j].date
    {
      assert b[i] in multiset(a) && b[j] in multiset(a);
      var p :| 0 <= p < |a| && a[p] == b[i];
      var q :| 0 <= q < |a| && a[q] == b[j];
      if p == q {
        assert multiset(b)[b[i]] >= 2 by {
          assert b == b[..j] + b[j..];
          assert b[i] in b[..j];
          assert multiset(b[..j])[b[i]] >= 1;
          assert multiset(b[j..])[b[i]] >= 1 by {
            assert b[j..][0] == b[i];
          }
        }
        DistinctDatesNoDuplicates(a, p);
      }
    }
  }

  /** With distinct dates, each entry occurs once. */
  lemma DistinctDatesNoDuplicates(a: seq<Entry>, p: nat)
    requires DistinctDates(a) && p < |a|
    ensures multiset(a)[a[p]] == 1
  {
    assert a == a[..p] + [a[p]] + a[p + 1..];
    forall k | 0 <= k < |a| && k != p
      ensures a[k] != a[p]
    {
      if k < p {
        assert a[k].date != a[p].date;
      } else {
        assert a[p].date != a[k].date;
      }
    }
    assert a[p] !in a[..p];
    assert a[p] !in a[p + 1..];
  }

  /** The statistics agree with the listing: the latest date is the first
      one listed and the earliest date the last one. */
  lemma StatsAgreeWithListing(st: Store)
    requires |st.entries| > 0
    ensures var listed := ListEntries(st).body.data.entries;
            var stats := GetStats(st).body.data.stats;
            && |listed| == |st.entries|
            && stats.lastEntryDate == Some(listed[0].date)
            && stats.firstEntryDate == Some(listed[|listed| - 1].date)
  {
    var listed := SortByDateDesc(st.entries);
    assert |listed| == |multiset(listed)| == |st.entries|;
    LatestIsListedFirst(st.entries, listed);
    EarliestIsListedLast(st.entries, listed);
  }

  /** In any date-descending arrangement, the first date is the latest. */
  lemma LatestIsListedFirst(s: seq<Entry>, listed: seq<Entry>)
    requires |s| > 0 && multiset(listed) == multiset(s) && DateDescending(listed)
    ensures |listed| > 0 && LatestDate(s) == listed[0].date
  {
    assert |listed| == |multiset(listed)| == |s|;
    var d := LatestDate(s);
    var a := LatestIndex(s);
    var ia := IndexIn(listed, s[a]);
    if ia == 0 {
      LexLeReflexive(d);
    } else {
      assert LexLe(listed[ia].date, listed[0].date);
    }
    var p := IndexIn(s, listed[0]);
    assert LexLe(s[p].date, d);
    LexLeAntisymmetric(d, listed[0].date);
  }

  /** In any date-descending arrangement, the last date is the earliest. */
  lemma EarliestIsListedLast(s: seq<Entry>, listed: seq<Entry>)
    requires |s| > 0 && multiset(listed) == multiset(s) && DateDescending(listed)
    ensures |listed| > 0 && EarliestDate(s) == listed[|listed| - 1].date
  {
    assert |listed| == |multiset(listed)| == |s|;
    var d := EarliestDate(s);
    var n := |listed| - 1;
    var b := EarliestIndex(s);
    var ib := IndexIn(listed, s[b]);
    if ib == n {
      LexLeReflexive(d);
    } else {
      assert LexLe(listed[n].date, listed[ib].date);
    }
    var q := IndexIn(s, listed[n]);
    assert LexLe(d, s[q].date);
    LexLeAntisymmetric(d, listed[n].date);
  }

  /** A position at which `x`, an element of the multiset of `s`, occurs. */
  lemma IndexIn(s: seq<Entry>, x: Entry) returns (k: nat)
    requires x in multiset(s)
    ensures k < |s| && s[k] == x
  {
    assert x in s;
    k :| 0 <= k < |s| && s[k] == x;
  }

  /** On a valid store the word total of the statistics is the sum of the
      entries' word counts. */
  lemma StatsCountWords(st: Store)
    requires Valid(st)
    ensures GetStats(st).body.data.stats.totalWords == SumWordCounts(st.entries)
  {
    TotalWordsCountsWords(st.entries);
  }

  /** The end-to-end example of the API: the first save of "Hi" for
      2024-01-01 creates the entry, the save of "Hi again" updates it. The
      strings are parameters fixed by the precondition, which keeps the
      verifier from evaluating the handlers on literals. */
  lemma SaveExample(date: string, first: string, second: string)
    requires date == "2024-01-01" && first == "Hi" && second == "Hi again"
    ensures var r1 := SaveEntry(EmptyStore(), Some(date), Some(first));
            var r2 := SaveEntry(r1.store, Some(date), Some(second));
            && r1.response.status == 201
            && r1.store.entries == [Entry(0, date, first)]
            && r2.response.status == 200
            && r2.store.entries == [Entry(0, date, second)]
  {
    GreetingsAreTrimmed();
    SaveTwiceOnEmpty(EmptyStore(), date, first, second);
  }

  /** On a store with no entries, two saves for one date create and then
      update a single entry, which gets the counter's id. */
  lemma SaveTwiceOnEmpty(st: Store, date: string, first: string, second: string)
    requires |st.entries| == 0
    requires |date| > 0 && !AllSpace(first) && !AllSpace(second)
    ensures var r1 := SaveEntry(st, Some(date), Some(first));
            var r2 := SaveEntry(r1.store, Some(date), Some(second));
            && r1.response.status == 201
            && r1.store.entries == [Entry(st.nextId, date, Trim(first))]
            && r2.response.status == 200
            && r2.store.entries == [Entry(st.nextId, date, Trim(second))]
  {
    FirstSaveOnEmpty(st, date, first);
    SaveOverSingle(st.nextId, date, Trim(first), second);
  }

  /** The first save on a store with no entries creates the entry. */
  lemma FirstSaveOnEmpty(st: Store, date: string, content: string)
    requires |st.entries| == 0
    requires |date| > 0 && !AllSpace(content)
    ensures var r := SaveEntry(st, Some(date), Some(content));
            && r.response.status == 201
            && r.store == Store([Entry(st.nextId, date, Trim(content))], st.nextId + 1)
  {
    SaveReachesStore(st, date, content);
    UpsertNew(st, date, Trim(content));
  }

  /** A save for the date of the only entry updates that entry. */
  lemma SaveOverSingle(id: nat, date: string, former: string, content: string)
    requires |date| > 0 && !AllSpace(content)
    ensures var r := SaveEntry(Store([Entry(id, date, former)], id + 1), Some(date), Some(content));
            && r.response.status == 200
            && r.store.entries == [Entry(id, date, Trim(content))]
  {
    var st := Store([Entry(id, date, former)], id + 1);
    SaveReachesStore(st, date, content);
    UpsertExisting(st, date, Trim(content), 0);
    assert WithContent(st.entries, 0, Trim(content)) == [Entry(id, date, Trim(content))];
  }

  /** "Hi" and "Hi again" are not blank and are already trimmed. */
  lemma GreetingsAreTrimmed()
    ensures Trim("Hi") == "Hi" && !AllSpace("Hi")
    ensures Trim("Hi again") == "Hi again" && !AllSpace("Hi again")
  {
    TrimOfTrimmed("Hi");
    TrimOfTrimmed("Hi again");
    assert !IsSpace("Hi"[0]);
    assert !IsSpace("Hi again"[0]);
  }

  /** The statistics example: contents "a b" and "c d e" have 5 words in
      all, 3 per entry once 2.5 is rounded. */
  lemma StatsExample()
    ensures var st := Store([Entry(0, "2024-01-01", "a b"), Entry(1, "2024-01-02", "c d e")], 2);
            var stats := GetStats(st).body.data.stats;
            && stats.totalEntries == 2
            && stats.totalWords == 5
            && stats.avgWordsPerEntry == 3
  {
    var s := [Entry(0, "2024-01-01", "a b"), Entry(1, "2024-01-02", "c d e")];
    assert s[..1] == [Entry(0, "2024-01-01", "a b")];
    assert s[..1][..0] == [];
    SplitExample();
    assert TotalWords(s[..1]) == 2;
    assert TotalWords(s) == 5;
  }

  /** `split(/\s+/)` gives two pieces for "a b" and three for "c d e". */
  lemma SplitExample()
    ensures SplitLength("a b") == 2 && SplitLength("c d e") == 3
  {
    assert !IsSpace('a') && !IsSpace('b') && !IsSpace('c') && !IsSpace('d') && !IsSpace('e');
    assert IsSpace(' ');
    assert "a b"[..2] == "a " && "a "[..1] == "a";
    assert Runs("a", true) == 0;
    assert Runs("a ", true) == 1;
    assert Runs("a b", true) == 1;
    assert "c d e"[..4] == "c d " && "c d "[..3] == "c d" && "c d"[..2] == "c " && "c "[..1] == "c";
    assert Runs("c", true) == 0;
    assert Runs("c ", true) == 1;
    assert Runs("c d", true) == 1;
    assert Runs("c d ", true) == 2;
    assert Runs("c d e", true) == 2;
  }
}
