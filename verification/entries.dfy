/**
  The journal entry collection: one record per date, with trimmed non-empty
  content. The persistent collection is a sequence in natural (insertion)
  order together with the counter that hands out fresh ids.
 */
module Entries {
  import opened Options
  import opened Text

  /** One journal entry. The timestamps `createdAt` and `updatedAt` are not
      modelled. */
  datatype Entry = Entry(id: nat, date: string, content: string)

  /** The collection, and the id the next inserted entry receives. */
  datatype Store = Store(entries: seq<Entry>, nextId: nat)

  /** The schema's per-entry constraints: `date` is a required string,
      `content` a required string that is stored trimmed. */
  predicate WellFormed(e: Entry) {
    |e.date| > 0 && |e.content| > 0 && NoEdgeSpace(e.content)
  }

  /** The store invariant: every entry is well formed and has an id below
      the counter, and no two entries share a date (the unique index on
      `date`) or an id. */
  predicate Valid(st: Store) {
    && (forall i :: 0 <= i < |st.entries| ==>
          WellFormed(st.entries[i]) && st.entries[i].id < st.nextId)
    && (forall i, j :: 0 <= i < j < |st.entries| ==>
          st.entries[i].date != st.entries[j].date && st.entries[i].id != st.entries[j].id)
  }

  /** The empty collection. */
  function EmptyStore(): (st: Store)
    ensures Valid(st) && |st.entries| == 0
  {
    Store([], 0)
  }

  /** The position of the first entry, in natural order, that satisfies
      `p`: what `findOne(filter)` returns without a sort. */
  function FindFirst(s: seq<Entry>, p: Entry -> bool): (r: Option<nat>)
    ensures r.Some? ==> r.value < |s| && p(s[r.value])
    ensures r.Some? ==> forall k :: 0 <= k < r.value ==> !p(s[k])
    ensures r.None? ==> forall k :: 0 <= k < |s| ==> !p(s[k])
  {
    if |s| == 0 then None
    else if p(s[0]) then Some(0)
    else match FindFirst(s[1..], p)
      case None => None
      case Some(k) => Some(k + 1)
  }

  /** The position of the entry for `date`, if any: `findOne({ date })`. */
  function IndexOfDate(s: seq<Entry>, date: string): (r: Option<nat>)
    ensures r.Some? ==> r.value < |s| && s[r.value].date == date
    ensures r.None? <==> forall k :: 0 <= k < |s| ==> s[k].date != date
  {
    FindFirst(s, (e: Entry) => e.date == date)
  }

  /** The position of the entry with identifier `id`, if any: the lookup of
      `findByIdAndUpdate` and `findByIdAndDelete`. */
  function IndexOfId(s: seq<Entry>, id: nat): (r: Option<nat>)
    ensures r.Some? ==> r.value < |s| && s[r.value].id == id
    ensures r.None? <==> forall k :: 0 <= k < |s| ==> s[k].id != id
  {
    FindFirst(s, (e: Entry) => e.id == id)
  }

  /** Exactly one entry of `s`, the one at `i`, has date `date`. */
  predicate OnlyDateAt(s: seq<Entry>, date: string, i: nat) {
    && i < |s|
    && s[i].date == date
    && forall k :: 0 <= k < |s| && k != i ==> s[k].date != date
  }

  /** In a valid store, the entry found for a date is the only one with
      that date. */
  lemma FoundDateIsUnique(st: Store, date: string)
    requires Valid(st)
    requires IndexOfDate(st.entries, date).Some?
    ensures OnlyDateAt(st.entries, date, IndexOfDate(st.entries, date).value)
  {
    var i := IndexOfDate(st.entries, date).value;
    forall k | 0 <= k < |st.entries| && k != i
      ensures st.entries[k].date != date
    {
      if k < i {
        assert st.entries[k].date != st.entries[i].date;
      } else {
        assert st.entries[i].date != st.entries[k].date;
      }
    }
  }

  /** The collection with the content of the entry at `i` replaced. */
  function WithContent(s: seq<Entry>, i: nat, content: string): (r: seq<Entry>)
    requires i < |s|
    ensures |r| == |s|
    ensures r[i] == Entry(s[i].id, s[i].date, content)
    ensures forall k :: 0 <= k < |s| && k != i ==> r[k] == s[k]
  {
    s[i := s[i].(content := content)]
  }

  /** The collection with the entry at `i` removed, the others in order. */
  function Without(s: seq<Entry>, i: nat): (r: seq<Entry>)
    requires i < |s|
    ensures |r| == |s| - 1
    ensures forall k :: 0 <= k < i ==> r[k] == s[k]
    ensures forall k :: i <= k < |r| ==> r[k] == s[k + 1]
    ensures multiset(r) + multiset{s[i]} == multiset(s)
  {
    assert s == s[..i] + [s[i]] + s[i + 1..];
    s[..i] + s[i + 1..]
  }

  /** `before` and `after` hold the same entries in the same places, except
      that the content of the entry at `i` is now `content`. */
  predicate ContentChangedAt(before: seq<Entry>, after: seq<Entry>, i: nat, content: string) {
    && |after| == |before|
    && i < |before|
    && after[i] == Entry(before[i].id, before[i].date, content)
    && forall k :: 0 <= k < |before| && k != i ==> after[k] == before[k]
  }

  /** Appending an entry with a fresh id and a date not yet stored keeps
      the invariant. */
  lemma ValidAfterInsert(st: Store, e: Entry)
    requires Valid(st) && WellFormed(e) && e.id == st.nextId
    requires forall k :: 0 <= k < |st.entries| ==> st.entries[k].date != e.date
    ensures Valid(Store(st.entries + [e], st.nextId + 1))
  {
  }

  /** Replacing one entry's content by trimmed non-empty text keeps the
      invariant: ids and dates are untouched. */
  lemma ValidAfterContentChange(st: Store, after: seq<Entry>, i: nat, content: string)
    requires Valid(st) && ContentChangedAt(st.entries, after, i, content)
    requires |content| > 0 && NoEdgeSpace(content)
    ensures Valid(Store(after, st.nextId))
  {
  }

  /** Removing an entry keeps the invariant. */
  lemma ValidAfterRemove(st: Store, i: nat)
    requires Valid(st) && i < |st.entries|
    ensures Valid(Store(Without(st.entries, i), st.nextId))
  {
  }
}
