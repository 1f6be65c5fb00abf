/**
  The REST handlers of the journal backend, each a pure transition from the
  store and a request to a response and the next store. A response is the
  HTTP status and the uniform envelope `{success, message?, data?, count?}`.
 */
module Handlers {
  import opened Options
  import opened Text
  import opened DateOrder
  import opened Entries
  import opened Listing
  import opened Statistics

  datatype Data =
    | NoData
    | OneEntry(entry: Entry)
    | EntryList(entries: seq<Entry>)
    | Summary(stats: Stats)

  datatype Envelope = Envelope(success: bool, message: Option<string>, data: Data, count: Option<nat>)

  datatype Response = Response(status: nat, body: Envelope)

  datatype Reply = Reply(response: Response, store: Store)

  const NoEntryForDate := "No entry found for this date"
  const DateAndContentRequired := "Date and content are required"
  const ContentCannotBeEmpty := "Content cannot be empty"
  const EntryUpdated := "Journal entry updated successfully"
  const EntryCreated := "Journal entry created successfully"
  const ContentRequired := "Content is required"
  const EntryNotFound := "Journal entry not found"
  const EntryDeleted := "Journal entry deleted successfully"
  const QueryRequired := "Search query is required"

  /** A failed request: `res.status(status).json({success: false, message})`. */
  function Failure(status: nat, message: string): Response {
    Response(status, Envelope(false, Some(message), NoData, None))
  }

  /** JavaScript's `!v` on a request field that is absent or a string: true
      for `undefined`, `null` and the empty string. */
  predicate Falsy(v: Option<string>) {
    v.None? || v.value == ""
  }

  /** `!v || v.trim().length === 0`: the field is absent, empty or white
      space only. */
  predicate Blank(v: Option<string>)
    ensures Blank(v) <==> v.None? || AllSpace(v.value)
  {
    TrimEmptyIffAllSpace(if v.None? then "" else v.value);
    Falsy(v) || |Trim(v.value)| == 0
  }

  /** GET /api/entries: every entry, newest date first. */
  function ListEntries(st: Store): (r: Response)
    ensures r.status == 200 && r.body.success && r.body.data.EntryList?
    ensures multiset(r.body.data.entries) == multiset(st.entries)
    ensures DateDescending(r.body.data.entries)
  {
    Response(200, Envelope(true, None, EntryList(SortByDateDesc(st.entries)), None))
  }

  /** GET /api/entries/:date: the entry stored for `date`, or 404. */
  function GetEntry(st: Store, date: string): (r: Response)
    ensures r.status == 404 <==> forall k :: 0 <= k < |st.entries| ==> st.entries[k].date != date
    ensures r.status == 404 ==> r == Failure(404, NoEntryForDate)
    ensures r.status != 404 ==>
              && r.status == 200 && r.body.success && r.body.data.OneEntry?
              && r.body.data.entry in st.entries && r.body.data.entry.date == date
    ensures r.status == 200 && Valid(st) ==>
              forall k :: 0 <= k < |st.entries| && st.entries[k].date == date ==>
                st.entries[k] == r.body.data.entry
  {
    match IndexOfDate(st.entries, date)
    case None => Failure(404, NoEntryForDate)
    case Some(i) =>
      assert Valid(st) ==> OnlyDateAt(st.entries, date, i) by {
        if Valid(st) {
          FoundDateIsUnique(st, date);
        }
      }
      Response(200, Envelope(true, None, OneEntry(st.entries[i]), None))
  }

  /** POST /api/entries: reject a request whose `date` or `content` is
      missing or empty, or whose `content` is white space only; otherwise
      store the trimmed content for the date (see `Upsert`). */
  function SaveEntry(st: Store, date: Option<string>, content: Option<string>): (r: Reply)
    ensures Falsy(date) || Falsy(content) ==>
              r == Reply(Failure(400, DateAndContentRequired), st)
    ensures !Falsy(date) && !Falsy(content) && AllSpace(content.value) ==>
              r == Reply(Failure(400, ContentCannotBeEmpty), st)
    ensures r.response.status == 400 <==> Falsy(date) || Blank(content)
    ensures !Falsy(date) && !Blank(content) ==>
              && |Trim(content.value)| > 0
              && r == Upsert(st, date.value, Trim(content.value))
    ensures Valid(st) ==> Valid(r.store)
  {
    if Falsy(date) || Falsy(content) then
      Reply(Failure(400, DateAndContentRequired), st)
    else if |Trim(content.value)| == 0 then
      TrimEmptyIffAllSpace(content.value);
      Reply(Failure(400, ContentCannotBeEmpty), st)
    else
      TrimEmptyIffAllSpace(content.value);
      var c := Trim(content.value);
      assert |c| > 0 && NoEdgeSpace(c);
      Upsert(st, date.value, c)
  }

  /** The store side of POST /api/entries, once the fields are validated:
      if an entry exists for `date`, set its content (200); otherwise add a
      new entry with a fresh id (201). */
  function Upsert(st: Store, date: string, content: string): (r: Reply)
    ensures r.response.status in {200, 201}
    ensures r.response.status == 200 <==>
              exists k :: 0 <= k < |st.entries| && st.entries[k].date == date
    ensures r.response.status == 200 ==>
              && r.store.nextId == st.nextId
              && exists i: nat :: ContentChangedAt(st.entries, r.store.entries, i, content)
                             && st.entries[i].date == date
                             && r.response.body == Envelope(true, Some(EntryUpdated), OneEntry(r.store.entries[i]), None)
    ensures r.response.status == 201 ==>
              var e := Entry(st.nextId, date, content);
              && r.store == Store(st.entries + [e], st.nextId + 1)
              && r.response.body == Envelope(true, Some(EntryCreated), OneEntry(e), None)
    ensures Valid(st) ==>
              exists i: nat :: OnlyDateAt(r.store.entries, date, i) && r.store.entries[i].content == content
    ensures Valid(st) && |date| > 0 && |content| > 0 && NoEdgeSpace(content) ==> Valid(r.store)
  {
    match IndexOfDate(st.entries, date)
    case Some(i) =>
      var entries := WithContent(st.entries, i, content);
      var st' := Store(entries, st.nextId);
      assert ContentChangedAt(st.entries, entries, i, content);
      assert Valid(st) ==> OnlyDateAt(entries, date, i) by {
        if Valid(st) {
          FoundDateIsUnique(st, date);
        }
      }
      assert Valid(st) && |content| > 0 && NoEdgeSpace(content) ==> Valid(st') by {
        if Valid(st) && |content| > 0 && NoEdgeSpace(content) {
          ValidAfterContentChange(st, entries, i, content);
        }
      }
      Reply(Response(200, Envelope(true, Some(EntryUpdated), OneEntry(entries[i]), None)), st')
    case None =>
      var e := Entry(st.nextId, date, content);
      var st' := Store(st.entries + [e], st.nextId + 1);
      assert OnlyDateAt(st'.entries, date, |st.entries|);
      assert Valid(st) && WellFormed(e) ==> Valid(st') by {
        if Valid(st) && WellFormed(e) {
          ValidAfterInsert(st, e);
        }
      }
      Reply(Response(201, Envelope(true, Some(EntryCreated), OneEntry(e), None)), st')
  }

  /** PUT /api/entries/:id: reject absent, empty or white-space-only
      content; otherwise store its trimmed form in the entry with `id`
      (see `ReplaceContent`). */
  function UpdateEntry(st: Store, id: nat, content: Option<string>): (r: Reply)
    ensures r.response.status == 400 <==> Blank(content)
    ensures Blank(content) ==> r == Reply(Failure(400, ContentRequired), st)
    ensures !Blank(content) ==>
              && |Trim(content.value)| > 0
              && r == ReplaceContent(st, id, Trim(content.value))
    ensures Valid(st) ==> Valid(r.store)
  {
    if Blank(content) then
      Reply(Failure(400, ContentRequired), st)
    else
      TrimEmptyIffAllSpace(content.value);
      var c := Trim(content.value);
      assert |c| > 0 && NoEdgeSpace(c);
      ReplaceContent(st, id, c)
  }

  /** The store side of PUT /api/entries/:id, once the content is
      validated: `findByIdAndUpdate` sets the content of the entry with
      `id` (200), or finds none (404). */
  function ReplaceContent(st: Store, id: nat, content: string): (r: Reply)
    ensures r.response.status in {200, 404}
    ensures r.response.status == 404 <==> forall k :: 0 <= k < |st.entries| ==> st.entries[k].id != id
    ensures r.response.status == 404 ==> r == Reply(Failure(404, EntryNotFound), st)
    ensures r.response.status == 200 ==>
              && r.store.nextId == st.nextId
              && exists i: nat :: ContentChangedAt(st.entries, r.store.entries, i, content)
                                  && st.entries[i].id == id
                                  && r.response.body == Envelope(true, Some(EntryUpdated), OneEntry(r.store.entries[i]), None)
    ensures Valid(st) && |content| > 0 && NoEdgeSpace(content) ==> Valid(r.store)
  {
    match IndexOfId(st.entries, id)
    case None => Reply(Failure(404, EntryNotFound), st)
    case Some(i) =>
      var entries := WithContent(st.entries, i, content);
      assert ContentChangedAt(st.entries, entries, i, content);
      assert Valid(st) && |content| > 0 && NoEdgeSpace(content) ==> Valid(Store(entries, st.nextId)) by {
        if Valid(st) && |content| > 0 && NoEdgeSpace(content) {
          ValidAfterContentChange(st, entries, i, content);
        }
      }
      Reply(Response(200, Envelope(true, Some(EntryUpdated), OneEntry(entries[i]), None)),
            Store(entries, st.nextId))
  }

  /** DELETE /api/entries/:id: remove the entry with `id`. */
  function DeleteEntry(st: Store, id: nat): (r: Reply)
    ensures r.response.status in {200, 404}
    ensures r.response.status == 404 <==> forall k :: 0 <= k < |st.entries| ==> st.entries[k].id != id
    ensures r.response.status == 404 ==> r == Reply(Failure(404, EntryNotFound), st)
    ensures r.response.status == 200 ==>
              && r.response.body == Envelope(true, Some(EntryDeleted), NoData, None)
              && r.store.nextId == st.nextId
              && exists i :: 0 <= i < |st.entries| && st.entries[i].id == id
                             && r.store.entries == st.entries[..i] + st.entries[i + 1..]
    ensures Valid(st) ==> Valid(r.store)
    ensures Valid(st) ==> forall k :: 0 <= k < |r.store.entries| ==> r.store.entries[k].id != id
  {
    match IndexOfId(st.entries, id)
    case None => Reply(Failure(404, EntryNotFound), st)
    case Some(i) =>
      var entries := Without(st.entries, i);
      assert Valid(st) ==> forall k :: 0 <= k < |entries| ==> entries[k].id != id by {
        if Valid(st) {
          forall k | 0 <= k < |entries|
            ensures entries[k].id != id
          {
            if k < i {
              assert entries[k] == st.entries[k];
            } else {
              assert entries[k] == st.entries[k + 1];
            }
          }
        }
      }
      Reply(Response(200, Envelope(true, Some(EntryDeleted), NoData, None)), Store(entries, st.nextId))
  }

  /** GET /api/stats. */
  function GetStats(st: Store): (r: Response)
    ensures r.status == 200 && r.body.success && r.body.data.Summary?
    ensures r.body.data.stats == Summarize(st.entries)
  {
    Response(200, Envelope(true, None, Summary(Summarize(st.entries)), None))
  }

  /** GET /api/search?q=: the entries whose content `matches` the query,
      newest date first, with their number. */
  function SearchEntries(st: Store, q: Option<string>, matches: (string, string) -> bool): (r: Response)
    ensures r.status in {200, 400}
    ensures r.status == 400 <==> Blank(q)
    ensures r.status == 400 ==> r == Failure(400, QueryRequired)
    ensures r.status == 200 ==>
              && r.body.success && r.body.data.EntryList?
              && r.body.count == Some(|r.body.data.entries|)
              && DateDescending(r.body.data.entries)
              && forall e :: multiset(r.body.data.entries)[e]
                             == if matches(e.content, q.value) then multiset(st.entries)[e] else 0
  {
    if Blank(q) then
      Failure(400, QueryRequired)
    else
      var found := SortByDateDesc(Matching(st.entries, q.value, matches));
      Response(200, Envelope(true, None, EntryList(found), Some(|found|)))
  }

  /** The routes of the API. */
  datatype Request =
    | ListAll
    | GetByDate(day: string)
    | Save(date: Option<string>, content: Option<string>)
    | Update(id: nat, content: Option<string>)
    | Delete(id: nat)
    | GetStatistics
    | Search(q: Option<string>)

  /** Reads leave the store alone. */
  predicate IsRead(req: Request) {
    req.ListAll? || req.GetByDate? || req.GetStatistics? || req.Search?
  }

  /** Dispatches a request to its handler. Every handler keeps the store
      invariant, and reads do not change the store. */
  function Handle(st: Store, req: Request, matches: (string, string) -> bool): (r: Reply)
    ensures Valid(st) ==> Valid(r.store)
    ensures IsRead(req) ==> r.store == st
  {
    match req
    case ListAll => Reply(ListEntries(st), st)
    case GetByDate(day) => Reply(GetEntry(st, day), st)
    case Save(date, content) => SaveEntry(st, date, content)
    case Update(id, content) => UpdateEntry(st, id, content)
    case Delete(id) => DeleteEntry(st, id)
    case GetStatistics => Reply(GetStats(st), st)
    case Search(q) => Reply(SearchEntries(st, q, matches), st)
  }
}
