# Daily journal entry store, in Dafny

This project models the backend of a single-user daily journal. The backend
is a set of REST handlers over one collection of journal entries. Each entry
has an id, a `date` string that is unique across the collection, and
trimmed, non-empty `content`.

The model treats the collection as a state machine. A `Store` is the
sequence of entries in natural (insertion) order plus the counter that hands
out fresh ids. Every handler is a pure function from a store and a request
to a `Response` (HTTP status and the `{success, message?, data?, count?}`
envelope) and the next store:

- `GET /api/entries` lists every entry, newest date first.
- `GET /api/entries/:date` looks up the entry for a date.
- `POST /api/entries` validates `date` and `content`, then updates the entry
  for that date or creates one.
- `PUT /api/entries/:id` and `DELETE /api/entries/:id` update and remove by id.
- `GET /api/stats` gives the count, the word totals and average, and the
  earliest and latest dates.
- `GET /api/search?q=` validates the query and returns the matching entries,
  newest first.

Modules, one per concept:

- `Text` (text.dfy): white space, `trim` and `split(/\s+/).length`.
- `DateOrder` (dates.dfy): the string order used to sort by date.
- `Entries` (entries.dfy): entries, the store and its invariant `Valid`.
- `Listing` (listing.dfy): sorting by date descending, and the search filter.
- `Statistics` (stats.dfy): the statistics.
- `Handlers` (handlers.dfy): the routes and the dispatcher `Handle`.
- `Properties` (properties.dfy): properties that relate several requests.

Modelling choices:

- White space is the ECMAScript set that both `trim` and `\s` use:
  WhiteSpace plus LineTerminator code points.
- `content.split(/\s+/).length` is one more than the number of maximal
  white-space runs. That count includes the empty pieces a leading or
  trailing run produces. `Text.SplitLengthOfTrimmed` shows that for stored
  content it equals the number of words.
- Dates compare as strings, code point by code point, with a proper prefix
  first. MongoDB compares strings by their UTF-8 bytes, and UTF-8 byte order
  is code point order.
- `Math.round(a / b)` for `a >= 0` and `b > 0` is `(2a + b) / (2b)` on
  integers. `Statistics.RoundedRatio` states the rounding property it
  satisfies.
- A request field that the code tests with `!x` is an `Option<string>`.
  `None` stands for `undefined` or `null`, so `!x` holds for `None` and for
  the empty string.
- `$regex` matching for search is a parameter `matches(content, q)` of the
  search handler and of `Handle`.
- Ids are natural numbers handed out by a counter. They stand in for MongoDB
  ObjectIds, which are unique but otherwise opaque.

Behaviour of the code that the model keeps:

- Search passes `q` to `$regex` as a pattern with the `i` option
  (journal_backend.js:285-286), so matching is a parameter of the model.
- POST rejects content that is white space only with its own message,
  after the missing-field check (journal_backend.js:117-122).
- `totalWords` counts `split(/\s+/)` pieces (journal_backend.js:250). That
  equals the word count on trimmed non-empty text, which is all the store
  holds (`Statistics.TotalWordsCountsWords`).

## Model

| member | source | states |
|---|---|---|
| `Text.IsSpace` | journal_backend.js:117 | the white-space set of `trim` and of `\s`: the ECMAScript WhiteSpace and LineTerminator code points |
| `Text.TrimStart` | journal_backend.js:129 | the result is a suffix of the input; everything dropped is white space; the result does not start with white space |
| `Text.TrimEnd` | journal_backend.js:129 | the result is a prefix of the input; everything dropped is white space; the result does not end with white space |
| `Text.Trim` | journal_backend.js:129 | `trim()` returns a slice with no white space at either edge, and only white space is cut off before and after it |
| `Text.TrimEmptyIffAllSpace` | journal_backend.js:117 | `content.trim().length === 0` holds exactly when the content is white space only, in both directions |
| `Text.TrimOfTrimmed` | journal_backend.js:33-37 | trimming content that has no white space at its edges (the schema's `trim: true` form) returns it unchanged |
| `Text.TrimIdempotent` | journal_backend.js:36 | trimming twice gives the same result as trimming once |
| `Text.RunsAlternate` | journal_backend.js:250 | in a non-empty string, word runs minus white-space runs is fixed by whether the first and last characters are white space |
| `Text.SplitLengthOfTrimmed` | journal_backend.js:250 | on trimmed non-empty content, `split(/\s+/).length` equals the number of words |
| `Text.SplitLength` | journal_backend.js:250 | `split(/\s+/).length`: one piece more than there are white-space runs, so never less than 1 |
| `DateOrder.LexLe` | journal_backend.js:62 | the string order of `sort({date: ±1})`: code point by code point, a proper prefix first |
| `DateOrder.LexLeReflexive` | journal_backend.js:62 | the date order is reflexive |
| `DateOrder.LexLeTotal` | journal_backend.js:62 | any two dates are comparable |
| `DateOrder.LexLeAntisymmetric` | journal_backend.js:62 | two dates that sort at or before each other are equal |
| `DateOrder.LexLeTransitive` | journal_backend.js:62 | the date order is transitive |
| `Entries.Valid` | journal_backend.js:27-46 | the schema and its unique index: every entry has a non-empty date and trimmed non-empty content, and no two entries share a date or an id |
| `Entries.EmptyStore` | journal_backend.js:27-46 | the empty collection satisfies the schema constraints and the unique-date index |
| `Entries.FindFirst` | journal_backend.js:82 | `findOne` gives the first matching entry in natural order, or none exactly when no entry matches |
| `Entries.IndexOfDate` | journal_backend.js:82 | `findOne({date})` finds an entry with that date, and finds none exactly when no entry has it |
| `Entries.IndexOfId` | journal_backend.js:183-190 | the lookup of `findByIdAndUpdate` and `findByIdAndDelete` finds an entry with that id, and finds none exactly when no entry has it |
| `Entries.FoundDateIsUnique` | journal_backend.js:31 | in a valid store, the entry found for a date is the only entry with that date |
| `Entries.WithContent` | journal_backend.js:129-131 | setting an entry's content keeps its id and date and every other entry |
| `Entries.Without` | journal_backend.js:218 | removing the entry at a position keeps the others in order; the multiset loses exactly that entry |
| `Entries.ValidAfterInsert` | journal_backend.js:139-145 | adding an entry with a fresh id, a new date and trimmed non-empty content keeps the invariant |
| `Entries.ValidAfterContentChange` | journal_backend.js:183-190 | replacing one entry's content with trimmed non-empty text keeps the invariant |
| `Entries.ValidAfterRemove` | journal_backend.js:218 | removing an entry keeps the invariant |
| `Listing.InsertByDate` | journal_backend.js:62 | inserting into a date-descending sequence keeps it date-descending and adds exactly that entry |
| `Listing.SortByDateDesc` | journal_backend.js:61-62 | `find().sort({date: -1})` returns a permutation of the entries in date-descending order |
| `Listing.Matching` | journal_backend.js:285-286 | the filter keeps each entry as many times as it is stored if its content matches the query, and drops it otherwise |
| `Listing.FirstIsGreatest` | journal_backend.js:62 | in a date-descending sequence every entry's date sorts at or before the first one |
| `Listing.DescendingArrangementUnique` | journal_backend.js:62 | with distinct dates, two date-descending arrangements of the same entries are identical, so the sort order is fully determined |
| `Statistics.TotalWords` | journal_backend.js:249-251 | the `reduce` of `split(/\s+/).length` over the entries; each entry adds at least one, so the total is at least the entry count |
| `Statistics.TotalWordsCountsWords` | journal_backend.js:248-251 | over stored entries, the `split`-based `totalWords` is the sum of the entries' word counts |
| `Statistics.RoundedRatio` | journal_backend.js:252 | `Math.round(a / b)` for a non-negative ratio is the integer `r` with `r - 1/2 <= a/b < r + 1/2`, so halves round up |
| `Statistics.EarliestIndex` | journal_backend.js:244 | `findOne().sort({date: 1})` picks an entry whose date sorts at or before every date |
| `Statistics.LatestIndex` | journal_backend.js:245 | `findOne().sort({date: -1})` picks an entry whose date sorts at or after every date |
| `Statistics.Summarize` | journal_backend.js:243-262 | `totalEntries` is the store size; `avgWordsPerEntry` is 0 for an empty store and otherwise the rounded ratio; first and last dates are absent exactly when the store is empty, and otherwise are stored dates that are least and greatest |
| `Handlers.Falsy` | journal_backend.js:110 | `!v` on a request field: true for an absent field and for the empty string |
| `Handlers.Blank` | journal_backend.js:176 | `!v \|\| v.trim().length === 0` holds exactly when the field is absent or white space only |
| `Handlers.ListEntries` | journal_backend.js:59-68 | GET /api/entries returns 200 with every stored entry (same multiset), in date-descending order |
| `Handlers.GetEntry` | journal_backend.js:79-94 | GET by date returns 404 exactly when no entry has the date; otherwise 200 with a stored entry of that date, which in a valid store is the only one |
| `Handlers.SaveEntry` | journal_backend.js:105-122 | POST with a missing or empty date or content, or whitespace-only content, returns the matching 400 and leaves the store unchanged; otherwise it stores the trimmed content; the invariant is kept |
| `Handlers.Upsert` | journal_backend.js:124-152 | for a stored date: 200, only that entry's content changes and its id and date stay. For a new date: 201, one entry with the next id is appended. Either way exactly one entry then has the date, holding the new content |
| `Handlers.UpdateEntry` | journal_backend.js:171-181 | PUT with absent, empty or whitespace-only content returns 400 and leaves the store unchanged; otherwise it replaces the content with the trimmed input; the invariant is kept |
| `Handlers.ReplaceContent` | journal_backend.js:183-203 | an unknown id gives 404 with the store unchanged; otherwise 200, and only the target entry's content changes while its id and date stay |
| `Handlers.DeleteEntry` | journal_backend.js:214-230 | an absent id gives 404 with the store unchanged; otherwise 200, and exactly that entry is removed with the others kept in order; the invariant is kept |
| `Handlers.GetStats` | journal_backend.js:241-263 | GET /api/stats answers 200 with the statistics of the stored entries |
| `Handlers.SearchEntries` | journal_backend.js:274-293 | an absent, empty or whitespace-only query gives 400; otherwise 200 with exactly the matching stored entries, date-descending, and their count |
| `Handlers.Handle` | journal_backend.js:58-301 | every route keeps the store invariant, and the read routes leave the store unchanged |
| `Properties.UpsertExisting` | journal_backend.js:125-137 | saving to a date held by exactly one entry replaces that entry's content in place and answers 200 |
| `Properties.UpsertNew` | journal_backend.js:139-151 | saving to a date with no entry appends one entry with the next id and answers 201 |
| `Properties.SaveReachesStore` | journal_backend.js:105-152 | a save with a non-empty date and non-blank content stores the trimmed content |
| `Properties.SaveTwiceKeepsOneEntry` | journal_backend.js:125-151 | two saves for one date leave exactly one entry for it, holding the second content; the second save answers 200 and does not grow the store |
| `Properties.UpsertOverOnly` | journal_backend.js:125-137 | saving to a date held by exactly one entry keeps it the only one, with the new content, and keeps the store's size |
| `Properties.UpsertIsIdempotent` | journal_backend.js:125-137 | storing the same date and content again leaves the store as it was |
| `Properties.SaveIsIdempotent` | journal_backend.js:105-152 | repeating a valid POST leaves the store as the first one left it |
| `Properties.SaveThenGet` | journal_backend.js:79-94 | after a valid POST, GET for that date answers 200 with the trimmed content |
| `Properties.CreateThenDeleteRestores` | journal_backend.js:139-151 | creating an entry for a new date and deleting it by the id it got restores the original entries |
| `Properties.DeleteLast` | journal_backend.js:218-229 | deleting the last entry by its unique id drops exactly that entry |
| `Properties.UpdateThenRevertRestores` | journal_backend.js:171-203 | a PUT followed by a PUT of the former content restores the store exactly |
| `Properties.ReplaceThenRevert` | journal_backend.js:183-190 | replacing an entry's content and then putting the former content back restores the store |
| `Properties.ReplaceAt` | journal_backend.js:183-190 | replacing by a unique id sets that entry's content in place and answers 200 |
| `Properties.ListingIsTheDescendingArrangement` | journal_backend.js:61-62 | for a valid store, any date-descending arrangement of the stored entries is exactly the listing |
| `Properties.DistinctDatesOfPermutation` | journal_backend.js:31 | rearranging entries with distinct dates keeps them distinct |
| `Properties.DistinctDatesNoDuplicates` | journal_backend.js:31 | with distinct dates, each entry occurs once |
| `Properties.StatsAgreeWithListing` | journal_backend.js:244-245 | `lastEntryDate` is the date listed first and `firstEntryDate` the date listed last |
| `Properties.LatestIsListedFirst` | journal_backend.js:245 | in any date-descending arrangement the first date is the greatest date |
| `Properties.EarliestIsListedLast` | journal_backend.js:244 | in any date-descending arrangement the last date is the least date |
| `Properties.StatsCountWords` | journal_backend.js:249-251 | on a valid store, `totalWords` is the sum of the entries' word counts |
| `Properties.SaveTwiceOnEmpty` | journal_backend.js:125-151 | on a store with no entries, two saves for one date create (201) and then update (200) one entry, which gets the counter's id |
| `Properties.FirstSaveOnEmpty` | journal_backend.js:139-151 | the first save on a store with no entries creates the entry with the trimmed content (201) |
| `Properties.SaveOverSingle` | journal_backend.js:125-137 | a save for the date of the only entry replaces its content (200) |
| `Properties.SaveExample` | journal_backend.js:125-151 | saving "Hi" and then "Hi again" for 2024-01-01 creates and then updates one entry |
| `Properties.GreetingsAreTrimmed` | journal_backend.js:117 | "Hi" and "Hi again" are already trimmed and not blank, so a POST stores them as given |
| `Properties.StatsExample` | journal_backend.js:249-252 | contents "a b" and "c d e" give 2 entries, 5 words and an average of 3 (2.5 rounded up) |
| `Properties.SplitExample` | journal_backend.js:250 | "a b" splits into 2 pieces and "c d e" into 3 |

## Left out

- MongoDB and Express wiring is not modelled, because it is I/O and framework code. This covers the connection, middleware, static files, `app.listen`, SIGTERM shutdown, the `/` route and the catch-all 404 and error middleware (journal_backend.js:1-24, 303-336).
- The 500 responses and the `ValidationError` catch branch are not modelled. Every `catch` block turns an exception into one of them. The exception is either a failure inside the database library or a `TypeError` from calling `.trim()` on a request field that is not a string. This covers the 400 at journal_backend.js:156-161 and every `catch` block.
- Timestamps are not modelled, because they are wall-clock state: `createdAt`, `updatedAt` and the pre-save hook (journal_backend.js:38-52, 130, 187).
- Handlers.SearchEntries: the `$regex` match with the `i` option is a parameter `matches`. Regular-expression semantics and a query that is not a valid pattern (which throws) are not modelled.
- Handlers.UpdateEntry: ids are natural numbers. A path id that is not a valid ObjectId makes `findByIdAndUpdate` throw, which ends in a 500, and that path is not modelled. The same holds for Handlers.DeleteEntry.
- Handlers.SaveEntry: request fields are absent or strings. A non-string `content`, such as a number, makes `content.trim()` throw, and that path is not modelled.
- Handlers.UpdateEntry: `content` is absent or a string. A non-string `content`, such as a number or an object, makes `content.trim()` at journal_backend.js:176 throw, which ends in the 500 of the `catch` block, and that path is not modelled.
- Handlers.SearchEntries: `q` is absent or a string. A repeated query parameter (`?q=a&q=b`) makes `q` an array, so `q.trim()` at journal_backend.js:278 throws and the request ends in a 500. That path is not modelled.
- Statistics.RoundedRatio: `totalWords / totalEntries` is computed exactly. Double-precision rounding of very large word counts is not modelled.
- Concurrent requests are not modelled. Each request is one atomic transition, and the unique index on `date` is the invariant `Valid`.
- script.js (the browser client) is not modelled. It is DOM and `fetch` code, and its only logic is a copy of the blank-content check.
- The `.select(...)` projection is not modelled. It only drops fields the model does not have.
