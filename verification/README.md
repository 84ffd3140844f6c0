# Event catalog store, modelled in Dafny

This project models the event service of an event-catalog web API. The
service keeps one in-memory table of events. It offers six operations:

- create an event;
- look events up by id;
- look events up by activity, the id that groups related events;
- partially update the events with an id;
- suspend the events with an id, a soft delete;
- search with any subset of ten filter keys, combined with AND.

The model covers the table logic behind these operations. It leaves out the
web framework around them.

The table is a `seq<Event>` of immutable rows. Every operation is a pure
function that takes the current table. Operations that change it return the
new table together with their answer. A not-found outcome is a
`Result.Failure` with one of the service's two errors: "Event not found" or
"Activity has no events".

Modules:

- `Wrappers` (wrappers.dfy): holds `Option`, `Field` and `Result`.
  - `Option` is a nullable table cell. A missing cell never passes a
    comparison, a membership test or a substring test.
  - `Field` is a request field the caller left unset or supplied. Only
    supplied fields reach the search and the partial update.
  - `Result` is the outcome of an operation: its value or a not-found error.
- `Selection` (selection.dfy): row masks and boolean indexing (`table[mask]`).
  The selection keeps exactly the masked rows, in table order. That fact is
  stated through the increasing list of selected positions (`Indices`).
- `Text` (text.dfy): case-insensitive substring matching, used for the two
  free-text search keys.
- `Events` (events.dfy): the data model.
  - The event row.
  - The three enumerations: ticket category, ticket type and district code.
  - The create, edit and search request bodies.
- `Search` (search.dfy): the search.
  - The per-key matching rules.
  - The mask built from the supplied keys (`ParseParams`).
  - The search result, characterised key by key by `Matches`.
- `Store` (store.dfy): create, lookups, partial update and suspension, with
  their relations: idempotence, fresh ids, and "nothing else changes".

Timestamps are integers on one common clock. The ticket value is a `real`.

Three behaviours of the service are easy to misread:

- No default date window applies to a search. The search body declares
  defaults for its two date keys. But only keys the caller actually set reach
  the filter, so those defaults never take effect.
- Suspension is not one-way. The partial update accepts `suspendida`, so an
  update with `suspendida = false` clears the flag again
  (`Store.UpdateCanLiftSuspension`).
- There is no base id for an empty table. The new id is computed as the
  column maximum plus one, and that maximum is undefined for an empty table.
  So `Store.Create` requires a non-empty table.

## Model

| member | source | states |
|---|---|---|
| Selection.AllTrue | server/server.py:108 | the starting mask has one entry per row and selects every row |
| Selection.And | server/server.py:111-123 | the combined mask selects a row iff both masks select it |
| Selection.Select | server/server.py:226 | boolean indexing keeps exactly the rows whose mask entry is set, each once, in table order |
| Selection.SelectMembership | server/server.py:158 | a row value is in the selection iff it stands at some selected position |
| Selection.SelectEmpty | server/server.py:159 | the selection is empty iff the mask selects no row, which is the not-found test of the lookups |
| Text.Contains | server/server.py:113 | the literal substring test holds iff the query occurs at some position of the text |
| Text.ContainsIgnoringCase | server/server.py:113 | the case-insensitive test holds iff the lower-cased query occurs at some position of the lower-cased text |
| Text.LiteralMatchIgnoringCase | server/server.py:113 | a text that literally contains the query also matches it ignoring case |
| Text.CaseOfQueryAndTextIrrelevant | server/server.py:113 | upper- or lower-casing the query or the text never changes whether they match |
| Text.EmptyQueryMatchesAll | server/server.py:113 | the empty query matches every text |
| Text.ParkExample | server/server.py:113 | "park" matches "Central PARK" and does not match "Plaza" |
| Search.Holds | server/server.py:110-123 | the test of one supplied key holds of a row iff the row matches, key by key, the search body that supplies only that key |
| Search.Matches | server/server.py:107-125 | the key-by-key meaning of a search body: every row matches a body that supplies no key, and a row whose cell is missing in a supplied key's column never matches |
| Search.Present | server/server.py:224 | dropping the unset keys keeps the criteria of the supplied keys in declaration order, each once: the k-th criterion is the value of the k-th filled key slot; the result is empty iff no key is supplied |
| Search.NoCriteriaWithoutFilters | server/server.py:224 | the list of supplied keys is empty iff the search body supplies no key |
| Search.AllHoldPresent | server/server.py:108-125 | the criteria of the supplied keys all hold of a row iff the criterion of every filled key slot holds of it |
| Search.MatchesBySlots | server/server.py:109-123 | a row matches the body key by key iff the criterion of every filled key slot holds of it |
| Search.ParseParams | server/server.py:107-125 | the mask starts all-true and is ANDed with each key's test, so a row is selected iff every supplied key's test holds of it |
| Search.CriteriaMeaning | server/server.py:109-123 | the tests of the supplied keys all hold of a row iff the row matches the body key by key: sets by membership, strings by case-insensitive containment, date_start as a lower bound on the start, date_end as an upper bound on the end, the ticket-value keys as bounds on ticket_valor, and the rest by equality |
| Search.ParseParamsMeaning | server/server.py:107-125 | the mask folded from the supplied keys equals, row by row, the key-by-key match of the body |
| Search.SearchEvents | server/server.py:224-226 | the search returns exactly the rows that pass every supplied key, in table order; a row with a missing cell fails that column's key |
| Search.SearchWithoutFilters | server/server.py:107-108 | a search with no supplied key returns the whole table |
| Search.SearchNarrowing | server/server.py:109-123 | supplying more keys only removes rows from the result |
| Search.MatchIgnoresQueryCase | server/server.py:112-113 | the letter case of a name or address query never changes whether a row matches |
| Search.NameSearchIgnoresCase | server/server.py:112-113 | searching the name for the upper-case or lower-case form of a query returns the same rows as the query itself |
| Search.DireccionSearchIgnoresCase | server/server.py:112-113 | searching the address for the upper-case form of a query returns the same rows as the query itself |
| Store.IdMask | server/server.py:158 | the id mask has one entry per row and selects exactly the rows with that id |
| Store.ActividadMask | server/server.py:209 | the activity mask has one entry per row and selects exactly the rows with that activity; a row with no activity is never selected |
| Store.MaxId | server/server.py:143 | the largest id is at least every row's id and is the id of some row |
| Store.MaxActividad | server/server.py:141 | the largest activity skips rows without one, bounds every present activity and is one of them; it is missing iff no row has an activity |
| Store.Create | server/server.py:138-148 | create appends exactly one row and leaves the old rows unchanged; the returned event is the last row; its id exceeds every existing id by being the largest plus one; its activity is the requested one unless that is missing or 0, in which case it is the largest activity plus one (missing when no row has one); all other columns come from the request |
| Store.GetById | server/server.py:158-162 | lookup by id returns exactly the rows with that id, in table order, and fails with EventNotFound iff there are none |
| Store.GetByActivity | server/server.py:209-212 | lookup by activity returns exactly the rows of that activity, in table order, and fails with ActivityHasNoEvents iff there are none |
| Store.ApplyEdit | server/server.py:181-183 | a partial update writes each supplied column's value and keeps every unset column and the id |
| Store.UpdateRows | server/server.py:182 | the rows with the id are rewritten and every other row stays as it was, with the table length unchanged |
| Store.Update | server/server.py:178-184 | update fails with EventNotFound iff no row has the id; otherwise only the rows with the id change, by the edit, and the result is those rows as they now read, in table order |
| Store.Suspend | server/server.py:193-197 | suspend fails with EventNotFound iff no row has the id; otherwise the rows with the id become suspended, nothing else changes, and the non-empty result lists them, all suspended |
| Store.ApplyNoEdit | server/server.py:181 | an edit that supplies no column leaves the row as it was |
| Store.ApplyEditThen | server/server.py:181-183 | two successive edits equal one edit that merges them, the later winning on shared columns |
| Store.ApplyEditTwice | server/server.py:181-183 | applying the same edit twice equals applying it once |
| Store.CreateKeepsIdsUnique | server/server.py:143-147 | create keeps ids unique, since the new id exceeds every existing id |
| Store.GetByIdUnique | server/server.py:158-162 | in a table with unique ids, a lookup of a present id returns exactly its one row |
| Store.CreatedEventIsFound | server/server.py:143-147 | looking up the id a create assigned returns exactly the created row |
| Store.UpdateReturnsEditedRows | server/server.py:182-184 | the rows an update returns are the rows a lookup returned before it, each with the edit applied |
| Store.UpdateKeepsIdsUnique | server/server.py:181-183 | an update changes no id, so unique ids stay unique |
| Store.UpdateIdempotent | server/server.py:178-184 | repeating an update leaves the table and the result as the first update left them |
| Store.SuspendIsUpdate | server/server.py:196 | suspending equals the partial update that supplies only suspendida = true, errors included |
| Store.SuspendIdempotent | server/server.py:193-197 | suspending twice succeeds both times and equals suspending once |
| Store.UpdateCanLiftSuspension | server/server.py:58-59 | the partial update accepts suspendida, so it can clear the flag that suspension set |
| Store.CreateSuspendLookup | server/server.py:138-148 | after creating an event from only its required fields, the event has a fresh id, is not suspended and is free for children under four; suspending it then marks only that row; a lookup afterwards returns it suspended |

## Left out

- HTTP routing, status codes and response models are left out. So is the
  request validation the schema layer does: enum parsing, the two accepted
  timestamp formats, and the `ge=0` / `gt=0` bounds on the ticket-value keys.
  That validation runs in library code before the table logic.
- Loading the initial table from a parquet snapshot is I/O. Reading the host,
  port and log level from the environment is configuration. Starting the
  server is I/O. All three are left out.
- Turning responses into JSON is library encoding and is left out. This
  includes replacing NaN by null.
- Timestamps of created or edited rows are idealised. Create and update
  store each supplied value after JSON encoding (server/server.py:145-147,
  182-183), so those rows keep their dates as ISO text in the table. A later
  `date_start` or `date_end` search (server/server.py:115, 117) then compares
  that text with a timestamp. The model keeps every timestamp as an integer,
  so date searches over such rows always compare numerically.
- Text.ContainsIgnoringCase: the query is matched as a literal string, and
  case is folded over ASCII letters only. The source uses regular-expression
  matching with Unicode case folding, which are library internals.
- Search.SearchEvents: a missing text cell counts as not matching. The
  source's behaviour on null text cells is a library internal.
- Search.SearchEvents: a key sent explicitly as null counts as supplied in
  the source. The row test then compares a column with null, and the outcome
  of that comparison is up to the table library. The model does not cover
  explicit nulls: it only knows unset and supplied-with-a-value.
- Floating-point arithmetic on `ticket_valor` is left out. It is modelled as
  a `real`.
- The table is one global mutable frame, and concurrent requests may
  interleave on it. Both are left out: each operation maps one table to the
  next.
- Row index labels are left out. After a create, the new row's label repeats
  an existing label.
- Store.Update: every row with the id receives every supplied value. When
  several rows share an id, the source's assignment of a list of values
  follows pandas broadcasting rules, which are not modelled.
- Store.Create: requires a non-empty table. On an empty table the source
  takes the maximum of an empty column, which has no meaningful value.
- The command-line client is left out. It prompts for input and sends
  requests. Its date parsing is a thin wrapper over the standard library.
  Dropping empty fields before sending is a one-line filter.
