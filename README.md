# cronic event store — a Dafny model

cronic records the outcomes of jobs as events. Each event has an origin
(`source`), a status `code`, the captured `output` and a `date`. The events
live in one SQLite table, `event(id, source, code, date, output)`. `Repo` in
`src/event/repo.rs` owns the connection to that table and offers six
operations:

- `build` creates the table if it is missing.
- `save` appends a row.
- `get_event_by_id` looks up one row by its id.
- `get_all_events_by_source` returns one source's history.
- `get_sources` lists the distinct sources.
- `get_all_events_grouped_by_source(limit)` returns, for every source, the
  `limit` rows with the greatest `date` text (descending as text, ties by
  id in the model). It ranks with
  `row_number() over (partition by source order by date desc)` and then
  folds the ranked rows into a map from source to rows. Because the dates
  are RFC 2822 text, these are not in general the most recent rows (see
  "## Findings").

The model keeps that shape:

- `events.dfy` (module `Events`) holds the `Event` record from
  `src/event/mod.rs`, the `InvalidQuery` error and the result wrappers.
- `text_order.dfy` (module `TextOrder`) defines how SQLite compares text
  (the BINARY collation: character by character, a proper prefix first) and
  proves that it is a strict total order.
- `table.dfy` (module `Table`) states what each SQL statement means over the
  table's rows, taken in scan order. Scan order is ascending rowid, which for
  this store is save order. It covers the id SQLite assigns on insert, the
  `WHERE id` and `WHERE source` filters, and `SELECT DISTINCT source`.
- `ranking.dfy` (module `Ranking`) covers the window query: partition by
  source, number the rows by date descending, keep the numbers up to the
  limit. It proves what a kept group is.
- `repo.dfy` (module `EventRepo`) is the `Repo` class. Its one field `rows`
  is the table behind the connection. `Save` updates it in place.
  `GetAllEventsBySource` and `GetSources` scan the table in a loop that does
  what the SELECT (its `WHERE source` filter or its `DISTINCT`) and the
  original's `while let` loop do together. `GetEventById` filters without a
  loop. The grouped query's fold over the window output is the loop of
  `GroupBySource`, which does what the original's `while let` loop does.
  Each is proved against the specification functions above.
- `scenarios.dfy` (module `Scenarios`) restates the store's own tests and
  examples of the ranking for all inputs of the same shape.
- `timestamps.dfy` (module `Timestamps`) models fixed-width RFC 3339 UTC
  stamps and proves that, with them, text order is time order and the
  grouped query keeps the most recent rows.

Modelling choices:

- **Dates are compared as text.** This is what SQLite does with the RFC 2822
  strings the program stores. The resulting order is not chronological:
  `Scenarios.TextualDateRanking` shows a Thursday row ranked before the
  following Friday's, and `Scenarios.OlderRowKept` shows a limit of 1
  keeping the older of the two.
- **Equal dates.** `row_number()` leaves the order of rows with equal dates
  open. The model numbers the lower id (the row saved first) first. This
  tie-break is a choice of the model, not of the code.
- **Result order.** The SELECTs have no ORDER BY. The model returns rows in
  scan (id) order, which is what the tests rely on. The window query's
  partitions come in order of first appearance; SQLite sorts them by source.
  Only per-source order survives the fold into a map, so the difference
  cannot be observed.
- **The model follows what the code does, in these places where a caller
  might expect otherwise:**
  - `save` returns nothing, so the assigned id is not returned.
  - A lookup miss is `InvalidQuery`, not a separate not-found error.
  - A `limit` of zero or less gives an empty map, not a validation error.
  - `get_sources` returns a sequence in first-appearance order, not a set.
  - The code has no batch save. `Table.SaveAll` only expresses a series of
    `save` calls, as the tests make them.

## Model

| member | source | states |
|---|---|---|
| TextOrder.LessIrreflexive | src/event/repo.rs:86 | no date sorts before itself |
| TextOrder.LessAsymmetric | src/event/repo.rs:86 | if `a` sorts before `b`, then `b` does not sort before `a` |
| TextOrder.LessTransitive | src/event/repo.rs:86 | the text order used by `order by date` is transitive |
| TextOrder.LessTotal | src/event/repo.rs:86 | any two different dates are ordered one way or the other |
| Table.NewRowIdFresh | src/event/repo.rs:14 | in a rowid table, the id an `INTEGER PRIMARY KEY` insert receives is larger than every id already stored |
| Table.InsertKeepsRowidOrder | src/event/repo.rs:27-33 | a save keeps the table in rowid order, and the saved row's id is held by no earlier row |
| Table.SaveAllAppends | src/event/repo.rs:27-33 | a series of saves appends one row per event, in order, with consecutive ids from the next free one, and leaves earlier rows untouched |
| Table.FreshTableIds | src/event/repo.rs:11-33 | on a fresh table, saves get ids 1, 2, 3, … in save order, and every other field is as given |
| Table.SelectById | src/event/repo.rs:37-40 | the `WHERE id` query returns exactly the rows that carry that id |
| Table.SelectByIdAbsent | src/event/repo.rs:41-52 | a lookup of an id no row holds returns no row |
| Table.SelectByIdAtMostOne | src/event/repo.rs:14 | in a rowid table, a lookup by id matches at most one row |
| Table.LookupAfterInsert | src/event/repo.rs:27-53 | looking up the id a save assigned returns the saved event; lookups of other ids are unaffected by the save |
| Table.LookupAfterFreshSaves | src/event/repo.rs:36-53 | after saves into a fresh table, a lookup finds a row exactly for the ids 1..n the saves handed out, and fails for every other id |
| Table.BySourceMembers | src/event/repo.rs:58-61 | the `WHERE source` query keeps a row if and only if it is stored and has that source |
| Table.BySourceRowidOrdered | src/event/repo.rs:57-76 | a source's history keeps save order (ids ascending) |
| Table.BySourceAfterInsert | src/event/repo.rs:27-76 | a save extends the history of its own source by the stored row and leaves every other source's history unchanged |
| Table.BySourceSnoc | src/event/repo.rs:57-76 | scanning one more row extends the history of that row's source by the row, and leaves every other source's history unchanged |
| Table.GroupAppend | src/event/repo.rs:103-109 | one fold step (create the source's key if absent, then push the row) turns a map holding every source's history of the rows seen into one holding every source's history of those rows plus the new one |
| Table.SourceSetSnoc | src/event/repo.rs:115-127 | one more row adds exactly its source to the set of stored sources |
| Table.BySourceEmpty | src/event/repo.rs:57-76 | a source's history is empty (not an error) if and only if no row has that source |
| Table.SourcesExact | src/event/repo.rs:115-127 | `get_sources` lists every stored source exactly once, and nothing else |
| Table.SourcesFirstAppearance | src/event/repo.rs:115-127 | sources are listed in order of first appearance: if `s` comes before `t`, every row of `t` has an earlier row of `s` |
| Ranking.PrecedesAsymmetric | src/event/repo.rs:86 | of two rows of a partition, at most one is numbered before the other |
| Ranking.NotPrecedesTransitive | src/event/repo.rs:86 | the ranking order (date descending, then id ascending) is transitive in its non-strict form |
| Ranking.InsertRanked | src/event/repo.rs:86 | inserting a row into a ranked partition keeps it ranked and adds exactly that row |
| Ranking.RankSortsPartition | src/event/repo.rs:86 | numbering a partition orders its rows by rank and is a permutation of them |
| Ranking.RankNoDuplicates | src/event/repo.rs:86 | numbering a partition with distinct rows yields distinct rows |
| Ranking.KeepRanks | src/event/repo.rs:88 | `date_rank <= limit` keeps a prefix of the ranked rows of length `min(limit, count)`, and nothing when `limit <= 0` |
| Ranking.TopByDateShape | src/event/repo.rs:83-90 | each group has `min(limit, count of that source)` rows (0 if `limit <= 0`), all of them stored rows of that source |
| Ranking.TopByDateNonEmpty | src/event/repo.rs:83-90 | with `limit >= 1`, a stored source never gets an empty group |
| Ranking.TopByDateOrder | src/event/repo.rs:86 | a group is in descending `date` text order, with equal dates in id order |
| Ranking.TopByDateIsTop | src/event/repo.rs:84-88 | no row of the source left out of a group ranks before a row kept in it: the group is the `limit` rows with the greatest `date` text, ties by id |
| Ranking.TopByDateNoDuplicates | src/event/repo.rs:83-90 | in a rowid table, no row appears twice in a group |
| Ranking.PartitionsBySource | src/event/repo.rs:84-87 | filtering the window output by a source gives back exactly that source's kept partition |
| Ranking.WindowQueryGroups | src/event/repo.rs:83-110 | the window output contains the sources that have rows when `limit >= 1`, and none otherwise; per source it holds that source's top rows |
| Ranking.GroupedWindowIsTopByDate | src/event/repo.rs:83-110 | a map holding, per source, that source's rows of the window output has exactly the stored sources as keys when `limit >= 1` (none otherwise), each mapped to its top rows |
| EventRepo.GroupBySource | src/event/repo.rs:93-110 | folding the query rows into a map gives one key per source present in the rows, each mapped to exactly that source's rows in query order |
| EventRepo.Repo.Build | src/event/repo.rs:11-24 | a connection without the table gets an empty table; an existing table keeps all its rows |
| EventRepo.Repo.Save | src/event/repo.rs:27-33 | appends exactly one row, with the event's fields and a fresh id in place of the caller's id; earlier rows and rowid order are kept |
| EventRepo.Repo.GetEventById | src/event/repo.rs:36-54 | succeeds if and only if some row has the id, and then returns that row (the only one in a rowid table); otherwise fails with `InvalidQuery` |
| EventRepo.Repo.GetAllEventsBySource | src/event/repo.rs:57-76 | returns exactly the rows of the source, in save order; an unknown source gives an empty sequence |
| EventRepo.Repo.GetAllEventsGroupedBySource | src/event/repo.rs:79-113 | the keys are exactly the stored sources when `limit >= 1` and none otherwise; each key maps to that source's `limit` rows with the greatest `date` text, in descending text order (ties by id) |
| EventRepo.Repo.GetSources | src/event/repo.rs:115-127 | returns every stored source exactly once, in first-appearance order |
| Scenarios.SourcesAfterRun | src/event/repo.rs:115-127 | saving a run of a new source's events adds that source once, at the end of the source list |
| Scenarios.SavedInTurnLayout | src/event/repo.rs:187-195 | saving two batches into a fresh table stores the first batch under ids 1..n and the second under the ids after it |
| Scenarios.RecallBySourceAfterSaves | src/event/repo.rs:181-209 | events of one source built with ids 1, 2, … and saved before another source's events come back unchanged, ids included, in save order |
| Scenarios.SourcesOfTwoRuns | src/event/repo.rs:213-237 | a non-empty run of one source followed by a non-empty run of another gives exactly those two sources, in that order |
| Scenarios.SourcesAfterTwoRuns | src/event/repo.rs:213-237 | one source's events saved before another's give exactly the two sources, in that order |
| Scenarios.TopTwoOfThree | src/event/repo.rs:84-88 | three events of one source with dates rising as text: a limit of 2 gives the last two, greatest date text first |
| Scenarios.TextualDateRanking | src/event/repo.rs:148 | with RFC 2822 dates compared as text, a Thursday row is ranked before the following Friday's |
| Scenarios.OlderRowKept | src/event/repo.rs:84-88 | with the RFC 2822 dates of a Thursday and the following Friday, a limit of 1 keeps the older Thursday row |
| TextOrder.LessConcat | src/event/repo.rs:86 | comparing texts whose first parts have equal length compares the first parts, then the rest only when the first parts are equal |
| Timestamps.DigitsOrder | src/main.rs:35 | zero-padded numbers of one width compare as text as they compare as numbers, and render alike only when equal |
| Timestamps.RenderOrder | src/main.rs:35 | fixed-width fields, each after its separator, compare as text field by field, and render alike only when all fields agree |
| Timestamps.EarlierByFields | src/main.rs:35 | comparing an instant's fields most significant first is time order |
| Timestamps.Rfc3339Chronological | src/main.rs:35 | RFC 3339 UTC stamps compare as text exactly in time order, and distinct instants get distinct stamps |
| Timestamps.ChronologicalPrecedes | src/event/repo.rs:86 | with RFC 3339 dates, a row is numbered before another exactly when it is later in time, or at the same instant and saved first |
| Timestamps.TopByDateIsLatest | src/event/repo.rs:83-90 | with RFC 3339 dates, no row of a source left out of its group is later in time than a row kept in it |

## Left out

- SQLite engine failures are not modelled. This covers failing to open the file, `execute`, `prepare` or `query`, and decoding a row with `row.get(i)?`. The model's only error is `InvalidQuery`, which the code raises itself. `Build` therefore cannot fail.
- Integer widths are not modelled. `id` and `code` are unbounded integers. In the code they are `i32`: a row whose id exceeds the `i32` range fails to decode. SQLite's fallback once the largest rowid is reached (a random unused rowid) is not modelled either. The lookup's `u32` parameter is modelled.
- Query text is not modelled. The queries are built by string interpolation, so a `'` in a source breaks the query or injects into it. The model does the intended equality match. The id lookup compares the `INTEGER` column with a quoted literal, which SQLite converts to an integer; the model compares integers.
- Column affinity is not modelled. `date` is declared `DATETIME` (numeric affinity), so a date that looks like a number would be stored as a number and would sort before every text date. The model assumes every date is stored as text, as the RFC 2822 strings the program writes are.
- A pre-existing `event` table is assumed to have this schema. `CREATE TABLE IF NOT EXISTS` keeps any table named `event`, whatever its columns.
- `src/main.rs` is not part of this model: the HTTP routes, the `Mutex` around the shared handle, the clock read by `Utc::now()` and the `.unwrap()` plumbing. The model has no concurrency. Only the date format written at line 35 enters the model, as the subject of the finding below.
- The RFC 2822 text that `to_rfc2822` produces is not modelled as a function of the instant; the model only uses concrete RFC 2822 strings. `Timestamps.ValidInstant` bounds each field but does not check days per month, which the ordering does not depend on. RFC 3339 stamps are modelled with whole seconds; `to_rfc3339` on `Utc::now()` would add fractional seconds.
- `src/lib.rs` is not part of this model. Its `EventHandler` is a stub with no logic.
- The serde `Serialize` impl in `src/event/mod.rs` is not part of this model; only the `Event` field layout is used.
- `examples/python_script.py` is not part of this model.
- The tests' random `output` text and current-time dates are not modelled. The test lemmas hold for any output and any dates.

## Findings

| source | as written | input that shows it | evidently intended | confidence | as-written member | corrected member |
|---|---|---|---|---|---|---|
| src/event/repo.rs:86 | `order by date desc` compares the `date` column as text, and the program writes RFC 2822 dates (`Utc::now().to_rfc2822()`, src/main.rs:35), which begin with the weekday name | a row dated "Thu, 15 Oct 2026 09:00:00 +0000" and a later one dated "Fri, 16 Oct 2026 09:00:00 +0000" of the same source: with a limit of 1 the Thursday row is kept | the grouped query keeps each source's most recent rows, which holds when dates are written in a fixed-width, most-significant-first form such as RFC 3339 in UTC | high (not executed) | Scenarios.OlderRowKept | Timestamps.TopByDateIsLatest |

The corrected half changes the date format, not the query: the model's
ranking is the code's, and `Timestamps` proves that with RFC 3339 stamps
(`Timestamps.Rfc3339Chronological`) the same ranking keeps the latest rows.
