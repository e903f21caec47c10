# Diary store model

A Dafny model of the encrypted diary store of the `diary-tauri` journal
application (`src-tauri/src/lib.rs`). The store holds a session slot with zero
or one open database connection. The slot is empty (Locked) at start-up and
filled (Unlocked) by a successful unlock. Five commands act on it: unlock
(`open_and_list_dates`), search (`search_diary` with `fetch_dates_internal`),
get (`get_diary_content`), save (`save_diary_content`) and delete
(`delete_diary`). Diary entries live in a `diary` table whose primary key is
an integer date. The table is modelled as a `map<int, string>` from date to
content.

Files:

- `sql_text.dfy` (module `SqlText`): SQLite's `lower`, which folds ASCII
  letters only, and `instr`, the 1-based position of the first occurrence.
- `decimal.dfy` (module `Decimal`): `i64::to_string`, the text the source
  binds for a date, and the integer the date column makes of that text. The
  two are proved inverse.
- `ordering.dfy` (module `Ordering`): `ORDER BY date DESC` over unique keys.
  `SortDesc` is proved to be the only strictly descending listing of a set.
- `queries.dfy` (module `DiaryQueries`): the effect of each SQL statement on
  the table (`Select`, `Lookup`, `Upsert`, `Remove`). It also holds the lemmas
  that relate them and the row-collecting loop of `fetch_dates_internal`.
- `session.dfy` (module `DiarySession`): the class `Session` and its five
  commands.

The session is a class with three fields:

- `db: Option<Table>` is the connection slot: `None` while Locked, and the
  table as the connection sees it once Unlocked.
- `disk` is the table held in the database file.
- `decrypts` is an oracle that says whether a password decrypts the file.

The invariant `Valid()` says that an open connection sees the file itself.
A re-unlock therefore sees every earlier save. Search and get have no
`modifies` clause, so they change nothing. Save and delete change the state
only when Unlocked. Each command that needs a connection answers `NotUnlocked`
while Locked.

A failed unlock leaves the slot as it was. An Unlocked session stays Unlocked
with its earlier connection. The slot is assigned only after the verification
query succeeds (lib.rs:28-34). So a wrong password does not lock a session
that is already open.

## Model

| member | source | states |
|---|---|---|
| `DiarySession.Session.constructor` | src-tauri/src/lib.rs:11-15 | a new session is Locked (empty slot) over the file's current table |
| `DiarySession.Session.Unlock` | src-tauri/src/lib.rs:18-41 | if the file cannot be opened: open error, slot unchanged; if the verification query fails: wrong-password error, slot unchanged (still Locked, or the earlier connection kept); otherwise the verified connection fills the slot and the result is every stored date, most recent first, the same as an empty search; the file is never changed |
| `DiarySession.Session.Search` | src-tauri/src/lib.rs:44-49 | Locked: not-unlocked error; Unlocked: exactly the rows of the search statement over the connection's table; no state changes |
| `DiarySession.Session.Get` | src-tauri/src/lib.rs:52-65 | Locked: not-unlocked error; a date without an entry: read error; otherwise the stored content verbatim; no state changes |
| `DiarySession.Session.Save` | src-tauri/src/lib.rs:91-104 | Locked: not-unlocked error and nothing changes; Unlocked: success, the file's table becomes the upsert of (date, content) and the connection sees it |
| `DiarySession.Session.Delete` | src-tauri/src/lib.rs:107-118 | Locked: not-unlocked error and nothing changes; Unlocked: success even when the date has no entry, and the date's row is removed from the file's table |
| `DiaryQueries.FetchDates` | src-tauri/src/lib.rs:68-87 | succeeds with exactly the search statement's rows (`Select` of the table and query), in the order the statement returns them |
| `DiaryQueries.CollectRows` | src-tauri/src/lib.rs:82-85 | succeeds iff every row succeeds, and then holds every row's date in row order; otherwise fails with the error of the first failing row |
| `DiaryQueries.Select` | src-tauri/src/lib.rs:71-74 | the search statement itself (its meaning is `SelectMeaning` and `SelectIsOrderByDesc`); its own contract: every listed date is a stored date |
| `DiaryQueries.SelectMeaning` | src-tauri/src/lib.rs:71-74 | a date is in the search result iff it is stored and its row matches the query; the result is strictly descending, so no date is repeated |
| `DiaryQueries.SelectIsOrderByDesc` | src-tauri/src/lib.rs:74 | any strictly descending list of exactly the matching dates is `Select`'s result |
| `DiaryQueries.SelectEmptyQuery` | src-tauri/src/lib.rs:37 | the empty query lists every stored date, most recent first |
| `DiaryQueries.RowMatches` | src-tauri/src/lib.rs:72-73 | the WHERE clause itself (its meaning is `RowMatchesMeaning`); its own contract: the empty query matches any row |
| `DiaryQueries.RowMatchesMeaning` | src-tauri/src/lib.rs:72-73 | a row matches iff the lower-cased query is a substring of the date's decimal text or of the lower-cased content |
| `DiaryQueries.MatchIgnoresCase` | src-tauri/src/lib.rs:72-73 | lower-casing the query or the content does not change whether a row matches |
| `DiaryQueries.EmptyQueryMatches` | src-tauri/src/lib.rs:72-73 | the empty query matches every row |
| `DiaryQueries.SearchIgnoresCaseExample` | src-tauri/src/lib.rs:73 | content "Hello" is found by "hello" and by "HELLO" |
| `DiaryQueries.DateTextMatches` | src-tauri/src/lib.rs:72 | any query that occurs in a date's decimal text matches that date, whatever its content; such a query has no capitals for `lower` to change |
| `DiaryQueries.SearchDateExample` | src-tauri/src/lib.rs:72 | the date 20240115 is found by "0115" |
| `DiaryQueries.Lookup` | src-tauri/src/lib.rs:56-62 | succeeds iff the date has a row, with that row's content; otherwise a read error |
| `DiaryQueries.Upsert` | src-tauri/src/lib.rs:95-99 | the date's row holds the new content whether or not it existed; every other row is unchanged and no row is added or lost |
| `DiaryQueries.Remove` | src-tauri/src/lib.rs:111-114 | the date has no row afterwards; every other row is unchanged |
| `DiaryQueries.SaveThenGet` | src-tauri/src/lib.rs:95-98 | reading a date after saving it gives the saved content; other dates read as before |
| `DiaryQueries.SaveTwice` | src-tauri/src/lib.rs:96-98 | saving the same date twice equals saving only the second content |
| `DiaryQueries.DeleteThenGet` | src-tauri/src/lib.rs:111-113 | after a delete the date reads as missing; other dates read as before |
| `DiaryQueries.DeleteIdempotent` | src-tauri/src/lib.rs:111-117 | deleting an absent date changes nothing; deleting twice equals deleting once |
| `DiaryQueries.SaveThenSearch` | src-tauri/src/lib.rs:71-74 | a saved entry is found by a search iff its date and new content match the query |
| `SqlText.Lower` | src-tauri/src/lib.rs:72-73 | same length, no ASCII capital left, each ASCII capital becomes its lower-case letter (code + 32), every other character kept in place |
| `SqlText.LowerIdempotent` | src-tauri/src/lib.rs:72-73 | lower-casing twice is lower-casing once |
| `SqlText.Instr` | src-tauri/src/lib.rs:72-73 | SQLite's `instr` itself (its meaning is `InstrMeaning`); its own contract: the empty needle gives 1, and a positive position leaves room for the whole needle in the text |
| `SqlText.InstrMeaning` | src-tauri/src/lib.rs:72-73 | `instr` is positive iff the needle is a substring; then it is one more than the index of the first occurrence |
| `SqlText.InstrEmptyNeedle` | src-tauri/src/lib.rs:72-73 | the empty needle is found at position 1 of any text |
| `Decimal.Render` | src-tauri/src/lib.rs:99 | the text is an optional minus sign then digits, with the minus sign exactly for negative dates |
| `Decimal.RenderNat` | src-tauri/src/lib.rs:99 | at least one digit, only digits, no leading zero |
| `Decimal.Parse` | src-tauri/src/lib.rs:96-99 | the integer the date column makes of bound decimal text (its meaning is `ParseRender`); its own contract: a negative value only from text with a leading minus sign |
| `Decimal.ParseRender` | src-tauri/src/lib.rs:99 | reading back the rendered text gives the same date |
| `Decimal.RenderInjective` | src-tauri/src/lib.rs:113 | distinct dates render to distinct texts |
| `Decimal.RenderHasNoCapitals` | src-tauri/src/lib.rs:72 | a rendered date holds no ASCII capital |
| `Decimal.LowerRender` | src-tauri/src/lib.rs:72 | `lower` leaves a rendered date unchanged |
| `Ordering.Max` | src-tauri/src/lib.rs:74 | an element of the set no smaller than any other |
| `Ordering.SortDesc` | src-tauri/src/lib.rs:74 | exactly the set's elements, strictly descending, one per element |
| `Ordering.SortDescUnique` | src-tauri/src/lib.rs:74 | a strictly descending sequence equals `SortDesc` of its elements |

## Left out

- The SQLite failures on prepare, step and execute are not modelled: search,
  save and delete always succeed when Unlocked. `CollectRows` handles a
  failing row, but the statements of the model hand it none. So the model also
  lacks one path of unlock. There the connection is already installed, the
  date query at lib.rs:37 fails, and unlock reports an error while staying
  Unlocked.
- The database schema: the source never creates the `diary` table. The model
  assumes the file already has it, with a `date` column of INTEGER affinity
  under a UNIQUE or PRIMARY KEY constraint, and a `content` column that is
  never NULL. `ON CONFLICT(date)` needs that constraint; the conversion of the
  bound decimal text to an integer (`Decimal.Parse`) and the integer
  `ORDER BY date DESC` need that affinity; and with one non-NULL content per
  date, `map<int, string>` holds every row. On a file without the table,
  unlock would install the connection and then fail at the date query.
- SQLCipher and the `PRAGMA key` statement (lib.rs:22-25) become the oracle
  `decrypts`. A password holding a quote makes that statement malformed. Its
  error is discarded like any other, and the oracle's answer for such a
  password covers the outcome.
- Opening the file (lib.rs:20) is the `fileOpens` parameter of `Unlock`,
  decided by the file system.
- The `Mutex` around the slot: every command is one atomic method.
- Connection identity: a re-unlock replaces the connection with a new one
  over the same file. Both see the same table, so the model cannot tell them
  apart.
- Dates are unbounded integers. The source's `i64` range is not enforced,
  because the command interface only delivers values in range.
- `Decimal.Parse` models the date column's conversion only for well-formed
  integer text, the only text the source binds to it.
- The wording of the error messages: each becomes one constructor of `Error`.
- `run` (lib.rs:121-160), the `cli` module (lib.rs:162-174) and
  `src-tauri/src/main.rs`: window set-up, argument parsing and start-up glue.
