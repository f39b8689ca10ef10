# Alinventory ingredient store — a Dafny model

This project models the data-store core of Alinventory, a small inventory tracker:
the ingredient store of `crates/core/src/inventory.rs` and the HTTP handlers of
`crates/api/src/main.rs` that drive it, including the bulk delete.

- `wrappers.dfy` — `Option`, usable with `:-`.
- `timestamp.dfy` (module `Timestamp`) — the `last_edited` column. A UTC instant is
  written the way chrono's `to_rfc3339()` writes it: `YYYY-MM-DDTHH:MM:SS`, then a
  fraction of 0, 3, 6 or 9 digits (the fewest that are exact), then `+00:00`. It is
  read back by a subset of what `str::parse` accepts: the `date-time` of section 5.6
  of RFC 3339 with a UTC offset, naming a real date (the forms left out are listed
  under "## Left out"). `ParseFormat` proves that
  what is written reads back as the same instant.
- `inventory.dfy` (module `Inventory`) — the store. The `ingredients` table has
  `name TEXT PRIMARY KEY` (`crates/core/src/database.rs:14`). It is the class
  `Database`, whose field `rows: map<string, Row>` the SQL statements change in place.
  `Inventory` holds the `Database` it reaches through its pool. Its methods
  `AddIngredient`, `ListIngredients` and `DeleteIngredient` follow the Rust
  functions branch by branch:
  - the pool step `self.pool.get()?` may fail with `Connection` before any statement runs;
  - the statement may fail with `Query`;
  - `delete` inspects the number of affected rows and returns `NotFound(name)` when it is 0;
  - `list` converts row by row and stops at the first row that does not convert.
- `api.dfy` (module `Api`) — `GET`, `POST` and `DELETE /api/ingredients`, with the
  response reduced to OK / OK with a JSON listing / 500. `DeleteIngredients` is the
  `for` loop of `main.rs:48-53`. It is proved against `BulkDelete`, a left-to-right
  specification of the same run. `BulkDeleteSucceeds` and `BulkDeleteStops`
  characterise that specification without running it.

Environment, as parameters:
- The clock `Utc::now()` is the parameter `now`.
- What the r2d2 pool and SQLite do on one call is a `Backend`: `Healthy`, `PoolFails` or `StatementFails`.
- The bulk delete gets one `Backend` per call, `backend(i)` for the `i`-th name.
- The order in which SQLite returns rows is left open: `Database.SelectAll` picks any enumeration.

A listing fails not only when the scan cannot run: a stored quantity outside `u32`
makes the whole listing fail with `Query` (`inventory.rs:53,61`). The model does the same.

## Model

| member | source | states |
|---|---|---|
| `Timestamp.Format` | crates/core/src/inventory.rs:41 | the written text is 25, 29, 32 or 35 characters: a four-digit year, `-` at 4 and 7, `T` at 10, `:` at 13 and 16, and it ends in `+00:00` |
| `Timestamp.Parse` | crates/core/src/inventory.rs:55 | a text that parses starts with four digits, which are the year, followed by `-` |
| `Timestamp.TextOffset` | crates/core/src/inventory.rs:41 | the offset `to_rfc3339()` appends is a suffix of the written text, after the date and time of day |
| `Timestamp.ParseFormat` | crates/core/src/inventory.rs:41-55 | the text `to_rfc3339()` writes for any UTC instant, parsed back, is that same instant |
| `Timestamp.FormatInjective` | crates/core/src/inventory.rs:41 | two different instants are never written as the same text |
| `Timestamp.NatOfPad` | crates/core/src/inventory.rs:41 | a zero-padded decimal field of a written timestamp reads back as the number written |
| `Inventory.Upsert` | crates/core/src/inventory.rs:39-41 | `INSERT OR REPLACE` keyed by name: the name maps to exactly the new row; every other name keeps its presence and its row; the size grows by one only if the name was absent (no duplicate rows) |
| `Inventory.Remove` | crates/core/src/inventory.rs:70-73 | `DELETE ... WHERE name = ?1`: the name is absent afterwards; the other rows are unchanged; the size drops by one exactly when the name was present |
| `Inventory.DeleteResult` | crates/core/src/inventory.rs:68-80 | `delete_ingredient` succeeds exactly when the connection and statement work and the name is in the table; a pool failure is `Connection`, a statement failure `Query`, an absent name `NotFound(name)` |
| `Inventory.ToIngredient` | crates/core/src/inventory.rs:49-56 | converting a row fails with `Query` exactly when its quantity is outside `u32`. Otherwise it carries the row's name, quantity and unit. A stored timestamp that parses is returned as parsed; one that does not parse becomes the current clock reading |
| `Inventory.StoredRowReadsBack` | crates/core/src/inventory.rs:39-56 | a row written by `add_ingredient` converts back to the ingredient written, with the clock reading taken at the write |
| `Inventory.GarbageTimestampFallsBack` | crates/core/src/inventory.rs:55 | a stored timestamp that does not parse (`"yesterday"`) is replaced by the current clock reading rather than failing |
| `Inventory.Database.constructor` | crates/core/src/database.rs:12-18 | the table starts with whatever rows the database file holds |
| `Inventory.Database.InsertOrReplace` | crates/core/src/inventory.rs:39-42 | the statement leaves the table equal to the upsert of the old table |
| `Inventory.Database.DeleteByName` | crates/core/src/inventory.rs:70-73 | the affected-row count is 1 if the name was present and 0 if not; the table loses that key |
| `Inventory.Database.SelectAll` | crates/core/src/inventory.rs:48-49 | the scan yields every row exactly once, each with its own columns, in some order; its names are exactly the table's keys |
| `Inventory.Inventory.constructor` | crates/core/src/inventory.rs:31-33 | the store works on the database it was given |
| `Inventory.Inventory.AddIngredient` | crates/core/src/inventory.rs:36-44 | pool failure gives `Connection` and statement failure gives `Query`, both with the table unchanged; otherwise the result is Ok and the table is the upsert of the name with the given quantity, the given unit and the clock's time |
| `Inventory.Inventory.ListIngredients` | crates/core/src/inventory.rs:46-64 | pool failure gives `Connection` and statement failure gives `Query`. Otherwise the result is Ok exactly when every stored quantity fits `u32`, and the error is `Query` when it is not. An Ok listing has one entry per row and its names are the table's keys. Each entry is its row's conversion. An empty table lists as an empty sequence |
| `Inventory.Inventory.DeleteIngredient` | crates/core/src/inventory.rs:68-80 | pool failure gives `Connection` and statement failure gives `Query`, both with the table unchanged. An absent name gives `NotFound` with that same name and leaves the table unchanged. A present name gives Ok and removes exactly that key |
| `Inventory.ListAfterAdd` | crates/core/src/inventory.rs:36-63 | after an add, a listing holds exactly one entry for the name, with the written quantity, unit and time; every other entry is its untouched row's conversion; the listing grows only if the name was new |
| `Inventory.ListAfterDelete` | crates/core/src/inventory.rs:46-79 | after a delete, a listing omits the name; every other entry is its untouched row's conversion |
| `Inventory.AddTwiceLastWriteWins` | crates/core/src/inventory.rs:39-41 | two adds of one name leave the table of the second add alone (last write wins) |
| `Inventory.AddConverges` | crates/core/src/inventory.rs:36-41 | two adds of the same name, quantity and unit store the same record up to the timestamp; the records are equal exactly when the two clock readings are |
| `Inventory.FlourScenario` | crates/core/src/inventory.rs:36-80 | on an empty table: add flour 10 kg then list gives exactly that entry; add flour 5 kg then list gives exactly that entry; delete then list gives the empty listing; a second delete gives `NotFound("flour")` |
| `Api.GetIngredients` | crates/api/src/main.rs:18-24 | the answer is a JSON listing exactly when the store lists successfully, and every store error becomes the same 500 |
| `Api.AddIngredient` | crates/api/src/main.rs:33-39 | name, quantity and unit are passed to the store unchanged; OK exactly when the store succeeds; every store error becomes the same 500 |
| `Api.DeleteIngredients` | crates/api/src/main.rs:46-54 | the handler deletes the names in list order and stops at the first failing call, with no rollback; the table is the one `BulkDelete` leaves. It answers OK exactly when every call is healthy and every name is present and not listed earlier; it then removes exactly the listed names. Any error, `NotFound` included, gives the same 500. An empty list answers OK and changes nothing |
| `Api.BulkDelete` | crates/api/src/main.rs:48-53 | the specification run of a bulk delete: it stops, if at all, at one of the listed calls, and it leaves no row that was not in the table |
| `Api.BulkDeleteOnlyRemoves` | crates/api/src/main.rs:48-53 | a bulk delete only removes rows: every row left is as it was, and every row whose name is not listed is left |
| `Api.StoppedStaysStopped` | crates/api/src/main.rs:50 | once a call fails, the names after it are never processed: the outcome is that of the prefix that stopped |
| `Api.BulkDeleteSucceeds` | crates/api/src/main.rs:48-53 | a bulk delete succeeds exactly when every call is healthy and its name is present and not listed earlier; then every listed name is removed and nothing else changes |
| `Api.BulkDeleteStops` | crates/api/src/main.rs:48-51 | when a bulk delete stops at call `k`, every earlier call was deletable and call `k` is not; the names before `k` stay deleted and every other row is as it was |
| `Api.DeleteDistinctPresent` | crates/api/src/main.rs:48-53 | with all names present, pairwise distinct and every call healthy, the request succeeds and removes exactly those names |
| `Api.RepeatedNameStops` | crates/api/src/main.rs:48-50 | a repeated name always stops the run at or before its second occurrence; if every earlier call is deletable, the run stops exactly there, with the first occurrence already deleted |

## Left out

- `crates/core/src/database.rs`: opening the file, building the pool and `CREATE TABLE` are I/O and library setup. The table's starting contents are the argument of `Database`'s constructor.
- The r2d2 pool and SQLite are modelled by their outcomes only (`Backend`). The messages carried by `r2d2::Error` and `rusqlite::Error` are dropped, so `Connection` and `Query` carry no payload.
- Concurrency: each connection the pool lends has one user at a time, and the database file serialises writers. Nothing here is concurrent, and every call is one atomic step.
- Inventory.Inventory.ListIngredients: SQLite may fail in the middle of a scan. A statement failure is modelled only before the first row.
- Inventory.Inventory.ListIngredients: `Utc::now()` is read again for each row whose timestamp does not parse. The model uses one clock reading for the whole call.
- Inventory.Row: the quantity column is a plain integer. SQLite's type affinity can keep text or real values in an `INTEGER` column, and those are not modelled.
- Timestamp.Parse: it accepts a subset of what chrono's `str::parse` accepts. The model rejects these forms, among others, so a row holding one of them takes the clock fallback where chrono would decode it:
  - non-zero offsets (chrono converts them to UTC);
  - offsets without a colon (`+0000`);
  - fields shorter than their width (`2024-1-05T1:2:3Z`);
  - leap seconds (`:60`);
  - years outside 0..9999;
  - whitespace around `-` and `:`, before the offset, or after the text.
- Timestamp.Parse: its own contract states only the year field of an accepted text. `ParseFormat` states what it reads back from a text `Format` wrote. For the other texts it accepts (`Z` or `-00:00` offsets, a lower-case `t` or a space separator, fractions of other widths), only the year is stated. `GarbageTimestampFallsBack` shows one text that does not parse and falls back to the clock.
- Timestamp.Format: instants outside years 0..9999 and leap seconds are not in the model's `UtcDateTime`.
- The clock is not assumed monotonic. A timestamp is the reading of the call that wrote it, and no order between readings is claimed.
- Web glue in `main.rs`: the actix server, static file serving and JSON (de)serialisation. A request body that does not deserialise is refused before any handler runs.
- `crates/api/src/config.rs`: argument parsing. The port it declares is never used.
- `crates/cli/src/cli_menu.rs`: an interactive stdin/stdout loop, written against an older store API.
- `crates/api/static/app.js`: browser UI code.
