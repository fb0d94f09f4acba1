# pixel-page-count: the page-view store in Dafny

This project models the persistence layer of the pixel-page-count analytics
collector (`src/main.rs`). That layer is one SQLite table, `pageviews`, keyed by
`(domain, page, date)` and holding a `view_count`. Three operations act on it:

- **the schema step run at startup**: it decides from the table's stored
  `CREATE TABLE` text whether the legacy per-event layout `(ts, domain, page)` is
  present. If it is, the step renames the table, creates the aggregated table,
  fills it with a `GROUP BY domain, page, date(ts)` count, and drops the legacy
  table. If it is not, the step runs `CREATE TABLE IF NOT EXISTS`.
- **RecordView** (`count_page_view`): it fills in the sentinels `"unknown"` and
  `"/unknown"` for missing parameters, renders today's date as `YYYY-MM-DD`, and
  runs one upsert that inserts a count of 1 or adds 1.
- **Export** (`export`): it selects the rows, optionally for one domain, newest
  date first. One pass then builds the record list, the set of distinct pages
  and the running view total.

The table is a finite map from key to count (`Pageviews.Counts`). The database
is a class, `Store.Database`. Its two fields are the catalog entries of the
tables named `pageviews` and `pageviews_old`, and its methods change them step
by step as the SQL statements do. The pure parts are functions with lemmas:
parameter defaults, date rendering, the migration decision, the group-by and
the filter. The parts are split into modules:

- `Text`: substring search, zero-padded decimals, byte-wise string order.
- `Dates`: the date key.
- `Pageviews`: keys, the upsert, totals and the group-by.
- `Schema`: the catalog entry and the migration decision.
- `Store`: the database class, the query and the export.

Only an absent `domain` or `page` becomes the sentinel (`Option::unwrap_or_else`,
src/main.rs:111-112). A present but empty value (`?domain=`) is stored as the
empty string (`Pageviews.OrDefault`).

## Model

| member | source | states |
|---|---|---|
| `Pageviews.ViewKeyFields` | src/main.rs:111-114 | An absent domain is stored as "unknown" and an absent page as "/unknown". Present values are stored verbatim. The date column is 10 characters long and parses back to the day of the call. |
| `Dates.FormatDateShape` | src/main.rs:114 | For years 0-9999 the rendered date is exactly 10 characters: the year in 4 digits, '-', the month in 2 digits, '-', the day in 2 digits. |
| `Dates.FormatParseRoundTrip` | src/main.rs:114 | Parsing the rendered `YYYY-MM-DD` string gives back the same year, month and day. |
| `Dates.FormatDateInjective` | src/main.rs:113-114 | Two days render to the same date string exactly when they are the same day. |
| `Dates.FormatDateOrder` | src/main.rs:114 | One rendered date sorts before another as a string exactly when its day is chronologically earlier. |
| `Text.ZeroPadFits` | src/main.rs:114 | Zero padding to width w of a value below 10^w gives exactly w digits, and they denote that value. |
| `Text.DigitsOrder` | src/main.rs:138 | For digit strings of equal length, byte-wise string order is numeric order and string equality is numeric equality. |
| `Pageviews.NewDayNewRow` | src/main.rs:113-120 | The same domain and page on two different days give two different keys, so two rows. On the same day they give one key. |
| `Pageviews.UpsertTimesCounts` | src/main.rs:117-120 | After n upserts of one key, its count is its previous count (0 if absent) plus n, and every other row is unchanged. |
| `Pageviews.UpsertCommutes` | src/main.rs:116-120 | Two upserts applied in either order give the same table, so no ordering of two requests loses a view. |
| `Pageviews.UpsertKeepsPositive` | src/main.rs:117-120 | The upsert keeps every `view_count` at least 1 and never lowers a count. |
| `Pageviews.UpsertTotal` | src/main.rs:117-120 | Each upsert adds exactly one view to the table's total. |
| `Pageviews.TotalRemove` | src/main.rs:117-120 | The table total is any one row's count plus the total of the other rows. |
| `Pageviews.GroupByAppend` | src/main.rs:63-67 | Adding one legacy event changes the grouped table exactly as one upsert on that event's `(domain, page, day)` would. |
| `Pageviews.GroupByIsReplay` | src/main.rs:63-67 | The `GROUP BY ... COUNT(*)` table equals the table built by recording each legacy event, one by one, on its own day. |
| `Pageviews.GroupByCounts` | src/main.rs:63-69 | After migration there is a row exactly for each `(domain, page, day(ts))` among the legacy events. Each row's count is the number of events in its group and is at least 1, and all counts add up to the number of legacy events. |
| `Schema.AggregatedSqlIsCurrent` | src/main.rs:39-59 | The stored definition of the aggregated table does not contain "ts INTEGER": its `view_count INTEGER` column reads "nt INTEGER". |
| `Schema.Migrated` | src/main.rs:49-72 | The migrated table is in the aggregated layout and well formed, and its total views equal the number of legacy events. |
| `Schema.SchemaResult` | src/main.rs:34-86 | After the schema step the table is aggregated and well formed, and the step would not migrate it again. |
| `Schema.SchemaKeepsViews` | src/main.rs:45-86 | The schema step neither loses nor invents a view. A missing table is created empty. An aggregated table keeps its counts. A legacy table becomes one row per `(domain, page, day)` group of its events, and the rows add up to the number of events. |
| `Schema.SchemaIdempotent` | src/main.rs:34-86 | Running the schema step a second time changes nothing. |
| `Store.Database.Open` | src/main.rs:32 | The database opens with the catalog entries found in the file. |
| `Store.Database.EnsureSchema` | src/main.rs:34-86 | The step fails only when a migration is needed and `pageviews_old` already exists; then nothing changes. Otherwise `pageviews` becomes the schema result, the catalog stays well formed, and after a migration no legacy table remains. After a successful run nothing is left to migrate, so a second run succeeds and, by `SchemaIdempotent`, changes nothing. |
| `Store.Database.RecordView` | src/main.rs:107-121 | On the aggregated table, the table becomes the upsert of the key built from the parameters and today's date, and nothing else changes. On any other table the failed statement leaves the database unchanged. |
| `Store.InsertByDate` | src/main.rs:138-140 | Inserting a record into the ordered result adds exactly that record and keeps all the others. |
| `Store.InsertKeepsOrder` | src/main.rs:138-140 | Inserting a record into a result ordered by date, newest first, keeps it ordered. |
| `Store.Query` | src/main.rs:137-151 | The query returns each selected row exactly once with its count, in non-increasing date order. |
| `Store.ExportFilter` | src/main.rs:137-141 | With a domain filter, every returned record has exactly that domain, and every stored row of that domain is returned with its count. With no filter, every stored row is returned. |
| `Store.ExportChronological` | src/main.rs:138-140 | Records in descending date-string order whose dates were rendered from days with years 0-9999 are in reverse chronological order. |
| `Store.ListsTotal` | src/main.rs:155-160 | Summing `view_count` over the returned records gives the total views of the selected rows. |
| `Store.ListsPages` | src/main.rs:154-159 | The pages collected from the returned records are the distinct pages of the selected rows. |
| `Store.Summarize` | src/main.rs:153-174 | The single pass over the queried records returns the records themselves. `total_records` is their number, `total_views` is the sum of their `view_count`s, and `unique_pages` is the number of distinct pages among them. |
| `Store.Database.Export` | src/main.rs:129-174 | Without an aggregated table there is no report. Otherwise the report lists exactly the selected rows, newest first. `total_records` is the number of records and of selected rows. `total_views` is the sum of their counts and the total of the selected rows. `unique_pages` is the number of distinct pages among them. |

## Left out

- HTTP routing, query extraction, response headers, the GIF pixel bytes and the JSON building and pretty-printing are not modelled. The export result is the `Store.Report` datatype, not JSON text.
- Choosing the database path, creating the directory, opening the file, the TCP listener and the async runtime are I/O. `Store.Database.Open` takes the catalog as it is found in the file.
- The `Arc<Mutex<Connection>>` only serialises requests. Each operation is a method that runs to completion on one owned database.
- `OffsetDateTime::now_utc()` reads the clock. RecordView takes today's date as the `today` parameter.
- SQLite's `date(ts, 'unixepoch')` calendar conversion is the function parameter `dayOf`. A timestamp it cannot convert yields NULL, the NOT NULL insert then fails and the process panics. That path is not modelled.
- The `println!` progress messages are not modelled.
- `unwrap()` panics are not modelled, except two. The rename clash is the `ok == false` result of EnsureSchema. A missing aggregated table is Export's `None`. Other store failures (I/O errors, NULL legacy columns) are outside the model.
- Store.Database.EnsureSchema: the four migration statements run as one uninterrupted method. A crash between them, which the source does not guard against, is not modelled.
- Store.Database.EnsureSchema: SQLite rewrites the table name inside the stored text of a renamed table. The model keeps the old text, because it is never read again before the drop.
- Schema.WellFormed: an existing `pageviews` table is assumed to have the marker exactly when its rows are legacy events. A table of some third layout is not modelled.
- Store.Database.RecordView: `view_count` is an unbounded integer. In SQLite a count past 2^63-1 would become a floating-point value, and the export's `i64` read would then fail.
- Store.Database.Export: `total_views` is an unbounded integer. The source's `i64` accumulator would overflow only past 2^63-1 views.
- Store.Query: rows with equal dates come in whatever order the model picks. SQLite's order for them is unspecified too.
- Dates.FormatDateOrder: the order and length lemmas are stated for years 0-9999. A negative year renders as '-' and at least three digits. Such dates sort before every non-negative one, and among themselves string order is not chronological order.
