# corgidb change-request processor, modelled in Dafny

This project models `proc_col_req` from `corgidb/ingest.py`. That function
reads a column-request spreadsheet (`MY_COLNAME`, `DB_COLNAME`, `UNITS`,
`NEW_KEY`, `DESCRIPTION`, `TABLE`) and compares it with the live MySQL
schema. It brings the schema up to date with additive DDL:

- `ALTER TABLE t ADD COLUMN c type COMMENT "desc";` for each column that an
  existing table lacks;
- `CREATE TABLE t (...);` for each requested table the database does not
  have yet.

The modules follow the function's own steps:

| file | module | what it holds |
|---|---|---|
| `text.dfy` | `Text` | The Python string behaviour the function relies on: `str.strip()`, `str.split(",")`, `", ".join`, `str.lower()` and POSIX `os.path.splitext`. |
| `request.dfy` | `Request` | Request rows with missing (NaN) cells, the header check, the completeness check, and the UNITS split into a SQL unit and a physical unit (a loop over the column). |
| `ddl.dfy` | `Ddl` | The two statements as records, the `STRING`→`TEXT` type mapping, and the SQL text of each statement. |
| `plan.dfy` | `Plan` | The whole decision as pure functions, and the lemmas about them. The decision covers validation, the split of the requested tables into existing and new ones, the per-table new-key assertion, and the statements issued in order. |
| `ingest.dfy` | `Ingest` | The procedure as it runs. An `Engine` class holds the schema snapshot, a connection count and the log of statements sent. `ProcColReq` and its loops are proved to send exactly the statements `Plan.Process` describes. |
| `rerun.dfy` | `Rerun` | What the sent statements do to the schema. After a completed run, every requested column is in its table, and running the same request again sends nothing. |

Python sets decide the order in which the existing and the new tables are
visited. That order is unspecified. `ProcColReq` returns the two orders it
used as ghost values and proves that each lists its set exactly once. The
lemmas in `Plan` and `Rerun` hold for every such order.

A missing cell is `Cell.Missing`. The model follows pandas' semantics for it:

- A missing `NEW_KEY` counts as marked new, because `Series.all()` skips NaN.
- A missing `DESCRIPTION` is written into the statement as `nan`.
- A missing `TABLE` never equals any table name, so it is always a new
  table with no rows. The run therefore issues `CREATE TABLE nan ();`
  (`Plan.MissingTableCreatesNan`).

Two behaviours of the code are worth stating outright:

- **The new-key assertion runs table by table.** It sits inside the loop
  over the existing tables (`corgidb/ingest.py:126-144`), so it is not an
  up-front gate. When a later table fails it, the ALTERs already sent for
  the tables visited before it stay sent (`Plan.AlterPhaseRefusedAt`).
- **A rerun sends nothing.** Once the first run's statements are applied,
  no requested column is missing any more and the assertion has no row to
  check. Running the same request again completes and sends no statement
  (`Rerun.RerunIssuesNothing`, `Rerun.RerunOfRequest`).

## Model

| member | source | states |
|---|---|---|
| Text.Strip | corgidb/ingest.py:101-102 | The result of `strip()` is no longer than its input and neither starts nor ends with whitespace. |
| Text.StripOfStripped | corgidb/ingest.py:101-102 | Stripping text that has no surrounding whitespace returns it unchanged. |
| Text.StripPadded | corgidb/ingest.py:101-102 | Stripping whitespace-padded text returns exactly the text inside the padding. |
| Text.SplitCount | corgidb/ingest.py:99-100 | `split(c)` gives one more piece than the text has occurrences of `c`. |
| Text.SplitPiecesFree | corgidb/ingest.py:100 | No piece of `split(c)` contains `c`. |
| Text.JoinSplit | corgidb/ingest.py:100 | Joining the pieces of `split(c)` with `c` gives the original text back. |
| Text.JoinAppend | corgidb/ingest.py:161 | Joining one more part appends the separator and then that part. |
| Text.SplitJoin | corgidb/ingest.py:100 | Splitting the join of `c`-free pieces recovers those pieces. |
| Text.Lower | corgidb/ingest.py:69 | `lower()` keeps the length and leaves no capital letter. Every character that is not a capital stays where it was, and a capital becomes the same letter in lower case. |
| Text.LowerIgnoresCase | corgidb/ingest.py:69 | Two strings that differ only in the case of their letters lower-case to the same string. |
| Text.SplitExt | corgidb/ingest.py:69 | `splitext` splits a path into two parts that concatenate back to it. The extension is empty, or it is one dot followed by text with no dot and no slash. |
| Text.ExtensionOfDotted | corgidb/ingest.py:69 | For a named file with a dotted suffix, the extension is the lower-cased text after the last dot. |
| Text.ExtensionWithoutDot | corgidb/ingest.py:69 | A last path component without a dot has the empty extension. |
| Text.ExtensionOfHidden | corgidb/ingest.py:69 | A hidden file, whose last component is one dot followed by a name without dots (such as `.csv`), has the empty extension. |
| Request.HeadersValid | corgidb/ingest.py:78-88 | The header check passes exactly when every expected name is present and every present name is expected (an empty symmetric difference). |
| Request.CompletenessIgnoresOtherColumns | corgidb/ingest.py:91-93 | Completeness depends only on `MY_COLNAME`, `DB_COLNAME` and `UNITS`. |
| Request.SplitUnitFields | corgidb/ingest.py:98-105 | With a comma, the SQL unit is the stripped text before the first comma, and the physical unit is the stripped text up to the second comma. Without a comma, the value is kept unchanged and there is no physical unit. |
| Request.SplitUnitOfPair | corgidb/ingest.py:98-105 | Splitting `"sql,phys"` gives back `sql` and `phys`. |
| Request.SplitUnits | corgidb/ingest.py:96-105 | The UNITS loop gives one SQL unit and one physical unit per row, in order. Each pair is the split of that row's value. |
| Request.EntriesRowForRow | corgidb/ingest.py:106-107 | After the split, the table has one entry per row, in order. UNITS is replaced by the split and every other field is carried over. |
| Ddl.SqlType | corgidb/ingest.py:135-138 | The declared type is never `STRING`. It is the unit itself or `TEXT`, and it is `TEXT` exactly when the unit is `STRING` or `TEXT`. |
| Ddl.Def | corgidb/ingest.py:134-141 | A row's column is named after its `DB_COLNAME` and typed with the `Ddl.SqlType` of its unit: the unit itself, or `TEXT` for `STRING`. It carries its description (`nan` when missing) as the comment. |
| Ddl.Sql | corgidb/ingest.py:140-141 | ALTER text starts with `ALTER TABLE `, CREATE text starts with `CREATE TABLE `, and both end with `;`. |
| Ddl.StringColumnIsText | corgidb/ingest.py:135-142 | A `STRING` row is added with the exact text `ALTER TABLE t ADD COLUMN c TEXT COMMENT "desc";`. |
| Ddl.CreateTableOfOne | corgidb/ingest.py:153-161 | A CREATE of one column is `CREATE TABLE t (` followed by that column's text and `);`. |
| Ddl.CreateTableAppend | corgidb/ingest.py:153-161 | One more column continues the CREATE text, just before its closing `);`, with `", "` and that column's text. Together with `Ddl.CreateTableOfOne`, this fixes the text of every CREATE with columns, by induction on the columns. |
| Plan.PartitionOfRequestedTables | corgidb/ingest.py:118 | The existing and new tables are disjoint and together make up the distinct requested tables. Every existing table is live, and no new table is. |
| Plan.RowsOfMembers | corgidb/ingest.py:127 | The rows selected for a table are exactly the rows naming it, and none are selected for a missing name. |
| Plan.RowsOfAppend | corgidb/ingest.py:150 | Selecting a table's rows keeps input order. |
| Plan.MissingRowsMembers | corgidb/ingest.py:128 | The new keys are exactly the table's rows whose `DB_COLNAME` is not among its live columns. |
| Plan.MissingRowsAppend | corgidb/ingest.py:128 | Keeping the new keys commutes with concatenation, so duplicate rows and row order are kept. With `Plan.MissingRowsMembers` and the length bound, this fixes the filter. |
| Plan.AlterPhase | corgidb/ingest.py:126-144 | The existing-table loop issues only ALTERs. A failure is always the new-key assertion for one of the looped tables. |
| Plan.AlterPhaseAdmitted | corgidb/ingest.py:126-144 | When every table passes the assertion, the loop completes after issuing every table's ALTERs, table after table. |
| Plan.AlterPhaseRefusedAt | corgidb/ingest.py:129-132 | When one table is the first to fail the assertion, the run fails naming that table. The ALTERs of the tables before it stay issued, and none are issued for it or for the tables after it. |
| Plan.AlterPhaseCompletedIff | corgidb/ingest.py:129-132 | The loop completes exactly when every existing table's new keys are all marked new. |
| Plan.AddedToAllAlters | corgidb/ingest.py:134-144 | Over tables visited once each, a table gets exactly one ALTER per missing row, in row order, and a table outside the loop gets none. |
| Plan.AllAltersAddOnlyMissing | corgidb/ingest.py:128-144 | Every ALTER adds, to a table of the loop, a column that table does not have yet. |
| Plan.CreatePhase | corgidb/ingest.py:149-163 | There is one CREATE per entry of the new-table order, at the same position. Each lists the columns of that table's rows in input order. |
| Plan.OneCreatePerNewTable | corgidb/ingest.py:147-163 | Walking the new tables once each issues exactly as many CREATEs as there are new tables, and each new table gets its own. |
| Plan.MissingTableCreatesNan | corgidb/ingest.py:147-161 | A row with an empty `TABLE` cell makes a completed run issue `CREATE TABLE nan ()` with no columns. |
| Plan.Diff | corgidb/ingest.py:126-163 | No ALTER follows a CREATE. A failed run has issued only ALTERs. |
| Plan.DiffCompleted | corgidb/ingest.py:126-163 | When every table passes, the run completes. Each existing table gets exactly its missing columns, in row order. Only missing columns are added. The CREATEs are those of the new-table loop, in order. |
| Plan.Process | corgidb/ingest.py:69-93 | The checks run in order: extension, then headers, then completeness. The run fails on the extension exactly when it is not `csv`, `xls` or `xlsx`. It fails on the headers exactly when the extension passes and the headers are wrong. It fails on missing entries exactly when both earlier checks pass and a row is incomplete. A failed check issues nothing. A request that passes every check runs `Plan.Diff` on the split table. |
| Plan.ExtensionDispatch | corgidb/ingest.py:69-75 | A file `name.ext` is rejected exactly when `ext`, lower-cased, is not `csv`, `xls` or `xlsx`. |
| Plan.NoExtensionRejected | corgidb/ingest.py:69-75 | A file without an extension is rejected and nothing is issued. |
| Plan.AnyCaseAccepted | corgidb/ingest.py:69-73 | A suffix spelled `csv`, `xls` or `xlsx` in any mix of letter cases (`CSV`, `Csv`, `xLsX`) is accepted. |
| Plan.HiddenFileRejected | corgidb/ingest.py:69-75 | A hidden file such as `.csv` has no extension, so it is rejected and nothing is issued. |
| Ingest.Engine.Connect | corgidb/ingest.py:113 | Opening a connection counts one more connection. |
| Ingest.Engine.ShowTables | corgidb/ingest.py:114-115 | SHOW TABLES reports exactly the tables of the schema. |
| Ingest.Engine.ShowColumns | corgidb/ingest.py:122-123 | SHOW COLUMNS reports the live columns of the table. |
| Ingest.Engine.Execute | corgidb/ingest.py:144 | Executing a statement appends it to the log. |
| Ingest.Enumerate | corgidb/ingest.py:118 | Listing a set gives each element exactly once. |
| Ingest.SplitUnitsColumn | corgidb/ingest.py:96-107 | The UNITS loop and the column replacement produce exactly the split table. |
| Ingest.FetchColumns | corgidb/ingest.py:120-123 | `existing_keys` maps every existing table to its live columns. |
| Ingest.AddColumns | corgidb/ingest.py:134-144 | The row loop sends one ALTER per new key, in row order. |
| Ingest.AlterTable | corgidb/ingest.py:127-144 | One pass of the existing-table loop admits the table exactly when all its new keys are marked new. When admitted, it sends that table's ALTERs. When refused, it sends nothing. |
| Ingest.AlterExisting | corgidb/ingest.py:126-144 | The existing-table loop returns the outcome and sends the statements that `Plan.AlterPhase` gives for the same order. |
| Ingest.ColumnDefs | corgidb/ingest.py:153-159 | The `txt` loop produces one column definition per row, in order. |
| Ingest.CreateNew | corgidb/ingest.py:149-163 | The new-table loop sends the CREATEs that `Plan.CreatePhase` gives for the same order. |
| Ingest.RunRequest | corgidb/ingest.py:110-163 | After validation, one connection is opened. The statements sent are those of `Plan.Diff` for the orders used. The existing order lists the existing tables once each, and the new order, when reached, lists the new tables once each. |
| Ingest.ProcColReq | corgidb/ingest.py:51-163 | The outcome and the statements sent are those of `Plan.Process`. A connection is opened exactly when validation passes, and the orders used list their sets once each. |
| Rerun.EveryRequestedColumnLands | corgidb/ingest.py:126-163 | After a completed run, applying the statements puts every requested column in its table, whether the table existed or was created. |
| Rerun.RerunIssuesNothing | corgidb/ingest.py:126-163 | When every row names a table, rerunning against the resulting schema completes and issues nothing. |
| Rerun.RerunOfRequest | corgidb/ingest.py:51-163 | When every row names a table, the whole procedure rerun on the same request against the resulting schema completes and sends nothing. |

## Left out

- `gen_engine` (`corgidb/ingest.py:9-48`) is not modelled. It is pure I/O: keyring access, a password prompt and a SQLAlchemy connection.
- Reading the file is not modelled. `pandas.read_csv`/`read_excel` and the `comment` argument are replaced by inputs: the file name, the header row and the parsed rows. Cell values other than text (and booleans for `NEW_KEY`) are not modelled.
- The database's acceptance of a statement is not modelled. A rejected statement (a duplicate column, or the invalid `CREATE TABLE nan ()`) and SQL quoting of names taken from the file are outside the model. `Engine.Execute` only records the statement.
- The SHOW TABLES and SHOW COLUMNS queries are answered from the engine's schema snapshot and are not recorded in the log. The snapshot is taken once and is not updated by the statements sent, as in the source, which queries before any ALTER. `Rerun.Apply` gives the effect that statements are expected to have.
- Closing connections is not modelled. The source never closes this one.
- Text.Lower: only ASCII letters are lower-cased. Python's full Unicode `lower()` is not modelled. This does not change which of `csv`, `xls` and `xlsx` is accepted for any ASCII suffix.
- Text.SplitExt: POSIX paths only (`/` as the separator). Windows drive letters and backslashes are not modelled.
- Ddl.Sql: its contract states only the statement kind and the final `;`. Some exact texts are stated by lemmas: the ALTER text of a `STRING` row (`Ddl.StringColumnIsText`) and every CREATE text with columns (`Ddl.CreateTableOfOne`, `Ddl.CreateTableAppend`). The ALTER text of a row of any other unit rests on the function body.
- Python assertions are assumed to be enabled. The header check, the completeness check and the new-key check are `assert` statements (`corgidb/ingest.py:86`, `91`, `129`). Under `python -O` they are skipped, and columns not marked new would be ALTERed. The model does not cover that mode.
- Rerun.RerunOfRequest: requires every row to name a table, for the reason given for `Rerun.RerunIssuesNothing` below.
- Rerun.RerunIssuesNothing: requires every row to name a table. A row with an empty `TABLE` cell makes every run issue `CREATE TABLE nan ()` again (`Plan.MissingTableCreatesNan`).
- `Scripts/gen_saturation_curves.py` and `Scripts/gen_scenarios.py` are not part of this model. They are floating-point computations in foreign libraries.
