# Reconcile-and-load core of the product catalog loader, in Dafny

This project models the step of the catalog pipeline that loads parsed product records into
PostgreSQL. The step is `database_pipeline` together with the `Database` class it drives and
the static helpers of `DatabaseStatic`. It also models the record-shaping helpers of the
reader: `is_number`, `discount`, `shrink_line`, `shrink_list` and the row filters of
`read_eans` and `read_data`. The repository holds two near-identical copies of each file
(`app/…` and the root copies). Each is modelled once. The last section of this file
maps every member to the lines of the second copy.

The database is modelled as abstract state, with no SQL text:

- `Store.Tables` maps table names to rows. Every `Store.Row` carries its `ean`.
- `Store.Statement` lists the five statements the code executes.
- `Store.Apply` says what PostgreSQL does with each statement, errors included.
  - An INSERT fails, in this order, on an empty VALUES list, a missing table, an unknown column, a repeated column, a tuple of the wrong length, a missing `ean` column, a cell the column type refuses, or a repeated key. Only then are rows appended.
- `Connection.State` is one connection: the open transaction, the committed tables, the unread result set, whether a refused statement has aborted the transaction, and the trace of every request sent (`Execute(stmt)` or `Commit`).
  - As in PostgreSQL, an aborted transaction refuses every further statement, and `commit()` then rolls back to the committed tables.
- `Databases.Database` is the Python class. Its fields are that state. Each method is proved equal to a pure function of `Connection` (`TableExistsOn`, `CreateTableOn`, `DropTableOn`, `CompareOn`, `AddOn`, …).
- `Pipelines.DatabasePipeline` is `database_pipeline`. It is proved equal to `Pipelines.Reconcile`, and the lemmas of `Pipelines` state what a run does.

Other modelling choices:

- Records are Python dicts, modelled as ordered association lists (`Dicts`). Insertion order matters because `tuple(record.values())` follows it.
- A field is text as read from the CSV, or a number once `conv_float` has run (`Records.Value`).
- Python's `float()` on decimal text is an exact decimal parser over reals (`Numbers.ParseFloat`).
- The `:.0f` rounding of `discount` is round-half-even on the exact quotient (`Numbers.RoundHalfEven`).
- `input()` in `drop_table` becomes the `answer` parameter.
- CSV decoding is abstracted: `read_eans` and `read_data` take the decoded rows, one string dictionary each.

## Model

| member | source | states |
|---|---|---|
| Schema.SchemaColumns | app/database.py:203-212 | the column list read off the default schema text by strip, split on ",", first word of each piece, drop `id` is exactly `ean, title, description, price, old_price, status, brand, color, url, discount` |
| Schema.ColumnsOfSchema | app/database.py:208-212 | for any well-formed list of definitions, reading the names back from the schema text gives the defined names in order, without `id` |
| Schema.IdFirstColumns | app/database.py:21-33 | when `id` is the first definition and no other definition is named `id`, the derived columns are the names of all the other definitions, in order |
| Schema.DefinedColumns | app/database.py:21-33 | the default schema defines `id` first and only once, and its other ten names are `Columns` |
| Schema.SchemaStrip | app/database.py:210 | `schema.strip()` removes exactly the leading line break and indentation and the trailing ones, leaving the definitions joined by "," |
| Schema.PiecesSplit | app/database.py:210 | `.split(",")` gives back each definition line, because no definition contains a comma |
| Schema.NamesOfPieces | app/database.py:211 | the first word of each stripped piece is the name of its definition |
| Schema.NameOfLine | app/database.py:211 | one schema line (line break, indentation, definition) reads back as its column name |
| Schema.DefinitionsWellFormed | app/database.py:21-33 | every name of the default schema is non-empty lower-case letters and underscores, so reading it back is exact |
| Schema.DefaultColumns | app/database.py:203-212 | `_columns_from_schema()` is the ten data columns (computed from the text, proved equal) |
| Records.ConvFloat | app/database.py:154-161 | a falsy value gives 0, a number is kept, non-empty text is `float(text)` and raises `ValueError` exactly when `float` refuses it; the result is always a number |
| Records.ConvFloatIdempotent | app/database.py:154-161 | converting an already converted field again changes nothing |
| Records.ConvFloatDecimal | app/database.py:159-161 | digits around one point, such as "19.99", convert to that decimal fraction |
| Records.ConvFloatNoDigit | app/database.py:159-161 | non-empty text without a digit, such as "abc", raises `ValueError`; nothing is clamped |
| Records.IncomingEan | app/database.py:171 | a record gives a key exactly when it has an `ean` entry whose value is truthy, and the key is that value |
| Records.CsvEans | app/database.py:164-172 | `_get_csv_eans_records`: only truthy keys, at most one per record |
| Records.CsvEansConcat | app/database.py:170-172 | key extraction keeps record order: the keys of `a + b` are the keys of `a` then those of `b` |
| Records.CsvEansMembers | app/database.py:170-172 | a value is an incoming key exactly when some record carries it as a present, non-empty `ean` |
| Records.UnpackDbEans | app/database.py:175-184 | `_unpack_db_eans_records`: one text per fetched row, the first cell of that row, in order |
| Records.TextsMembers | app/database.py:196-200 | a stored key, as text, is in the list compared against exactly when it is a stored key |
| Records.CompareDbCsv | app/database.py:187-200 | `compare_db_csv`: an element is returned exactly when it is incoming and not stored |
| Records.CompareCounts | app/database.py:196-200 | as a multiset, the result holds every incoming element not stored as many times as it is incoming, and no stored one |
| Records.CompareConcat | app/database.py:196-200 | the comparison keeps incoming order: comparing `a + b` is comparing `a`, then `b` |
| Records.CompareRerun | app/database.py:196-200 | storing the missing keys and comparing again leaves nothing missing |
| Records.NoneMissing | app/database.py:196-200 | when every incoming key is stored, nothing is missing |
| Records.CompareKeepsDuplicates | app/database.py:196-200 | an incoming key given twice and not stored is returned twice |
| Records.CompareExample | app/database.py:196-200 | stored "100", "200" against incoming "100", "300": only "300" is missing |
| Records.NormalizeField | app/database.py:251 | `record[key] = conv_float(record[key])`: a missing key raises `KeyError`, a refused value raises its `ValueError` and leaves the record as it was, otherwise only that field changes, keeping its place |
| Records.NormalizeRecord | app/database.py:250-252 | the loop body: no error exactly when both prices are present and convert; then both prices are converted and every other field and the key order are unchanged; a missing or refused `price` raises its `KeyError` or `ValueError` and leaves the record as it was; a missing or refused `old_price` raises its error and leaves `price` converted |
| Records.NormalizeRecordIdempotent | app/database.py:250-252 | normalising a normalised record again changes nothing and raises nothing |
| Records.StepsConcat | app/database.py:250-252 | the loop over `a + b` is the loop over `a`, then over `b` unless `a` raised, in which case `b` is untouched |
| Records.NormalizeAllSucceeds | app/database.py:250-252 | the loop raises nothing exactly when every record's prices convert, and then every record is normalised, whether or not it is selected later |
| Records.NormalizeAllFirstFailure | app/database.py:250-252 | the first record whose prices do not convert stops the loop with its error: the records before it are normalised, it is half done, the ones after it are untouched |
| Records.SelectConcat | app/database.py:253-257 | the selection keeps CSV order: selecting from `a + b` is selecting from `a`, then from `b` |
| Records.SelectMembers | app/database.py:253-257 | a tuple is selected exactly when it is `tuple(record.values())` of a record whose `record.get("ean", "")` is to be added |
| Records.SelectAt | app/database.py:253-257 | a selected record's tuple sits at the position given by the number of tuples selected before it |
| Records.SelectKeepsDuplicates | app/database.py:253-257 | a record given twice with a key to add yields two identical tuples |
| Store.UnpackStored | app/database.py:175-184 | unpacking the `SELECT ean` result of a table gives that table's keys |
| Store.KindAtFirst | app/database.py:21-33 | a column's type is the type of its first definition in the schema |
| Store.EanKind | app/database.py:23 | `ean` is a `VARCHAR(32)` |
| Store.PriceKinds | app/database.py:26-27 | `price` and `old_price` are `REAL` |
| Store.DiscountKind | app/database.py:32 | `discount` is a `VARCHAR(4)` |
| Store.ColumnsDefined | app/database.py:21-33 | every derived column is defined by the schema |
| Store.Cell | app/database.py:21-33 | a VARCHAR(n) takes text of at most n characters as it is, and longer text only when every character past n is a space, cut to n; a TEXT column takes any text; a REAL takes a number or text `float` reads; a number in a text column is refused |
| Store.StoredKeyCases | app/database.py:23 | `ean VARCHAR(32)` stores a key of at most 32 characters whole, a longer key ending in spaces as its first 32 characters, and refuses any other longer key |
| Store.FirstUndefined | app/database.py:258-268 | the first INSERT column the schema does not define: none exactly when all are defined, otherwise an undefined column with every column before it defined |
| Store.ConvertCells | app/database.py:253-268 | a VALUES tuple is stored by column exactly when every cell is accepted by its column's type |
| Store.BuildRowEan | app/database.py:23 | the stored row's key is what `VARCHAR(32)` keeps of the tuple's `ean` cell |
| Store.BuildRowsEans | app/database.py:253-268 | the keys of the built rows are the stored `ean` cells of the tuples, in order |
| Store.InsertRows | app/database.py:259-269 | an accepted INSERT changes only its table and had tuples of the right length; an empty VALUES list is a syntax error; a missing table is `UndefinedTable` |
| Store.InsertAppends | app/database.py:259-269 | an accepted INSERT appends one row per tuple after the old rows, and the table's keys stay distinct |
| Store.InsertStoresKeys | app/database.py:253-269 | after an accepted INSERT, the row appended for tuple `i` carries that tuple's stored `ean` cell |
| Store.InsertStoresKey | app/database.py:253-269 | the same for one tuple: its stored key sits in the row appended for it |
| Store.InsertKeysFit | app/database.py:23 | every key an accepted INSERT appends has at most 32 characters |
| Store.InsertKeysFresh | app/database.py:23 | an accepted INSERT had pairwise distinct keys, none already stored, compared as `VARCHAR(32)` stores them: `UNIQUE` on `ean` |
| Store.Apply | app/database.py:345-350 | which statements PostgreSQL accepts (a metadata query always, `SELECT ean` and `DROP` on an existing table, `CREATE` on a new one, an INSERT as `InsertRows` says) and that only CREATE, DROP and INSERT change tables |
| Store.ApplyConsistent | app/database.py:23 | no accepted statement makes two rows of a table share a key |
| Store.TableQueryRows | app/database.py:335-339 | the metadata query returns a row exactly when the table exists |
| Store.FetchResult | app/database.py:352-363 | `fetch(0)` returns every unread row, `fetch(1)` a one-element list holding `None` when nothing is unread, `fetch(n)` at most `n` rows; what is returned and what stays unread make up the unread rows |
| Store.CarriedSomes | app/database.py:359 | the rows `fetchall` returns are the unread rows |
| Store.FetchTruthiness | app/database.py:339 | `bool(fetch())` is whether a row was unread; a `fetch(1)` list is never empty |
| Connection.SendSound | app/database.py:345-370 | no request (execute, commit, fetch) can make keys of a table collide, in the open transaction or the committed state |
| Connection.SendFacts | app/database.py:345-350 | `execute_query` records the request and commits nothing; it raises exactly when the transaction is aborted or PostgreSQL refuses the statement; a refused statement changes no table and aborts the transaction |
| Connection.RefusedRollsBack | app/database.py:345-370 | after a refused statement every further statement raises, and `commit()` rolls back to the committed tables |
| Connection.SendCommit | app/database.py:269-270 | `execute_query` then `commit`: on success the new tables are committed after one execute and one commit; on error nothing is committed and no commit is sent |
| Connection.FetchKeepsTables | app/database.py:352-363 | fetching changes no table and sends nothing; it fails exactly when no result set is open |
| Connection.TableExistsOn | app/database.py:329-343 | `table_exists` is true exactly when the table exists, changes no table and sends one query; in an aborted transaction it raises |
| Connection.CreateTableOn | app/database.py:286-306 | `create_table` on a new name commits it as an empty table after one execute and one commit; on an existing name it raises `DuplicateTable` and commits nothing |
| Connection.DropTableOn | app/database.py:308-327 | `drop_table` changes nothing and sends nothing unless the stripped, lower-cased answer is "y" or "yes"; then it drops and commits, or raises on a missing table |
| Connection.DbEansOn | app/database.py:220-235 | `_get_db_eans_records` returns the table's keys (listed in the model's row order), raises `UndefinedTable` on a missing table, and changes nothing |
| Connection.CompareOn | app/database.py:273-284 | `compare_records` succeeds exactly when the table exists and returns the incoming keys that are not stored, in record order |
| Connection.AddOn | app/database.py:237-271 | `add_records`: the caller's records are left normalised, even when the INSERT fails; a normalisation error sends nothing; otherwise one INSERT of the selected tuples under the schema columns, committed exactly when accepted |
| Connection.AddOnStops | app/database.py:250-252 | a normalisation error ends `add_records` before anything is sent |
| Connection.AddOnSends | app/database.py:253-270 | after normalisation, `add_records` is one INSERT and its commit |
| Connection.InsertCommitted | app/database.py:269-270 | an INSERT that raised nothing is committed with the rows PostgreSQL appended |
| Databases.Database.constructor | app/database.py:36-55 | a new `Database` sees the server's tables, all committed, with no result set and nothing sent |
| Databases.Database.ExecuteQuery | app/database.py:345-350 | `execute_query` does to the connection what `Connection.Send` says, and keeps keys unique |
| Databases.Database.Fetch | app/database.py:352-363 | `fetch` does what `Connection.FetchOn` says |
| Databases.Database.Commit | app/database.py:365-370 | `commit` makes the open transaction the committed state, or rolls an aborted one back, and records the commit |
| Databases.Database.ExecuteCommit | app/database.py:269-270 | execute then commit unless the statement raised, as `Connection.SendCommit` says |
| Databases.Database.TableExists | app/database.py:329-343 | `table_exists` is `Connection.TableExistsOn`: true exactly when the table exists |
| Databases.Database.CreateTable | app/database.py:286-306 | `create_table` is `Connection.CreateTableOn` |
| Databases.Database.DropTable | app/database.py:308-327 | `drop_table` is `Connection.DropTableOn` |
| Databases.Database.GetDbEans | app/database.py:220-235 | `_get_db_eans_records` is `Connection.DbEansOn` |
| Databases.Database.CompareRecords | app/database.py:273-284 | `compare_records` is `Connection.CompareOn` |
| Databases.Database.AddRecords | app/database.py:237-271 | `add_records` is `Connection.AddOn`: the caller's list is updated in place to the normalised records, and the connection state is the one `AddOn` gives |
| Databases.Database.InsertSelected | app/database.py:253-270 | the tuples of the records whose key is to be added, in record order, go out in one INSERT under the schema's columns, and then the commit: the new state and error are `SendCommit` of that INSERT |
| Databases.NormalizePrices | app/database.py:250-252 | the loop leaves the array as `NormalizeAll` of its old contents and raises its error |
| Databases.UpdateEach | app/database.py:250-252 | a `for record in csv_records` loop that replaces each record in place stops at the first error, leaving the later records untouched |
| Pipelines.EnsureTable | app/pipelines.py:55-56 | after the existence check and the optional creation the table exists, and nothing is raised |
| Pipelines.DatabasePipeline | app/pipelines.py:43-59 | `database_pipeline` on a fresh connection ends in exactly the state, records and error of `Reconcile` |
| Pipelines.ReconcileSteps | app/pipelines.py:55-59 | the run is the existence check, the creation only when absent, the comparison, and then `add_records` exactly when something is missing |
| Pipelines.ReconcileTrace | app/pipelines.py:55-59 | the requests of a run start with the opening requests, whatever `add_records` does afterwards |
| Pipelines.ReconcileCreatesOnlyWhenAbsent | app/pipelines.py:55-56 | the first request is the existence check, and the second is CREATE TABLE exactly when the table was absent |
| Pipelines.ReconcileKeepsCreatedTable | app/pipelines.py:55-56 | a table the run created is committed whatever happens afterwards |
| Pipelines.ReconcileNothingMissing | app/pipelines.py:57-59 | with the table present and nothing missing, the run sends only the check and the `SELECT ean`, and writes and commits nothing |
| Pipelines.SelectedRowKey | app/database.py:253-257 | a record whose key is to be added yields a tuple whose first cell is that key, when `ean` is its first field |
| Pipelines.MissingKeyStored | app/database.py:253-270 | a missing key is stored by an accepted INSERT of the selected tuples, as `VARCHAR(32)` keeps it |
| Pipelines.KeysAfterInsert | app/database.py:253-270 | an accepted INSERT of the selected tuples keeps the old rows as a prefix and stores every incoming key, whole or as its cut |
| Pipelines.FitKeyStored | app/database.py:23 | a key of at most 32 characters is held only whole |
| Pipelines.AddOnStoresEveryKey | app/database.py:237-271 | when `add_records` raises nothing, the committed table keeps its old rows and holds every incoming key |
| Pipelines.ReconcileStoresEveryKey | app/pipelines.py:55-59 | after a run that raises nothing, the committed table keeps the old rows as a prefix and holds every non-empty incoming key, whole when it has at most 32 characters and as its first 32 otherwise |
| Pipelines.ReconcileRerun | app/pipelines.py:57-59 | when every incoming key has at most 32 characters, a second run over the same records after a successful run inserts nothing, commits nothing and sends only the check and the `SELECT ean` |
| Pipelines.ReconcileKeysFit | app/pipelines.py:57-59 | every key a successful run appends has at most 32 characters |
| Pipelines.CutKeyStored | app/pipelines.py:57-59 | a new key over 32 characters is held after a successful run only as its first 32 characters |
| Pipelines.ReconcileRerunCutKey | app/pipelines.py:57-59 | on a settled connection whose table holds such a key only as its cut, with records that normalise (`HeldCut`, which `ReconcileSettles`, `MissingNormalized` and `CutKeyStored` give for the state a first successful run leaves), a second run finds the whole key missing again, and its INSERT repeats the stored cut key, so the run raises |
| Pipelines.AddOnRefused | app/database.py:253-270 | `add_records` raises when a key to add is already stored as its cut |
| Pipelines.MissingNormalized | app/database.py:250-252 | a successful run with a missing key has normalised every record |
| Pipelines.ReconcileSettles | app/pipelines.py:55-59 | a run that raises nothing leaves no uncommitted change |
| Pipelines.ReconcileFailureAddsNothing | app/pipelines.py:55-59 | a run that raises commits no record: the committed tables are the old ones, plus the new empty table if the run created it |
| Pipelines.ReconcileDuplicateKey | app/pipelines.py:57-59 | two records with the same key that is not stored make the run raise and commit no record |
| Pipelines.TwoSelected | app/database.py:253-257 | such a pair yields two selected tuples that both start with the key |
| Reader.IsNumberIff | app/reader.py:30-31 | `is_number` holds exactly for non-empty text of digits with at most one ".", other than "." alone |
| Reader.NotNumberExamples | app/reader.py:30-31 | "", "-5", "1.2.3" and "." are not numbers |
| Reader.NumberExamples | app/reader.py:30-31 | "70", "70.0", ".5" and "5." are numbers |
| Reader.IsNumberParses | app/reader.py:38-39 | whatever passes `is_number` is read by `float` as a non-negative number |
| Reader.DiscountOf | app/reader.py:33-43 | the discount is non-empty exactly when both fields are numbers and the price is below the old price, and then it is one to three digits followed by "%" |
| Reader.DiscountRounded | app/reader.py:43 | a non-empty discount is the integer nearest to `100 - price * 100 / old_price`, between 0 and 100, then "%" |
| Reader.DiscountFromValues | app/reader.py:40-43 | for two numbers the discount is empty exactly when the price is not below the old price |
| Reader.PercentOffRange | app/reader.py:43 | with `0 <= price < old_price` the percentage off lies in (0, 100], so no division by zero |
| Reader.Discount | app/reader.py:24-43 | `discount(line)` raises `KeyError` exactly when `price` or `old_price` is missing, and otherwise is `DiscountOf` the two fields |
| Reader.DiscountTestsEmpty | tests.py:28-44 | an empty price or old price gives "" |
| Reader.DiscountTestsNoDiscount | tests.py:46-56 | "150" against "100" and "100" against "100" give "" |
| Reader.DiscountTestThirty | tests.py:58-62 | "70" against "100" gives "30%" |
| Reader.DiscountTestThirtyPointZero | tests.py:64-68 | "70.0" against "100.0" gives "30%" |
| Reader.DiscountOfPointZero | app/reader.py:30-43 | a trailing ".0" on whole numbers does not change the discount |
| Reader.ShrinkLine | app/reader.py:45-57 | `shrink_line` keeps the keys in order, keeps values no longer than `length`, and cuts longer ones to their first `length` characters plus "..." (from the end when `length` is negative) |
| Reader.ShrinkLineIdempotent | app/reader.py:54-57 | for `length >= 0`, shrinking a shrunk line changes nothing |
| Reader.ShrinkNegativeNotIdempotent | app/reader.py:54-57 | for a negative length, shrinking again cuts further |
| Reader.ShrinkList | app/reader.py:59-67 | `shrink_list` has one line per record, in order, each the record shrunk |
| Reader.ReadEansSucceeds | app/reader.py:86 | `read_eans` raises exactly when a row lacks `active`, or is active and lacks `ean` |
| Reader.ReadEansConcat | app/reader.py:86 | `read_eans` keeps the order of the rows |
| Reader.ReadEansMembers | app/reader.py:86 | exactly the `ean` of each row whose `active` is "1" is returned |
| Reader.ReadDataConcat | app/reader.py:100-108 | `read_data` keeps the order of the rows |
| Reader.ReadDataAll | app/reader.py:106-108 | with `eans` empty or absent, every row is kept, in order, each with its `discount` set |
| Reader.ReadDataFiltered | app/reader.py:100-105 | with non-empty `eans`, a line is returned exactly when it is a row whose `ean` is listed, extended with its `discount` |
| Reader.DiscountFits | app/reader.py:102 | every line `read_data` returns has a `discount` of at most four characters, which fits `VARCHAR(4)` |
| Numbers.ParseFloatDecimal | app/database.py:161 | `float` reads digits around one point, with at least one digit, as that decimal fraction |
| Numbers.ParseFloatStrips | app/database.py:161 | whitespace around the text does not change what `float` reads |
| Numbers.ParseFloatSigned | app/database.py:161 | a leading `-` negates the number that follows, a leading `+` keeps it |
| Numbers.ParseFloatRejects | app/database.py:161 | `float` refuses any text without a digit, such as "abc", "" and "." |
| Numbers.RoundHalfEven | app/reader.py:43 | the rounded integer is within one half of the value, and a tie goes to the even integer |
| Numbers.RoundHalfEvenUnique | app/reader.py:43 | that integer is the only one with these properties |
| Dicts.Set | app/database.py:251 | assigning a key makes it map to the new value and changes no other key; an existing key keeps its place and a new one is appended |
| Dicts.SetExisting | app/database.py:254 | assigning an existing key changes only that position of `record.values()` |
| Dicts.Get | app/database.py:171 | a lookup finds a value exactly when the key is present |
| Text.StripAround | app/database.py:210-211 | `strip()` removes exactly the surrounding whitespace |
| Text.SplitJoin | app/database.py:210 | splitting on a separator that no piece contains gives back the pieces |
| Text.Lower | app/database.py:322 | `lower()`, one character at a time |

## Left out

- The psycopg2 connection and cursor plumbing, the disconnect in `__del__`, and the configuration defaults of `DatabaseBase.__init__` are left out. They are resource handling in a foreign library. The constructor takes the server's tables instead.
- SQL text is not modelled: not the building with `sql.SQL`, `sql.Identifier` and `sql.Literal`, not identifier quoting, not literal escaping. Statements are the abstract `Store.Statement` values.
- `_message`, `print` and the verbose toggle are left out, because they are output only.
- `drop_table` does not call `input()`. The reply is the `answer` parameter.
- CSV and gzip decoding and file opening in `read_eans` and `read_data` are left out. `tabulate` output in `print_out` is left out too. The filters take the decoded rows.
- `downloader.py`, `core.py`, `config.py`, `decorators.py`, `main.py` and the `app/` copies of these files (including `app/check_project.py`) are not part of this model. Neither are `downloader_pipeline` and `reader_pipeline`.
- Concurrent writers are not modelled: there is one connection and no other writer.
- Numbers.ParseFloat reads decimal text exactly, as a real. It does not model binary floating point, `inf`, `nan`, digit-group underscores or non-ASCII digits.
- Reader.DiscountRounded rounds the exact quotient half to even. Float error in `100 - price * 100 / old_price` before `:.0f` is not modelled.
- Text.IsDigit covers ASCII digits only. Python's `str.isdigit` also accepts other Unicode digits.
- Text.Lower lower-cases ASCII letters only. Python's `str.lower` also maps other Unicode letters.
- Store.FetchResult takes a non-negative `how_many`. A negative count passed to `fetchmany` is not modelled.
- Store.Cell rejects a number sent to a text column, which PostgreSQL would accept by casting. The pipeline only sends numbers for `price` and `old_price`, which are `REAL`, unless a record's fields are out of schema order.
- Connection.DbEansOn lists the keys in the model's row order. `SELECT ean` without `ORDER BY` promises no order in PostgreSQL. Only membership in that list is used downstream, so no property depends on the order.
- Pipelines.ReconcileRerun holds only when every incoming key has at most 32 characters (`KeysFit`). A longer key that ends in spaces is stored cut to 32 characters, and the next run fails on `UNIQUE` (`Pipelines.ReconcileRerunCutKey`).
- Store.Apply models only the statements the core sends. A `SERIAL` column is given no value and `id` is not stored.
- Pipelines.ReconcileStoresEveryKey, Pipelines.ReconcileRerun, Pipelines.AddOnStoresEveryKey, Pipelines.KeysAfterInsert, Pipelines.MissingKeyStored, Pipelines.SelectedRowKey, Pipelines.TwoSelected, Pipelines.ReconcileDuplicateKey, Pipelines.CutKeyStored, Pipelines.ReconcileRerunCutKey, Pipelines.AddOnRefused and Pipelines.SelectedInsertRefused assume every record has `ean` as its first field (`EanFirst`). The code itself never checks that a record's field order matches the schema's column order. With another order, the proofs about which cell reaches the `ean` column do not apply.

Where the code and the design text disagree, the model follows the code:

- A record with no `price` or `old_price` key makes `add_records` raise `KeyError`. The design says an absent price becomes 0; only an empty one does (`Records.NormalizeField`).
- Keys are lists, not sets. Duplicates and record order are kept, so an incoming key given twice is inserted twice and the INSERT fails on `UNIQUE` (`Pipelines.ReconcileDuplicateKey`).
- Every record is normalised, not only those destined for insertion, so a bad price in a record that is already stored still stops the load (`Records.NormalizeAllSucceeds`).
- `fetch(n)` returns at most `n` rows, not exactly `n` (`Store.FetchResult`).
- The INSERT sends `tuple(record.values())` in each record's own field order. It does not use the schema's order.

## Second copy

The root files repeat the `app/` files. Every member above models the same lines of the
second copy:

| app/ lines | root lines |
|---|---|
| app/database.py:21-33 (`_schema`) | database.py:16-28 |
| app/database.py:36-55 (`__init__`) | database.py:30-46 |
| app/database.py:154-161 (`conv_float`) | database.py:96-103 |
| app/database.py:164-172 (`_get_csv_eans_records`) | database.py:105-106 |
| app/database.py:175-184 (`_unpack_db_eans_records`) | database.py:108-109 |
| app/database.py:187-200 (`compare_db_csv`) | database.py:120-124 (`_compare_db_csv`) |
| app/database.py:203-212 (`_columns_from_schema`) | database.py:126-127 |
| app/database.py:220-235 (`_get_db_eans_records`) | database.py:111-118 |
| app/database.py:237-271 (`add_records`) | database.py:129-144 |
| app/database.py:273-284 (`compare_records`) | database.py:146-149 |
| app/database.py:286-306 (`create_table`) | database.py:151-161 |
| app/database.py:308-327 (`drop_table`) | database.py:163-173 |
| app/database.py:329-343 (`table_exists`) | database.py:175-182 |
| app/database.py:345-350 (`execute_query`) | database.py:184-185 |
| app/database.py:352-363 (`fetch`) | database.py:187-194 |
| app/database.py:365-370 (`commit`) | database.py:196-197 |
| app/pipelines.py:43-59 (`database_pipeline`) | pipelines.py:29-36 |
| app/reader.py:23-43 (`discount`, `is_number`) | reader.py:17-33 |
| app/reader.py:45-57 (`shrink_line`) | reader.py:35-38 |
| app/reader.py:59-67 (`shrink_list`) | reader.py:40-42 |
| app/reader.py:78-86 (`read_eans`) | reader.py:51-55 |
| app/reader.py:88-108 (`read_data`) | reader.py:57-67 |
