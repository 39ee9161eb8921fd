# MP3tag CSV import, modelled in Dafny

This project models the import path of an MP3tag library analyser. Two parts are modelled.

The first is the CSV parser (`CSVParser` in `csv_parser.py`):
- the byte-order-mark and null-byte encoding guess;
- the `;`/`,` delimiter rule;
- header cleaning and the header check;
- skipping blank rows, and padding or truncating each row to the header width;
- zipping each row into a record keyed by the non-empty header names;
- the quote-toggling line splitter of the manual fallback;
- the order of the three read stages (primary, manual re-decode, fixed schema);
- the row projection of `export_to_csv`.

The second is the record ingest of `DatabaseManager` (`db_manager.py`):
- the renaming of CSV columns to table columns;
- trimming and normalising the natural key `(relative_path, filename)`;
- filtering to the columns of `mp3_files`;
- de-duplication on the natural key, against rows stored before and earlier in the same batch;
- the count of inserted rows;
- the condition building of `search_records`.

Modules, one per file:

- `Wrappers` has `Option`.
- `Text` has the Python string operations used: `isspace`, `strip`, `replace`, `split`/`join` and ASCII `lower`.
- `OrderedDict` models a Python dict as an insertion-ordered association list. Assigning to a present key updates it in place. Assigning to a new key appends it.
- `Encodings` models `detect_encoding`.
- `Splitter` models `_split_csv_line`. The method keeps the source's scanning loop and is proved equal to a functional definition, `SplitFields`.
- `TableDecoder` covers the delimiter rule, the header rules, the row-to-record rules and the export projection.
- `Cascade` models `parse_file`.
- `DbManager` models `column_mapping`, `insert_records` and `search_records`. The SQLite table is abstract: its rows in insertion order plus the set of stored natural keys. Batch insertion is a fold over the input records.

The library calls whose behaviour is not visible in the code are parameters (`Cascade.Library`, `DbManager.Env`):
- text decoding with an encoding, strict and with `errors='replace'`;
- `str.splitlines`;
- `csv.reader`, with the sniffed dialect or with a plain delimiter: the rows it yields, and whether it stops by raising;
- `os.path.normpath`;
- the timestamp `datetime.now()`;
- whether SQLite accepts a row, beyond the checks the model makes itself;
- SQL `LIKE`.

The lookup table and the column set are parameters of the fold (`DbManager.Schema`). `DbManager.Mp3Files` is the instance the source uses.

Some behaviours of the code are easy to miss when reading it, and the model keeps them:
- An empty file gives `utf-8`, not an error. A file of 2 or 3 bytes without a mark, whose second byte is not 0, makes the heuristic read `raw[3]`. The resulting `IndexError` is caught, so the guess is `utf-16-le`.
- The mark table is searched in insertion order. `FF FE` (UTF-16-LE) comes before `FF FE 00 00` (UTF-32-LE), so `utf-32-le` is never returned.
- Empty header names are dropped, not renamed. Repeated names collapse into one entry holding the value of the rightmost column.
- A header is accepted when it has at least two fields and at least one non-empty name.
- In the primary read, a missing or rejected header, or a table without records, returns `(None, None)` at once. Only a decoding error leads to the manual path. Any other error, or a manual path that yields nothing, leads to the fixed-schema last resort. That last resort uses 38 column names.
- The primary read skips a row whose cells are all empty. A whitespace-only cell is not empty there. The manual path skips only lines that are blank once stripped, so the line `;` yields a record.
- The manual path tries `[detected, utf-16-le, utf-16-be, utf-8, windows-1252]`. Decoding uses `errors='replace'`, and a `-sig` suffix is removed from the codec name before decoding.
- In `insert_records`, `import_date` is always in the stored form, so the "no valid column" skip never happens (`NeverWithoutColumns`).
- `UnSyncLyrics` is renamed to `unsynced_lyrics`, but the table declares `unsync_lyrics`, so the lyrics value is always dropped (`LyricsNeverStored`).

## Model

| member | source | states |
|---|---|---|
| Text.Strip | csv_parser.py:139 | the result is a contiguous slice of the input, with only whitespace removed on either side, and no whitespace left at either end; the result is empty exactly when the input is all whitespace |
| Text.Remove | csv_parser.py:139 | `replace(c, '')` leaves no `c`, shortens the string by the number of occurrences of `c`, and keeps every other character |
| Text.RemoveKeepsOrder | csv_parser.py:139 | `replace(c, '')` keeps the other characters in their order: a character that is not `c` moves left by the number of `c` before it, and nowhere else |
| Text.SplitJoin | csv_parser.py:208 | joining the pieces of `split(d)` with `d` gives the line back |
| Text.SplitPieces | csv_parser.py:208 | no piece of `split(d)` contains `d`, and there is one piece more than there are occurrences of `d` |
| OrderedDict.Get | csv_parser.py:339 | `get` finds a value exactly when the key is present |
| OrderedDict.GetFirst | csv_parser.py:339 | the value `get` finds is that of the first entry with the key |
| OrderedDict.Put | csv_parser.py:167-170 | after `d[k] = v` the keys are the old keys plus `k`, `k` holds `v`, every other key keeps its value, keys stay distinct, and a new key is appended at the end |
| OrderedDict.PutKeepsOrder | csv_parser.py:167-170 | assigning to a key already present keeps the length and leaves every key in its place |
| OrderedDict.Restrict | db_manager.py:251-255 | keeping only the entries whose key is a table column: the keys are the intersection, and each kept key keeps its value |
| Encodings.DetectEncoding | csv_parser.py:50-94 | the guess is one of five encodings; an unreadable file gives UTF-16-LE and an empty one gives UTF-8; the UTF-8, UTF-16-LE, UTF-16-BE and UTF-32-BE marks give their encodings, and the UTF-32-LE mark gives UTF-16-LE; without a mark, UTF-16-LE when byte 1 or byte 3 is zero or the file has 2-3 bytes, UTF-8 otherwise |
| Encodings.FirstBom | csv_parser.py:76-79 | the found encoding is that of the first table entry whose mark starts the bytes, and no earlier mark matches; nothing is found exactly when no mark matches |
| Encodings.MarkGivesEncoding | csv_parser.py:60-79 | bytes that start with the UTF-8, UTF-16-LE, UTF-16-BE or UTF-32-BE mark are given that encoding, the earlier marks never matching them |
| Encodings.NeverUtf32LE | csv_parser.py:60-79 | the table search never yields UTF-32-LE, because the UTF-16-LE mark comes first and is a prefix of it |
| Splitter.SplitCsvLine | csv_parser.py:284-316 | the scanning loop returns the fields of `SplitFields`; there is one field more than delimiters outside quotes; a field loses surrounding quotes only if it is longer than one character; a quote-free line splits exactly as `str.split` |
| Splitter.PiecesCount | csv_parser.py:298-310 | the number of raw fields is the number of delimiters read outside quotes plus one |
| Splitter.PiecesJoin | csv_parser.py:298-310 | joining the raw fields with the delimiter gives the line back, so no character is lost or moved |
| Splitter.QuoteFreePieces | csv_parser.py:298-316 | without quotes the raw fields and the returned fields are both those of `str.split` |
| TableDecoder.ChooseDelimiter | csv_parser.py:121-123 | `,` exactly when the sample has no `;` and at least one `,`; `;` exactly otherwise |
| TableDecoder.CleanHeaderName | csv_parser.py:139 | a cleaned name holds no byte-order mark; it is the stripped name shortened by exactly its marks and holds every other character of it and nothing else; without a mark it is the stripped name |
| TableDecoder.CleanKeepsOrder | csv_parser.py:139 | the characters of the stripped name that are not marks stay in their order: each moves left by the number of marks before it |
| TableDecoder.MarkedNameCleaned | csv_parser.py:139 | a name without outer whitespace, read with a byte-order mark in front, cleans to the bare name |
| TableDecoder.MarkedTitleCleaned | csv_parser.py:139 | the first header `\ufeffTitle` of a file written with a UTF-8 signature and read without stripping it cleans to `Title` |
| TableDecoder.HeaderAcceptedNamed | csv_parser.py:147-149 | an accepted header has at least one name records are keyed by |
| TableDecoder.FitRow | csv_parser.py:161-164 | a fitted row has exactly the header's width, keeps the cells it had within that width, and is padded with empty cells |
| TableDecoder.KeptRows | csv_parser.py:156-158 | no blank row is kept, and never more rows than were read |
| TableDecoder.KeptRowsAppend | csv_parser.py:156-158 | skipping blank rows from two stretches of rows one after the other keeps the rows of the first, then those of the second, so the kept rows stay in file order and repeated rows stay |
| TableDecoder.KeptRowsSingle | csv_parser.py:156-158 | a single row is kept exactly when it is not blank |
| TableDecoder.KeptRowsEmpty | csv_parser.py:156-158 | no row is kept exactly when every row read is blank |
| TableDecoder.ZipNamed | csv_parser.py:166-170 | a record's keys are exactly the non-empty header names, without repetition, and each name holds the cell of its rightmost column |
| TableDecoder.KeptRowsMembers | csv_parser.py:156-158 | a row is kept exactly when it is non-empty and has a non-empty cell, and nothing that was not an input row is kept |
| TableDecoder.RowsToRecords | csv_parser.py:155-173 | one record per kept row, in order, each the zip of the fitted row; none when the header has no name |
| TableDecoder.LinesToRecords | csv_parser.py:215-235 | one record per line that is not blank once stripped, in order, each the zip of its split and fitted fields |
| TableDecoder.ContentLinesEmpty | csv_parser.py:216-237 | no line yields a record exactly when every data line is blank once stripped |
| TableDecoder.EmptyAndRepeatedNames | csv_parser.py:166-170 | `Title;;Title` keys a record by `Title` alone, holding the third cell, or `""` when the row is short |
| TableDecoder.EmptyCellsLine | csv_parser.py:216-220 | the row `["", ""]` is dropped by the primary read, while the manual path keeps the line `;` as two empty fields |
| TableDecoder.Project | csv_parser.py:339 | one value per header name: the record's value under that name when it has one, the empty string otherwise |
| TableDecoder.ExportRoundTrip | csv_parser.py:337-340 | exporting a record under the header it was parsed with and zipping the row again gives back the same entries |
| TableDecoder.ExportBatchRoundTrip | csv_parser.py:337-340 | re-reading exported rows returns every record that has a non-empty value, in order, with the same entries |
| Cascade.DecodeTable | csv_parser.py:135-180 | the primary verdict: no row, a rejected header and no records are the only failures, each exactly when it occurs; on success the header is the cleaned first row and the records are those the later rows give under it (`RowsToRecords`), one per kept row, keyed by the named columns |
| Cascade.PrimaryAttempt | csv_parser.py:113-152 | a decoding error exactly when the file opens and its bytes do not decode with the guessed encoding; another error exactly when it cannot be opened, or the reader raises before the header or after an accepted header; otherwise the verdict on the rows `csv.reader` gives with the dialect sniffed for the chosen delimiter, so a rejected header is final even when the reader would raise later |
| Cascade.ManualHeader | csv_parser.py:208-210 | the names are the pieces of the header line split at the delimiter, each stripped; so there is one name more than delimiters, and no name holds the delimiter or starts or ends with whitespace |
| Cascade.ManualCandidate | csv_parser.py:193-239 | a candidate encoding succeeds exactly when its text has lines, its first line gives an accepted header and some later line is not blank once stripped; then the header is the split and stripped first line and the records are those of the later lines, each keyed by the named columns |
| Cascade.ManualSearchFirstWins | csv_parser.py:192-241 | trying the encodings in order yields nothing exactly when every attempt fails; otherwise it yields the result of the first attempt that succeeds, and every earlier attempt failed |
| Cascade.ManualPath | csv_parser.py:182-243 | the manual path yields nothing exactly when every candidate encoding fails; otherwise it yields the result of the first candidate that succeeds, and every earlier candidate failed |
| Cascade.FixedSchemaAttempt | csv_parser.py:251-277 | the last resort succeeds exactly when `;`-reading the UTF-16-LE text finishes without raising and some row after the first is not blank; its records are then those of the later rows under the fixed names, at least one, each keyed by exactly the fixed names |
| Cascade.LastResort | csv_parser.py:250-282 | the last resort parses exactly when the fixed-schema read yields records, with the fixed names and exactly those records; otherwise it is the final failure |
| Cascade.ParseFile | csv_parser.py:96-282 | a missing file fails at once; a concluded primary read is final; after a decoding error the result is that of the manual path, or the last resort when every candidate fails; after any other error it is the last resort; a parsed result has an accepted header and at least one record keyed by its named columns |
| Cascade.ExpectedHeadersDistinct | csv_parser.py:41-48 | the 38 fixed names are non-empty and pairwise distinct |
| Cascade.FixedSchemaPairsPositionally | csv_parser.py:255-273 | the last resort skips the first row and pairs the i-th fixed name with the i-th cell of each fitted kept row |
| DbManager.MapColumnName | db_manager.py:228-235 | a name outside the mapping keeps its length and is lower-cased character by character, with spaces turned into underscores |
| DbManager.KnownColumnNames | db_manager.py:28-68 | the key columns and the lyrics column are renamed as the mapping lists them |
| DbManager.SchemaColumnsLowerSnake | db_manager.py:105-148 | every column name of the table starts with a lower-case letter and has only lower-case letters and underscores |
| DbManager.SchemaNamesMapToThemselves | db_manager.py:105-148 | every column name of the table is left unchanged by the renaming |
| DbManager.LyricsColumnMismatch | db_manager.py:65 | the name the mapping gives lyrics is not a table column, while `unsync_lyrics` is |
| DbManager.MapRow | db_manager.py:223-238 | the renamed record holds `import_date` and every renamed column, without repetition; each table column holds the value of the last record column renamed to it; `import_date` holds the timestamp unless a column is renamed to it |
| DbManager.NormalizeKeyFields | db_manager.py:240-244 | only `relative_path` (trimmed, then normalised) and `filename` (trimmed) change, and only if present |
| DbManager.StoredForm | db_manager.py:223-255 | the stored form's columns are the table columns among `import_date` and the renamed columns; `relative_path` is stored trimmed and normalised, `filename` trimmed; every other value is that of the renamed record |
| DbManager.StoredFormDateBlind | db_manager.py:223-255 | a record imported at another time has the same stored columns, natural key and key fields, and the same value in every column but `import_date` |
| DbManager.InsertStored | db_manager.py:257-288 | a record is inserted exactly when it has columns, its key is not stored, both key fields are present and the database accepts it; otherwise the table is unchanged |
| DbManager.InsertAll | db_manager.py:223-288 | the count equals the rows appended, the old rows are kept in front, the count is at most the batch size, and stored keys are never lost |
| DbManager.InsertAllRows | db_manager.py:257-288 | the rows appended are, in batch order, the first admissible record of each natural key not stored before; the keys stored afterwards are the old keys and those of the admissible records |
| DbManager.InsertRecords | db_manager.py:206-293 | the returned count is the number of rows added and at most the number of records; earlier rows stay in front; the rows added are the first admissible stored form of each new natural key, in batch order, and the stored keys grow by those of the admissible stored forms |
| DbManager.NeverWithoutColumns | db_manager.py:257-260 | with `import_date` a table column, no record is skipped for lack of columns |
| DbManager.InsertStoredKeepsValid | db_manager.py:262-288 | one insertion keeps the stored keys in step with the rows, with no key twice |
| DbManager.InsertAllKeepsValid | db_manager.py:262-288 | a whole batch keeps the stored keys in step with the rows, with no key twice, even for repeats inside the batch |
| DbManager.InsertRecordsKeepsValid | db_manager.py:262-288 | `insert_records` never leaves two rows with the same `(relative_path, filename)` |
| DbManager.AllKeysStored | db_manager.py:262-288 | after the batch, the key of every record the database would take is stored |
| DbManager.NothingNewStored | db_manager.py:262-270 | a batch whose keys are all stored inserts nothing and changes nothing |
| DbManager.BatchKeysStored | db_manager.py:262-288 | after `insert_records`, the key of every admissible input record is stored |
| DbManager.InsertRecordsIdempotent | db_manager.py:206-293 | importing the same batch again, at any timestamp, returns 0 and leaves the table as it is, provided the database refuses again what it refused before |
| DbManager.LyricsNeverStored | db_manager.py:246-255 | no stored form carries the lyrics column, and `unsync_lyrics` appears only when some record column is itself renamed to it |
| DbManager.SearchConditions | db_manager.py:333-336 | one `%value%` condition per criterion with a non-empty value, and no other; none exactly when every value is empty |
| DbManager.Filter | db_manager.py:341-350 | the result holds exactly the rows that satisfy every condition |
| DbManager.FilterAppend | db_manager.py:341-350 | filtering two stretches of rows one after the other filters each, so matching rows come back in table order, each as often as it is stored |
| DbManager.FilterSingle | db_manager.py:341-350 | a single row comes back once when it satisfies every condition, and not at all otherwise |
| DbManager.SearchRecords | db_manager.py:320-353 | without a non-empty criterion, all rows; a criterion naming no column gives nothing; otherwise exactly the rows matching every condition, each once and in table order, being the filtering scan `Filter` of the table |

## Left out

- Python's codecs, `csv.reader` and `csv.Sniffer`, `str.splitlines`, `os.path.normpath`, `datetime.now()` and SQL `LIKE` are parameters. Their internals are not modelled, including the csv module's handling of doubled quotes.
- Reading is modelled as whole-text decoding: a file that does not decode with the guessed encoding always goes to the manual path. The source decodes lazily, in chunks, while `csv.reader` reads. When the first bad byte lies beyond the first chunk, the header is read before the error is raised, so a missing or rejected header returns `(None, None)` in the source where the model goes to the manual path. A decoding error raised after some rows were read is still a decoding error in both. A `csv.Error` from the reader, by contrast, is modelled where it occurs among the rows (`Cascade.Reading`). It is reached only when the whole text decodes, though: when the reader would raise before a bad byte further on, the source goes to the last resort while the model reports a decoding error and goes to the manual path.
- The `csv.field_size_limit` probe loop, logging, and the `traceback` output are not modelled.
- `DbManager.Env.accepts` stands for SQLite's own acceptance of a row that has both key fields and a new key. It says whether the `INSERT` runs without raising `sqlite3.Error`, and it is taken to be independent of the rows already stored. The `UNIQUE` constraint never fires, because the key check comes first. The autoincrement `id` column is not modelled, so an input record carrying an `id` that clashes with a stored row is not modelled either.
- SQLite's type affinity is not modelled. A value such as `"2020"` given for an INTEGER column (`year`, `audio_length`, `bpm`, `cover_height`, `cover_width`, `play_counter`) is stored as the integer 2020, while the model keeps every value as the string it was given. What `LIKE` and `get_all_records` see for those columns is therefore the string form in the model.
- Transactions (`commit`, `rollback`), `create_tables`, the `PRAGMA table_info` lookup, a table that already exists with another layout, and the outer `sqlite3.Error` handler that returns 0 are not modelled.
- `None` cell values and non-string values in the input records are not modelled. Records hold strings.
- Text.Lower: only ASCII letters are lower-cased. Python's `str.lower()` also folds non-ASCII letters, so names with such letters are renamed differently.
- DbManager.MapColumnName: for names in the mapping, the contract does not repeat the 38 table entries. `KnownColumnNames` states the entries the rest of the model relies on.
- DbManager.SearchRecords: the table has no autoincrement `id` column, so a criterion on `id` is not modelled. A criterion key is treated as a column name, compared without regard to ASCII case. Keys that SQLite would read as other SQL expressions, or that make the statement invalid in other ways, are not modelled.
- DbManager.InsertAll: its own contract bounds how many rows are appended and keeps the old rows in front. Which rows are appended is stated by `InsertAllRows`, a separate lemma about it.
- DbManager.InsertRecordsIdempotent: the second import is promised to add nothing only when the database does not accept, on the later timestamp, a stored form it refused before. The database's acceptance is a parameter, and a different `import_date` could change its verdict.
- `get_all_records` is modelled as the table's rows in order. Its `dict(zip(columns, row))` conversion is not modelled.
- `insert_mp3_data` and `save_database` are an older insertion path without de-duplication. They are not modelled.
- The GUI (`gui.py`), the exporters (`db_exporter.py`, `format_exporter.py`) and the entry point (`mp3tag_analyzer.py`) are not modelled.
