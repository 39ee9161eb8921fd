/**
 The record-ingest rules of `DatabaseManager.insert_records` over an abstract
 `mp3_files` table, and the condition building of `search_records`.

 Each input record is renamed column by column (a fixed table, otherwise the
 lower-cased name with spaces turned into underscores) on top of an
 `import_date` entry; `relative_path` and `filename` are trimmed (the path
 also normalised); only columns of the table survive; a record whose
 `(relative_path, filename)` is already stored is a duplicate; a record the
 database refuses (a key field missing violates NOT NULL) is skipped; the
 result is the number of rows added.
 */
module DbManager {
  import opened Wrappers
  import opened Text
  import opened OrderedDict

  type Record = Dict

  /** Tagging-tool column names and the table columns they are stored in. */
  const ColumnMapping: map<string, string> := map[
    "Title" := "title",
    "Artist" := "artist",
    "Album" := "album",
    "Year" := "year",
    "Genre" := "genre",
    "Comment" := "comment",
    "ISRC" := "isrc",
    "Language" := "language",
    "AudioLength" := "audio_length",
    "FileSize" := "file_size",
    "Crc" := "crc",
    "FileCreateDate" := "file_create_date",
    "LastModified" := "last_modified",
    "RelativePath" := "relative_path",
    "Filename" := "filename",
    "Extension" := "extension",
    "Directory" := "directory",
    "ParentDirectory" := "parent_directory",
    "Keywords" := "keywords",
    "Mood" := "mood",
    "Usage" := "usage",
    "Song" := "song",
    "ModeStereo" := "mode_stereo",
    "BPM" := "bpm",
    "Codec" := "codec",
    "Bitrate" := "bitrate",
    "Samplerate" := "samplerate",
    "VBR" := "vbr",
    "TagType" := "tag_type",
    "CoverDescription" := "cover_description",
    "CoverSize" := "cover_size",
    "CoverType" := "cover_type",
    "CoverMime" := "cover_mime",
    "CoverHeight" := "cover_height",
    "CoverWidth" := "cover_width",
    "UnSyncLyrics" := "unsynced_lyrics",
    "SrcFix" := "src_fix",
    "PlayCounter" := "play_counter"
  ]

  /** The columns of `mp3_files`, as `PRAGMA table_info` lists them, in groups of the declaration. */
  const SchemaColumns: set<string> :=
    KeyColumns + TagColumns + FileColumns + AudioColumns + CoverColumns + OtherColumns

  const KeyColumns: set<string> := {"id", "relative_path", "filename"}
  const TagColumns: set<string> := {"title", "artist", "album", "year", "genre", "comment", "isrc", "language"}
  const FileColumns: set<string> := {
    "audio_length", "file_size", "crc", "file_create_date", "last_modified", "extension",
    "directory", "parent_directory"
  }
  const AudioColumns: set<string> := {
    "keywords", "mood", "usage", "song", "mode_stereo", "bpm", "codec", "bitrate",
    "samplerate", "vbr", "tag_type"
  }
  const CoverColumns: set<string> := {
    "cover_description", "cover_size", "cover_type", "cover_mime", "cover_height", "cover_width"
  }
  const OtherColumns: set<string> := {"unsync_lyrics", "src_fix", "play_counter", "import_date"}

  const IMPORT_DATE: string := "import_date"
  const RELATIVE_PATH: string := "relative_path"
  const FILENAME: string := "filename"

  /** The table column a record column is stored under. */
  function MapColumnName(c: string): (db: string)
    ensures c !in ColumnMapping ==> |db| == |c| && ' ' !in db
    ensures c !in ColumnMapping ==> forall i | 0 <= i < |c| :: !('A' <= db[i] <= 'Z')
    ensures c !in ColumnMapping ==> forall i | 0 <= i < |c| :: db[i] == if c[i] == ' ' then '_' else LowerChar(c[i])
  {
    if c in ColumnMapping then ColumnMapping[c] else ReplaceChar(Lower(c), ' ', '_')
  }

  /** The two fixed tables of the import: the renaming of columns and the columns of the table. */
  datatype Schema = Schema(rename: string -> string, columns: set<string>)

  /** The schema `insert_records` works with. */
  const Mp3Files: Schema := Schema(MapColumnName, SchemaColumns)

  /** The key fields and the lyrics column as the mapping names them. */
  lemma KnownColumnNames()
    ensures MapColumnName("RelativePath") == RELATIVE_PATH
    ensures MapColumnName("Filename") == FILENAME
    ensures MapColumnName("Title") == "title"
    ensures MapColumnName("UnSyncLyrics") == "unsynced_lyrics"
  {
    assert "RelativePath" in ColumnMapping && ColumnMapping["RelativePath"] == RELATIVE_PATH;
    assert "Filename" in ColumnMapping && ColumnMapping["Filename"] == FILENAME;
    assert "Title" in ColumnMapping && ColumnMapping["Title"] == "title";
    assert "UnSyncLyrics" in ColumnMapping && ColumnMapping["UnSyncLyrics"] == "unsynced_lyrics";
  }

  lemma MappingKeysCapitalised(k: string)
    requires k in ColumnMapping
    ensures |k| > 0 && 'A' <= k[0] <= 'Z'
  {
  }

  /** Lower-case letters and underscores, starting with a letter. */
  predicate LowerSnake(col: string) {
    |col| > 0 && 'a' <= col[0] <= 'z' && forall i | 0 <= i < |col| :: ('a' <= col[i] <= 'z') || col[i] == '_'
  }

  /** The names of the table are in lower case with underscores. */
  lemma SchemaColumnsLowerSnake(col: string)
    requires col in SchemaColumns
    ensures |col| > 0 && 'a' <= col[0] <= 'z'
    ensures forall i | 0 <= i < |col| :: ('a' <= col[i] <= 'z') || col[i] == '_'
  {
    if col in KeyColumns {
      KeyColumnsLowerSnake(col);
    } else if col in TagColumns {
      TagColumnsLowerSnake(col);
    } else if col in FileColumns {
      FileColumnsLowerSnake(col);
    } else if col in AudioColumns {
      AudioColumnsLowerSnake(col);
    } else if col in CoverColumns {
      CoverColumnsLowerSnake(col);
    } else {
      OtherColumnsLowerSnake(col);
    }
  }

  lemma KeyColumnsLowerSnake(col: string)
    requires col in KeyColumns
    ensures LowerSnake(col)
  {
  }

  lemma TagColumnsLowerSnake(col: string)
    requires col in TagColumns
    ensures LowerSnake(col)
  {
  }

  lemma FileColumnsLowerSnake(col: string)
    requires col in FileColumns
    ensures LowerSnake(col)
  {
  }

  lemma AudioColumnsLowerSnake(col: string)
    requires col in AudioColumns
    ensures LowerSnake(col)
  {
  }

  lemma CoverColumnsLowerSnake(col: string)
    requires col in CoverColumns
    ensures LowerSnake(col)
  {
  }

  lemma OtherColumnsLowerSnake(col: string)
    requires col in OtherColumns
    ensures LowerSnake(col)
  {
  }

  /** Table column names pass through the renaming unchanged. */
  lemma SchemaNamesMapToThemselves(col: string)
    requires col in SchemaColumns
    ensures MapColumnName(col) == col
  {
    SchemaColumnsLowerSnake(col);
    if col in ColumnMapping {
      MappingKeysCapitalised(col);
    }
    var db := MapColumnName(col);
    assert forall i | 0 <= i < |col| :: db[i] == col[i];
  }

  /**
   The lyrics column of the mapping is not a column of the table: the table
   declares `unsync_lyrics`, the mapping produces `unsynced_lyrics`.
   */
  lemma LyricsColumnMismatch()
    ensures MapColumnName("UnSyncLyrics") !in SchemaColumns
    ensures "unsync_lyrics" in SchemaColumns
  {
    KnownColumnNames();
    UnsyncedLyricsNotAColumn();
  }

  lemma UnsyncedLyricsNotAColumn()
    ensures "unsynced_lyrics" !in SchemaColumns
    ensures "unsync_lyrics" in SchemaColumns
  {
    var c := "unsynced_lyrics";
    assert c !in KeyColumns && c !in TagColumns && c !in FileColumns;
    assert c !in AudioColumns && c !in CoverColumns && c !in OtherColumns;
  }

  /** The table columns the record's columns are renamed to. */
  function MappedNames(row: Record, rename: string -> string): set<string> {
    set i | 0 <= i < |row| :: rename(row[i].0)
  }

  /** Column `i` is the last one of the record renamed to its table column. */
  predicate LastMapped(row: Record, i: nat, rename: string -> string)
    requires i < |row|
  {
    forall j | i < j < |row| :: rename(row[j].0) != rename(row[i].0)
  }

  /**
   The renamed record: `import_date` first, then every column under its table
   name, a later column overwriting an earlier one renamed alike.
   */
  function MapRow(row: Record, now: string, rename: string -> string): (m: Record)
    ensures Distinct(m)
    ensures Keys(m) == {IMPORT_DATE} + MappedNames(row, rename)
    ensures forall i | 0 <= i < |row| && LastMapped(row, i, rename) :: Get(m, rename(row[i].0)) == Some(row[i].1)
    ensures IMPORT_DATE !in MappedNames(row, rename) ==> Get(m, IMPORT_DATE) == Some(now)
    decreases |row|
  {
    if |row| == 0 then
      assert Keys([(IMPORT_DATE, now)]) == {IMPORT_DATE} by { KeysCons([(IMPORT_DATE, now)]); }
      [(IMPORT_DATE, now)]
    else
      var n := |row| - 1;
      var m := MapRow(row[..n], now, rename);
      MapRowStep(row, now, rename, m);
      Put(m, rename(row[n].0), row[n].1)
  }

  lemma MapRowStep(row: Record, now: string, rename: string -> string, m: Record)
    requires |row| > 0
    requires var n := |row| - 1;
      && Distinct(m) && Keys(m) == {IMPORT_DATE} + MappedNames(row[..n], rename)
      && (forall i | 0 <= i < n && LastMapped(row[..n], i, rename) :: Get(m, rename(row[..n][i].0)) == Some(row[..n][i].1))
      && (IMPORT_DATE !in MappedNames(row[..n], rename) ==> Get(m, IMPORT_DATE) == Some(now))
    ensures var n := |row| - 1; var r := Put(m, rename(row[n].0), row[n].1);
      && Distinct(r) && Keys(r) == {IMPORT_DATE} + MappedNames(row, rename)
      && (forall i | 0 <= i < |row| && LastMapped(row, i, rename) :: Get(r, rename(row[i].0)) == Some(row[i].1))
      && (IMPORT_DATE !in MappedNames(row, rename) ==> Get(r, IMPORT_DATE) == Some(now))
  {
    var n := |row| - 1;
    var r := Put(m, rename(row[n].0), row[n].1);
    MappedNamesSnoc(row, rename);
    LastValuesStep(row, rename, m, r);
  }

  /** The last value of every table column survives writing the last column over `m`. */
  lemma LastValuesStep(row: Record, rename: string -> string, m: Record, r: Record)
    requires |row| > 0
    requires var n := |row| - 1;
      forall i | 0 <= i < n && LastMapped(row[..n], i, rename) :: Get(m, rename(row[..n][i].0)) == Some(row[..n][i].1)
    requires var n := |row| - 1; var k := rename(row[n].0);
      Get(r, k) == Some(row[n].1) && forall k' | k' != k :: Get(r, k') == Get(m, k')
    ensures forall i | 0 <= i < |row| && LastMapped(row, i, rename) :: Get(r, rename(row[i].0)) == Some(row[i].1)
  {
    var n := |row| - 1;
    forall i | 0 <= i < |row| && LastMapped(row, i, rename) ensures Get(r, rename(row[i].0)) == Some(row[i].1) {
      if i < n {
        assert row[..n][i] == row[i];
        assert LastMapped(row[..n], i, rename);
        assert rename(row[i].0) != rename(row[n].0);
      }
    }
  }

  lemma MappedNamesSnoc(row: Record, rename: string -> string)
    requires |row| > 0
    ensures MappedNames(row, rename) == MappedNames(row[..|row| - 1], rename) + {rename(row[|row| - 1].0)}
  {
    var n := |row| - 1;
    forall c | c in MappedNames(row, rename) ensures c in MappedNames(row[..n], rename) + {rename(row[n].0)} {
      var i :| 0 <= i < |row| && rename(row[i].0) == c;
      if i < n {
        assert row[..n][i] == row[i];
      }
    }
    forall c | c in MappedNames(row[..n], rename) ensures c in MappedNames(row, rename) {
      var i :| 0 <= i < n && rename(row[..n][i].0) == c;
      assert row[..n][i] == row[i];
    }
  }

  /** Every table column of the renamed record comes from a last column renamed to it. */
  lemma {:induction false} LastMappedExists(row: Record, rename: string -> string, k: string)
    requires k in MappedNames(row, rename)
    ensures exists i | 0 <= i < |row| :: rename(row[i].0) == k && LastMapped(row, i, rename)
    decreases |row|
  {
    var n := |row| - 1;
    MappedNamesSnoc(row, rename);
    if rename(row[n].0) != k {
      LastMappedExists(row[..n], rename, k);
      var i :| 0 <= i < n && rename(row[..n][i].0) == k && LastMapped(row[..n], i, rename);
      assert row[..n][i] == row[i];
      assert LastMapped(row, i, rename) by {
        forall j | i < j < n ensures rename(row[j].0) != k {
          assert row[..n][j] == row[j];
        }
      }
    }
  }

  /** The renamed record depends on the import timestamp only in `import_date`. */
  lemma MapRowDateBlind(row: Record, now: string, now2: string, rename: string -> string)
    ensures forall k | k != IMPORT_DATE :: Get(MapRow(row, now, rename), k) == Get(MapRow(row, now2, rename), k)
  {
    forall k | k != IMPORT_DATE ensures Get(MapRow(row, now, rename), k) == Get(MapRow(row, now2, rename), k) {
      if k in MappedNames(row, rename) {
        LastMappedExists(row, rename, k);
      }
    }
  }

  /** The key fields trimmed, the path passed through the path normaliser `normpath`. */
  function NormalizeKeyFields(m: Record, normpath: string -> string): (r: Record)
    ensures Keys(r) == Keys(m)
    ensures Distinct(m) ==> Distinct(r)
    ensures forall k | k != RELATIVE_PATH && k != FILENAME :: Get(r, k) == Get(m, k)
    ensures RELATIVE_PATH in Keys(m) ==> Get(r, RELATIVE_PATH) == Some(normpath(Strip(GetOr(m, RELATIVE_PATH, ""))))
    ensures FILENAME in Keys(m) ==> Get(r, FILENAME) == Some(Strip(GetOr(m, FILENAME, "")))
  {
    var withPath := if RELATIVE_PATH in Keys(m) then Put(m, RELATIVE_PATH, normpath(Strip(GetOr(m, RELATIVE_PATH, "")))) else m;
    if FILENAME in Keys(withPath) then Put(withPath, FILENAME, Strip(GetOr(withPath, FILENAME, ""))) else withPath
  }

  /**
   The parts of the environment the model takes as given: the import
   timestamp, `os.path.normpath`, and whether the database accepts a row that
   has both key fields and no stored duplicate (its own type checks).
   */
  datatype Env = Env(now: string, normpath: string -> string, accepts: Record -> bool)

  /**
   What the database is given for a record: renamed, key fields normalised,
   restricted to the table's columns.
   */
  function StoredForm(row: Record, env: Env, schema: Schema): (v: Record)
    ensures Distinct(v)
    ensures Keys(v) == ({IMPORT_DATE} + MappedNames(row, schema.rename)) * schema.columns
    ensures forall k | k in schema.columns && k != RELATIVE_PATH && k != FILENAME ::
      Get(v, k) == Get(MapRow(row, env.now, schema.rename), k)
    // the key fields are stored trimmed, the path also normalised
    ensures RELATIVE_PATH in Keys(v) ==>
      Get(v, RELATIVE_PATH) == Some(env.normpath(Strip(GetOr(MapRow(row, env.now, schema.rename), RELATIVE_PATH, ""))))
    ensures FILENAME in Keys(v) ==>
      Get(v, FILENAME) == Some(Strip(GetOr(MapRow(row, env.now, schema.rename), FILENAME, "")))
  {
    Restrict(NormalizeKeyFields(MapRow(row, env.now, schema.rename), env.normpath), schema.columns)
  }

  /** Two records with the same columns and the same values outside `import_date`. */
  ghost predicate AgreeOffDate(a: Record, b: Record) {
    Keys(a) == Keys(b) && forall k | k != IMPORT_DATE :: Get(a, k) == Get(b, k)
  }

  lemma NormalizeAgrees(m: Record, m2: Record, normpath: string -> string)
    requires AgreeOffDate(m, m2)
    ensures AgreeOffDate(NormalizeKeyFields(m, normpath), NormalizeKeyFields(m2, normpath))
  {
    assert GetOr(m2, RELATIVE_PATH, "") == GetOr(m, RELATIVE_PATH, "");
    assert GetOr(m2, FILENAME, "") == GetOr(m, FILENAME, "");
  }

  lemma RestrictAgrees(d: Record, d2: Record, ks: set<string>)
    requires AgreeOffDate(d, d2)
    ensures AgreeOffDate(Restrict(d, ks), Restrict(d2, ks))
  {
  }

  /**
   The stored form depends on the import timestamp only in `import_date`: its
   columns, natural key and key fields are the same on any date.
   */
  lemma StoredFormDateBlind(row: Record, env: Env, now2: string, schema: Schema)
    ensures var v := StoredForm(row, env, schema); var v2 := StoredForm(row, env.(now := now2), schema);
      && Keys(v2) == Keys(v)
      && (forall k | k != IMPORT_DATE :: Get(v2, k) == Get(v, k))
      && KeyOf(v2) == KeyOf(v)
      && (HasKeyFields(v2) <==> HasKeyFields(v))
      && (|v2| > 0 <==> |v| > 0)
  {
    var m := MapRow(row, env.now, schema.rename);
    var m2 := MapRow(row, now2, schema.rename);
    MapRowDateBlind(row, env.now, now2, schema.rename);
    NormalizeAgrees(m, m2, env.normpath);
    RestrictAgrees(NormalizeKeyFields(m, env.normpath), NormalizeKeyFields(m2, env.normpath), schema.columns);
    var v := StoredForm(row, env, schema);
    var v2 := StoredForm(row, env.(now := now2), schema);
    assert GetOr(v2, RELATIVE_PATH, "") == GetOr(v, RELATIVE_PATH, "");
    assert GetOr(v2, FILENAME, "") == GetOr(v, FILENAME, "");
    assert |v2| > 0 <==> |v| > 0 by {
      if |v| > 0 { assert v[0].0 in Keys(v); }
      if |v2| > 0 { assert v2[0].0 in Keys(v2); }
    }
  }

  /** The natural key; a missing field reads as the empty string. */
  function KeyOf(v: Record): (string, string) {
    (GetOr(v, RELATIVE_PATH, ""), GetOr(v, FILENAME, ""))
  }

  /** Both NOT NULL columns are present. */
  predicate HasKeyFields(v: Record) {
    RELATIVE_PATH in Keys(v) && FILENAME in Keys(v)
  }

  /** The `mp3_files` table: its rows in insertion order and the natural keys stored. */
  datatype Table = Table(rows: seq<Record>, keys: set<(string, string)>)

  /** Keys in step with rows, no key twice, every row complete and within the schema. */
  ghost predicate Valid(t: Table, columns: set<string>) {
    && t.keys == (set i | 0 <= i < |t.rows| :: KeyOf(t.rows[i]))
    && (forall i, j | 0 <= i < j < |t.rows| :: KeyOf(t.rows[i]) != KeyOf(t.rows[j]))
    && (forall i | 0 <= i < |t.rows| :: HasKeyFields(t.rows[i]) && Keys(t.rows[i]) <= columns)
  }

  /** What happened to one input record. */
  datatype Step = Inserted | Duplicate | NoValidColumns | Refused

  /**
   The body of the loop of `insert_records` for a record already in its
   stored form `v`: skipped without columns, skipped as a duplicate, skipped
   when the database refuses it, inserted otherwise.
   */
  function InsertStored(t: Table, v: Record, accepts: Record -> bool): (res: (Table, Step))
    ensures res.1 != Inserted ==> res.0 == t
    ensures res.1 == Inserted ==> res.0 == Table(t.rows + [v], t.keys + {KeyOf(v)})
    ensures res.1 == Inserted <==> |v| > 0 && KeyOf(v) !in t.keys && HasKeyFields(v) && accepts(v)
    ensures res.1 == NoValidColumns <==> |v| == 0
  {
    if |v| == 0 then (t, NoValidColumns)
    else if KeyOf(v) in t.keys then (t, Duplicate)
    else if !HasKeyFields(v) || !accepts(v) then (t, Refused)
    else (Table(t.rows + [v], t.keys + {KeyOf(v)}), Inserted)
  }

  /** The stored forms of a batch, in batch order; none depends on the table. */
  function StoredBatch(batch: seq<Record>, env: Env, schema: Schema): (vs: seq<Record>)
    ensures |vs| == |batch|
    ensures forall i | 0 <= i < |batch| :: vs[i] == StoredForm(batch[i], env, schema)
  {
    seq(|batch|, i requires 0 <= i < |batch| => StoredForm(batch[i], env, schema))
  }

  /** The loop of `insert_records` over stored forms: the table afterwards and the number inserted. */
  function InsertAll(t: Table, vs: seq<Record>, accepts: Record -> bool): (res: (Table, nat))
    ensures |res.0.rows| == |t.rows| + res.1
    ensures res.0.rows[..|t.rows|] == t.rows
    ensures res.1 <= |vs|
    ensures t.keys <= res.0.keys
    decreases |vs|
  {
    if |vs| == 0 then (t, 0)
    else
      var first := InsertStored(t, vs[0], accepts);
      var rest := InsertAll(first.0, vs[1..], accepts);
      assert |first.0.rows| == |t.rows| + if first.1 == Inserted then 1 else 0;
      assert first.0.rows[..|t.rows|] == t.rows;
      assert rest.0.rows[..|t.rows|] == rest.0.rows[..|first.0.rows|][..|t.rows|];
      (rest.0, rest.1 + if first.1 == Inserted then 1 else 0)
  }

  /**
   `insert_records`: each record of the batch in turn, the table afterwards
   and the number of rows inserted.
   */
  function InsertRecords(t: Table, batch: seq<Record>, env: Env, schema: Schema): (res: (Table, nat))
    ensures |res.0.rows| == |t.rows| + res.1
    ensures res.0.rows[..|t.rows|] == t.rows
    ensures res.1 <= |batch|
    ensures t.keys <= res.0.keys
    // the rows added are the first admissible stored form of each key not yet stored, in batch order
    ensures res.0.rows == t.rows + NewRows(StoredBatch(batch, env, schema), t.keys, env.accepts)
    ensures res.0.keys == t.keys + AdmittedKeys(StoredBatch(batch, env, schema), env.accepts)
  {
    InsertAllRows(t, StoredBatch(batch, env, schema), env.accepts);
    InsertAll(t, StoredBatch(batch, env, schema), env.accepts)
  }

  /** `import_date` is a column of the table. */
  lemma ImportDateIsColumn()
    ensures IMPORT_DATE in Mp3Files.columns
  {
  }

  /**
   With `import_date` among the columns, no stored form is empty, so the
   "no valid column" skip never happens.
   */
  lemma NeverWithoutColumns(t: Table, row: Record, env: Env, schema: Schema)
    requires IMPORT_DATE in schema.columns
    ensures IMPORT_DATE in Keys(StoredForm(row, env, schema))
    ensures InsertStored(t, StoredForm(row, env, schema), env.accepts).1 != NoValidColumns
  {
    var v := StoredForm(row, env, schema);
    assert IMPORT_DATE in Keys(v);
    assert |v| > 0;
  }

  /** Inserting one stored form keeps a table valid. */
  lemma InsertStoredKeepsValid(t: Table, v: Record, accepts: Record -> bool, columns: set<string>)
    requires Valid(t, columns)
    requires Keys(v) <= columns
    ensures Valid(InsertStored(t, v, accepts).0, columns)
  {
    var (t1, step) := InsertStored(t, v, accepts);
    if step == Inserted {
      assert t1.rows == t.rows + [v];
      assert t1.keys == (set i | 0 <= i < |t1.rows| :: KeyOf(t1.rows[i])) by {
        forall k | k in t1.keys ensures k in (set i | 0 <= i < |t1.rows| :: KeyOf(t1.rows[i])) {
          if k == KeyOf(v) {
            assert KeyOf(t1.rows[|t.rows|]) == k;
          } else {
            var i :| 0 <= i < |t.rows| && KeyOf(t.rows[i]) == k;
            assert KeyOf(t1.rows[i]) == k;
          }
        }
      }
      forall i | 0 <= i < |t.rows| ensures KeyOf(t.rows[i]) != KeyOf(v) {
        assert KeyOf(t.rows[i]) in t.keys;
      }
    }
  }

  lemma {:induction false} InsertAllKeepsValid(t: Table, vs: seq<Record>, accepts: Record -> bool, columns: set<string>)
    requires Valid(t, columns)
    requires forall i | 0 <= i < |vs| :: Keys(vs[i]) <= columns
    ensures Valid(InsertAll(t, vs, accepts).0, columns)
    decreases |vs|
  {
    if |vs| > 0 {
      InsertStoredKeepsValid(t, vs[0], accepts, columns);
      assert forall i | 0 <= i < |vs[1..]| :: vs[1..][i] == vs[i + 1];
      InsertAllKeepsValid(InsertStored(t, vs[0], accepts).0, vs[1..], accepts, columns);
    }
  }

  /** A table built by `insert_records` never holds two rows with the same natural key. */
  lemma InsertRecordsKeepsValid(t: Table, batch: seq<Record>, env: Env, schema: Schema)
    requires Valid(t, schema.columns)
    ensures Valid(InsertRecords(t, batch, env, schema).0, schema.columns)
  {
    InsertAllKeepsValid(t, StoredBatch(batch, env, schema), env.accepts, schema.columns);
  }

  /** The database would take the stored form if its key were new. */
  predicate Admissible(v: Record, accepts: Record -> bool) {
    |v| > 0 && HasKeyFields(v) && accepts(v)
  }

  /**
   The record at `j` is the first admissible one of the batch with its key,
   and that key is not among `keys`.
   */
  predicate FirstNew(vs: seq<Record>, j: nat, keys: set<(string, string)>, accepts: Record -> bool)
    requires j < |vs|
  {
    && Admissible(vs[j], accepts)
    && KeyOf(vs[j]) !in keys
    && forall l | 0 <= l < j :: !(Admissible(vs[l], accepts) && KeyOf(vs[l]) == KeyOf(vs[j]))
  }

  /** The records of a batch that are the first admissible ones with a key not in `keys`, in batch order. */
  function NewRows(vs: seq<Record>, keys: set<(string, string)>, accepts: Record -> bool): seq<Record>
    decreases |vs|
  {
    if |vs| == 0 then []
    else
      var n := |vs| - 1;
      NewRows(vs[..n], keys, accepts) + if FirstNew(vs, n, keys, accepts) then [vs[n]] else []
  }

  /** The natural keys of the admissible records of a batch. */
  function AdmittedKeys(vs: seq<Record>, accepts: Record -> bool): set<(string, string)> {
    set i | 0 <= i < |vs| && Admissible(vs[i], accepts) :: KeyOf(vs[i])
  }

  /** Processing one more stored form at the end of the batch. */
  lemma {:induction false} InsertAllSnoc(t: Table, vs: seq<Record>, accepts: Record -> bool)
    requires |vs| > 0
    ensures InsertAll(t, vs, accepts).0 == InsertStored(InsertAll(t, vs[..|vs| - 1], accepts).0, vs[|vs| - 1], accepts).0
    decreases |vs|
  {
    var n := |vs| - 1;
    if n > 0 {
      var t1 := InsertStored(t, vs[0], accepts).0;
      InsertAllSnoc(t1, vs[1..], accepts);
      assert vs[1..][..n - 1] == vs[..n][1..];
      assert vs[1..][n - 1] == vs[n];
    } else {
      assert vs[..n] == [];
      assert vs[1..] == [];
    }
  }

  /**
   The rows `InsertAll` appends are exactly `NewRows`: the first admissible
   record of every natural key not yet stored, in batch order; and the keys
   stored are the old keys and those of the admissible records.
   */
  lemma {:induction false} InsertAllRows(t: Table, vs: seq<Record>, accepts: Record -> bool)
    ensures InsertAll(t, vs, accepts).0 ==
      Table(t.rows + NewRows(vs, t.keys, accepts), t.keys + AdmittedKeys(vs, accepts))
    decreases |vs|
  {
    if |vs| == 0 {
      assert AdmittedKeys(vs, accepts) == {};
      assert t.rows + [] == t.rows;
    } else {
      var n := |vs| - 1;
      InsertAllRows(t, vs[..n], accepts);
      InsertAllSnoc(t, vs, accepts);
      InsertAllRowsStep(t, vs, accepts, InsertAll(t, vs[..n], accepts).0);
    }
  }

  /** One more stored form keeps the table in step with `NewRows` and `AdmittedKeys`. */
  lemma InsertAllRowsStep(t: Table, vs: seq<Record>, accepts: Record -> bool, p: Table)
    requires |vs| > 0
    requires var n := |vs| - 1;
      p == Table(t.rows + NewRows(vs[..n], t.keys, accepts), t.keys + AdmittedKeys(vs[..n], accepts))
    ensures InsertStored(p, vs[|vs| - 1], accepts).0 ==
      Table(t.rows + NewRows(vs, t.keys, accepts), t.keys + AdmittedKeys(vs, accepts))
  {
    var n := |vs| - 1;
    InsertedIffFirstNew(t, vs, accepts, p);
    StepRows(t, vs, accepts, p);
    StepKeys(vs[n], accepts, p);
    AdmittedKeysSnoc(vs, accepts);
    var q := InsertStored(p, vs[n], accepts).0;
    assert q == Table(q.rows, q.keys);
  }

  lemma StepRows(t: Table, vs: seq<Record>, accepts: Record -> bool, p: Table)
    requires |vs| > 0
    requires p.rows == t.rows + NewRows(vs[..|vs| - 1], t.keys, accepts)
    requires var n := |vs| - 1;
      InsertStored(p, vs[n], accepts).1 == Inserted <==> FirstNew(vs, n, t.keys, accepts)
    ensures InsertStored(p, vs[|vs| - 1], accepts).0.rows == t.rows + NewRows(vs, t.keys, accepts)
  {
    var n := |vs| - 1;
    var last := if FirstNew(vs, n, t.keys, accepts) then [vs[n]] else [];
    NewRowsSnoc(vs, t.keys, accepts);
    AppendAssociates(t.rows, NewRows(vs[..n], t.keys, accepts), last);
  }

  lemma NewRowsSnoc(vs: seq<Record>, keys: set<(string, string)>, accepts: Record -> bool)
    requires |vs| > 0
    ensures var n := |vs| - 1;
      NewRows(vs, keys, accepts) == NewRows(vs[..n], keys, accepts) + if FirstNew(vs, n, keys, accepts) then [vs[n]] else []
  {
  }

  lemma AppendAssociates(a: seq<Record>, b: seq<Record>, c: seq<Record>)
    ensures (a + b) + c == a + (b + c)
  {
  }

  /** The keys after one more stored form: an admissible record's key is stored, inserted or not. */
  lemma StepKeys(v: Record, accepts: Record -> bool, p: Table)
    ensures InsertStored(p, v, accepts).0.keys == p.keys + if Admissible(v, accepts) then {KeyOf(v)} else {}
  {
  }

  /** The record at the end of the batch is inserted exactly when it is `FirstNew`. */
  lemma InsertedIffFirstNew(t: Table, vs: seq<Record>, accepts: Record -> bool, p: Table)
    requires |vs| > 0
    requires p.keys == t.keys + AdmittedKeys(vs[..|vs| - 1], accepts)
    ensures var n := |vs| - 1;
      InsertStored(p, vs[n], accepts).1 == Inserted <==> FirstNew(vs, n, t.keys, accepts)
  {
    var n := |vs| - 1;
    assert KeyOf(vs[n]) in AdmittedKeys(vs[..n], accepts) <==>
           exists l | 0 <= l < n :: Admissible(vs[l], accepts) && KeyOf(vs[l]) == KeyOf(vs[n]) by {
      forall l | 0 <= l < n ensures vs[..n][l] == vs[l] { }
    }
  }

  lemma AdmittedKeysSnoc(vs: seq<Record>, accepts: Record -> bool)
    requires |vs| > 0
    ensures var n := |vs| - 1;
      AdmittedKeys(vs, accepts) ==
        AdmittedKeys(vs[..n], accepts) + if Admissible(vs[n], accepts) then {KeyOf(vs[n])} else {}
  {
    var n := |vs| - 1;
    forall k | k in AdmittedKeys(vs, accepts)
      ensures k in AdmittedKeys(vs[..n], accepts) + if Admissible(vs[n], accepts) then {KeyOf(vs[n])} else {}
    {
      var i :| 0 <= i < |vs| && Admissible(vs[i], accepts) && KeyOf(vs[i]) == k;
      if i < n {
        assert vs[..n][i] == vs[i];
      }
    }
    forall k | k in AdmittedKeys(vs[..n], accepts) ensures k in AdmittedKeys(vs, accepts) {
      var i :| 0 <= i < n && Admissible(vs[..n][i], accepts) && KeyOf(vs[..n][i]) == k;
      assert vs[..n][i] == vs[i];
    }
  }

  lemma {:induction false} AllKeysStored(t: Table, vs: seq<Record>, accepts: Record -> bool)
    ensures forall v | v in vs && Admissible(v, accepts) :: KeyOf(v) in InsertAll(t, vs, accepts).0.keys
    decreases |vs|
  {
    if |vs| > 0 {
      var t1 := InsertStored(t, vs[0], accepts).0;
      AllKeysStored(t1, vs[1..], accepts);
      assert forall v | v in vs :: v == vs[0] || v in vs[1..];
    }
  }

  lemma {:induction false} NothingNewStored(t: Table, vs: seq<Record>, accepts: Record -> bool)
    requires forall v | v in vs && Admissible(v, accepts) :: KeyOf(v) in t.keys
    ensures InsertAll(t, vs, accepts) == (t, 0)
    decreases |vs|
  {
    if |vs| > 0 {
      assert vs[0] in vs;
      assert forall v | v in vs[1..] :: v in vs;
      NothingNewStored(t, vs[1..], accepts);
    }
  }

  /** After `insert_records`, the key of every admissible record of the batch is stored. */
  lemma BatchKeysStored(t: Table, batch: seq<Record>, env: Env, schema: Schema)
    ensures forall i | 0 <= i < |batch| && Admissible(StoredForm(batch[i], env, schema), env.accepts) ::
      KeyOf(StoredForm(batch[i], env, schema)) in InsertRecords(t, batch, env, schema).0.keys
  {
    var vs := StoredBatch(batch, env, schema);
    AllKeysStored(t, vs, env.accepts);
    forall i | 0 <= i < |batch| ensures vs[i] in vs {
    }
  }

  /**
   Importing the same batch a second time, at any later timestamp, inserts
   nothing and leaves the table as it is, provided a record the database
   refused the first time is not accepted the second time.
   */
  lemma InsertRecordsIdempotent(t: Table, batch: seq<Record>, env: Env, now2: string, schema: Schema)
    requires forall i | 0 <= i < |batch| ::
      env.accepts(StoredForm(batch[i], env.(now := now2), schema)) ==> env.accepts(StoredForm(batch[i], env, schema))
    ensures var after := InsertRecords(t, batch, env, schema).0;
      InsertRecords(after, batch, env.(now := now2), schema) == (after, 0)
  {
    var vs := StoredBatch(batch, env, schema);
    AllKeysStored(t, vs, env.accepts);
    var after := InsertAll(t, vs, env.accepts).0;
    DateBlindKeys(batch, env, now2, schema, after.keys);
    NothingNewStored(after, StoredBatch(batch, env.(now := now2), schema), env.accepts);
  }

  /** The admissible stored forms of a batch on another date have keys the first date already gave. */
  lemma DateBlindKeys(batch: seq<Record>, env: Env, now2: string, schema: Schema, keys: set<(string, string)>)
    requires forall i | 0 <= i < |batch| ::
      env.accepts(StoredForm(batch[i], env.(now := now2), schema)) ==> env.accepts(StoredForm(batch[i], env, schema))
    requires forall v | v in StoredBatch(batch, env, schema) && Admissible(v, env.accepts) :: KeyOf(v) in keys
    ensures forall v | v in StoredBatch(batch, env.(now := now2), schema) && Admissible(v, env.accepts) :: KeyOf(v) in keys
  {
    var vs := StoredBatch(batch, env, schema);
    var vs2 := StoredBatch(batch, env.(now := now2), schema);
    forall v | v in vs2 && Admissible(v, env.accepts) ensures KeyOf(v) in keys {
      var i :| 0 <= i < |vs2| && vs2[i] == v;
      StoredFormDateBlind(batch[i], env, now2, schema);
      assert vs[i] in vs;
    }
  }

  /**
   The lyrics column is always lost: no stored row carries `unsynced_lyrics`,
   and `unsync_lyrics` is only set by a record column that is itself renamed to it.
   */
  lemma LyricsNeverStored(row: Record, env: Env)
    ensures MapColumnName("UnSyncLyrics") !in Keys(StoredForm(row, env, Mp3Files))
    ensures "unsync_lyrics" !in MappedNames(row, MapColumnName) ==> "unsync_lyrics" !in Keys(StoredForm(row, env, Mp3Files))
  {
    LyricsColumnMismatch();
    StoredColumn(row, env, Mp3Files, MapColumnName("UnSyncLyrics"));
    StoredColumn(row, env, Mp3Files, "unsync_lyrics");
  }

  /** A column is stored exactly when the table has it and the renamed record has it. */
  lemma StoredColumn(row: Record, env: Env, schema: Schema, c: string)
    ensures c in Keys(StoredForm(row, env, schema)) <==>
      c in schema.columns && (c == IMPORT_DATE || c in MappedNames(row, schema.rename))
  {
  }

  /** The conditions of `search_records`: one `LIKE '%value%'` per criterion with a non-empty value, in order. */
  function SearchConditions(criteria: Record): (conds: seq<(string, string)>)
    ensures |conds| <= |criteria|
    ensures forall c | c in conds :: exists i | 0 <= i < |criteria| :: criteria[i].1 != "" && c == (criteria[i].0, "%" + criteria[i].1 + "%")
    ensures forall i | 0 <= i < |criteria| && criteria[i].1 != "" :: (criteria[i].0, "%" + criteria[i].1 + "%") in conds
    ensures conds == [] <==> forall i | 0 <= i < |criteria| :: criteria[i].1 == ""
  {
    if |criteria| == 0 then []
    else
      var (key, value) := criteria[0];
      var tail := SearchConditions(criteria[1..]);
      assert forall i | 1 <= i < |criteria| :: criteria[1..][i - 1] == criteria[i];
      if value != "" then [(key, "%" + value + "%")] + tail else tail
  }

  /** A stored row satisfies every condition: the named column is present and its value matches. */
  predicate MatchesAll(row: Record, conds: seq<(string, string)>, like: (string, string) -> bool) {
    forall c | c in conds :: Lower(c.0) in Keys(row) && like(GetOr(row, Lower(c.0), ""), c.1)
  }

  /** The rows that satisfy every condition, each once, in table order. */
  function Filter(rows: seq<Record>, conds: seq<(string, string)>, like: (string, string) -> bool): (r: seq<Record>)
    ensures forall row | row in r :: row in rows && MatchesAll(row, conds, like)
    ensures forall row | row in rows && MatchesAll(row, conds, like) :: row in r
  {
    if |rows| == 0 then []
    else
      assert forall row | row in rows :: row == rows[0] || row in rows[1..];
      (if MatchesAll(rows[0], conds, like) then [rows[0]] else []) + Filter(rows[1..], conds, like)
  }

  /** Filtering two stretches of rows one after the other filters each, so the rows keep their order and none is repeated. */
  lemma {:induction false} FilterAppend(a: seq<Record>, b: seq<Record>, conds: seq<(string, string)>, like: (string, string) -> bool)
    ensures Filter(a + b, conds, like) == Filter(a, conds, like) + Filter(b, conds, like)
    decreases |a|
  {
    if |a| > 0 {
      FilterAppend(a[1..], b, conds, like);
      var head := if MatchesAll(a[0], conds, like) then [a[0]] else [];
      assert (a + b)[1..] == a[1..] + b;
      assert Filter(a + b, conds, like) == head + Filter(a[1..] + b, conds, like);
      assert Filter(a, conds, like) == head + Filter(a[1..], conds, like);
      AppendAssociates(head, Filter(a[1..], conds, like), Filter(b, conds, like));
    } else {
      assert a + b == b;
    }
  }

  /** A single row is in the result once when it satisfies every condition, and absent otherwise. */
  lemma FilterSingle(row: Record, conds: seq<(string, string)>, like: (string, string) -> bool)
    ensures Filter([row], conds, like) == if MatchesAll(row, conds, like) then [row] else []
  {
    assert [row][1..] == [];
  }

  /**
   `search_records`, the SQL `LIKE` test given as `like`. Without a condition
   it is `get_all_records()`; a key that names no column (SQLite compares
   names without regard to ASCII case) makes the query fail and the result
   empty.
   */
  function SearchRecords(t: Table, criteria: Record, like: (string, string) -> bool): (r: seq<Record>)
    ensures (forall i | 0 <= i < |criteria| :: criteria[i].1 == "") ==> r == t.rows
    ensures forall row | row in r :: row in t.rows
    ensures (exists i | 0 <= i < |criteria| :: criteria[i].1 != "" && Lower(criteria[i].0) !in SchemaColumns) ==> r == []
    ensures (exists i | 0 <= i < |criteria| :: criteria[i].1 != "") && (forall i | 0 <= i < |criteria| && criteria[i].1 != "" :: Lower(criteria[i].0) in SchemaColumns) ==>
      forall row | row in t.rows :: row in r <==> MatchesAll(row, SearchConditions(criteria), like)
    // with valid conditions the query is one filtering scan of the table
    ensures (exists i | 0 <= i < |criteria| :: criteria[i].1 != "") && (forall i | 0 <= i < |criteria| && criteria[i].1 != "" :: Lower(criteria[i].0) in SchemaColumns) ==>
      r == Filter(t.rows, SearchConditions(criteria), like)
  {
    var conds := SearchConditions(criteria);
    if |conds| == 0 then t.rows
    else if exists c | c in conds :: Lower(c.0) !in SchemaColumns then []
    else Filter(t.rows, conds, like)
  }
}
