/**
 What `CSVParser.parse_file` does with rows once it has them: the delimiter
 rule, header cleaning and validation, skipping blank rows, padding or
 truncating each row to the header width, and zipping it into a record keyed
 by the non-empty header names. Also the row projection of `export_to_csv`.
 */
module TableDecoder {
  import opened Wrappers
  import opened Text
  import opened OrderedDict
  import opened Splitter

  type Row = seq<string>
  type Record = Dict

  /** `;` unless the sample has no `;` and at least one `,`. */
  function ChooseDelimiter(sample: string): (d: char)
    ensures d == ',' <==> (';' !in sample && ',' in sample)
    ensures d == ';' <==> (';' in sample || ',' !in sample)
  {
    if ';' !in sample && ',' in sample then ',' else ';'
  }

  /** `h.strip().replace('\ufeff', '')`: trimmed first, then every byte-order mark removed. */
  function CleanHeaderName(h: string): (r: string)
    ensures BYTE_ORDER_MARK !in r
    ensures BYTE_ORDER_MARK !in h ==> r == Strip(h)
    ensures |r| + Count(Strip(h), BYTE_ORDER_MARK) == |Strip(h)|
    ensures forall x | x != BYTE_ORDER_MARK :: x in r <==> x in Strip(h)
  {
    var t := Strip(h);
    if BYTE_ORDER_MARK !in t then
      RemoveAbsent(t, BYTE_ORDER_MARK);
      Remove(t, BYTE_ORDER_MARK)
    else
      Remove(t, BYTE_ORDER_MARK)
  }

  lemma {:induction false} RemoveAbsent(s: string, c: char)
    requires c !in s
    ensures Remove(s, c) == s
    decreases |s|
  {
    if |s| > 0 {
      assert c !in s[..|s| - 1];
      RemoveAbsent(s[..|s| - 1], c);
      assert s == s[..|s| - 1] + [s[|s| - 1]];
    }
  }

  /** Cleaning keeps the characters of the stripped name that are not marks in their order. */
  lemma CleanKeepsOrder(h: string)
    ensures var t := Strip(h);
      forall i | 0 <= i < |t| && t[i] != BYTE_ORDER_MARK ::
        i - Count(t[..i], BYTE_ORDER_MARK) < |CleanHeaderName(h)| && CleanHeaderName(h)[i - Count(t[..i], BYTE_ORDER_MARK)] == t[i]
  {
    RemoveKeepsOrder(Strip(h), BYTE_ORDER_MARK);
  }

  /** A name exported behind a byte-order mark reads back as the bare name. */
  lemma MarkedNameCleaned(name: string)
    requires BYTE_ORDER_MARK !in name
    requires |name| > 0 && !IsSpace(name[0]) && !IsSpace(name[|name| - 1])
    ensures CleanHeaderName([BYTE_ORDER_MARK] + name) == name
  {
    var marked := [BYTE_ORDER_MARK] + name;
    StripUnchanged(marked);
    RemoveLeading(name, BYTE_ORDER_MARK);
    RemoveAbsent(name, BYTE_ORDER_MARK);
  }

  /** The first column of a file written with a UTF-8 signature but read without it. */
  lemma MarkedTitleCleaned()
    ensures CleanHeaderName("\U{FEFF}Title") == "Title"
  {
    assert "\U{FEFF}Title" == [BYTE_ORDER_MARK] + "Title";
    MarkedNameCleaned("Title");
  }

  function CleanHeader(hs: Row): Row {
    seq(|hs|, i requires 0 <= i < |hs| => CleanHeaderName(hs[i]))
  }

  /** The header test of the source: more than one field and at least one non-empty name. */
  predicate HeaderAccepted(hs: Row) {
    |hs| > 1 && exists i | 0 <= i < |hs| :: hs[i] != ""
  }

  /** The names a record built from `hs` is keyed by. */
  function NamedColumns(hs: Row): set<string> {
    set i | 0 <= i < |hs| && hs[i] != "" :: hs[i]
  }

  lemma NamedColumnsSnoc(hs: Row)
    requires |hs| > 0
    ensures var n := |hs| - 1;
      NamedColumns(hs) == NamedColumns(hs[..n]) + (if hs[n] != "" then {hs[n]} else {})
  {
    var n := |hs| - 1;
    forall k | k in NamedColumns(hs) ensures k in NamedColumns(hs[..n]) + (if hs[n] != "" then {hs[n]} else {}) {
      var i :| 0 <= i < |hs| && hs[i] != "" && hs[i] == k;
      if i < n {
        assert hs[..n][i] == k;
      }
    }
  }

  lemma HeaderAcceptedNamed(hs: Row)
    requires HeaderAccepted(hs)
    ensures NamedColumns(hs) != {}
  {
    var i :| 0 <= i < |hs| && hs[i] != "";
    assert hs[i] in NamedColumns(hs);
  }

  /** `not row or all(not cell for cell in row)`. */
  predicate IsBlankRow(row: Row) {
    |row| == 0 || forall i | 0 <= i < |row| :: row[i] == ""
  }

  /** A row padded with empty cells, or truncated, to `width` cells. */
  function FitRow(row: Row, width: nat): (r: Row)
    ensures |r| == width
    ensures forall i | 0 <= i < width && i < |row| :: r[i] == row[i]
    ensures forall i | |row| <= i < width :: r[i] == ""
  {
    if |row| < width then row + seq(width - |row|, _ => "") else row[..width]
  }

  /** Column `i` is the rightmost column carrying its name. */
  predicate LastOccurrence(hs: Row, i: nat)
    requires i < |hs|
  {
    forall j | i < j < |hs| :: hs[j] != hs[i]
  }

  /**
   The record for a fitted row: one entry per non-empty header name; when a
   name repeats, the rightmost column's cell is the value.
   */
  function ZipNamed(hs: Row, row: Row): (r: Record)
    requires |row| == |hs|
    ensures Distinct(r)
    ensures Keys(r) == NamedColumns(hs)
    ensures forall i | 0 <= i < |hs| && hs[i] != "" && LastOccurrence(hs, i) :: Get(r, hs[i]) == Some(row[i])
    decreases |hs|
  {
    if |hs| == 0 then []
    else
      var n := |hs| - 1;
      var d := ZipNamed(hs[..n], row[..n]);
      assert Zipped(hs[..n], row[..n], d);
      if hs[n] != "" then
        ZipNamedPut(hs, row, d);
        Put(d, hs[n], row[n])
      else
        ZipNamedSkip(hs, row, d);
        d
  }

  /** What `ZipNamed` promises, as one predicate for the step lemmas. */
  predicate Zipped(hs: Row, row: Row, r: Record)
    requires |row| == |hs|
  {
    && Distinct(r)
    && Keys(r) == NamedColumns(hs)
    && forall i | 0 <= i < |hs| && hs[i] != "" && LastOccurrence(hs, i) :: Get(r, hs[i]) == Some(row[i])
  }

  /** A named last column: its cell is put under its name. */
  lemma ZipNamedPut(hs: Row, row: Row, d: Record)
    requires |row| == |hs| > 0 && hs[|hs| - 1] != ""
    requires Zipped(hs[..|hs| - 1], row[..|hs| - 1], d)
    ensures Zipped(hs, row, Put(d, hs[|hs| - 1], row[|hs| - 1]))
  {
    var n := |hs| - 1;
    NamedColumnsSnoc(hs);
    var r := Put(d, hs[n], row[n]);
    forall i | 0 <= i < |hs| && hs[i] != "" && LastOccurrence(hs, i) ensures Get(r, hs[i]) == Some(row[i]) {
      if i < n {
        EarlierColumn(hs, row, d, i);
        assert hs[n] != hs[i];
      }
    }
  }

  /** An unnamed last column: the record is unchanged. */
  lemma ZipNamedSkip(hs: Row, row: Row, d: Record)
    requires |row| == |hs| > 0 && hs[|hs| - 1] == ""
    requires Zipped(hs[..|hs| - 1], row[..|hs| - 1], d)
    ensures Zipped(hs, row, d)
  {
    var n := |hs| - 1;
    NamedColumnsSnoc(hs);
    forall i | 0 <= i < |hs| && hs[i] != "" && LastOccurrence(hs, i) ensures Get(d, hs[i]) == Some(row[i]) {
      EarlierColumn(hs, row, d, i);
    }
  }

  /** A column before the last one that is the rightmost of its name in `hs` is so in `hs[..n]` too. */
  lemma EarlierColumn(hs: Row, row: Row, d: Record, i: nat)
    requires |row| == |hs| > 0
    requires i < |hs| - 1 && hs[i] != "" && LastOccurrence(hs, i)
    requires Zipped(hs[..|hs| - 1], row[..|hs| - 1], d)
    ensures Get(d, hs[i]) == Some(row[i])
  {
    var n := |hs| - 1;
    assert hs[..n][i] == hs[i] && row[..n][i] == row[i];
    assert LastOccurrence(hs[..n], i);
  }

  /** The rows that are kept, in order. */
  function KeptRows(rows: seq<Row>): (r: seq<Row>)
    ensures |r| <= |rows|
    ensures forall j | 0 <= j < |r| :: !IsBlankRow(r[j])
  {
    if |rows| == 0 then []
    else (if IsBlankRow(rows[0]) then [] else [rows[0]]) + KeptRows(rows[1..])
  }

  /** Filtering a concatenation filters each part, so kept rows stay in file order and repeats stay. */
  lemma {:induction false} KeptRowsAppend(a: seq<Row>, b: seq<Row>)
    ensures KeptRows(a + b) == KeptRows(a) + KeptRows(b)
    decreases |a|
  {
    if |a| > 0 {
      KeptRowsAppend(a[1..], b);
      assert (a + b)[1..] == a[1..] + b;
      assert (a + b)[0] == a[0];
    } else {
      assert a + b == b;
    }
  }

  /** A single row is kept exactly when it is not blank. */
  lemma KeptRowsSingle(row: Row)
    ensures KeptRows([row]) == if IsBlankRow(row) then [] else [row]
  {
    assert [row][1..] == [];
  }

  /** No row is kept exactly when every row is blank. */
  lemma {:induction false} KeptRowsEmpty(rows: seq<Row>)
    ensures KeptRows(rows) == [] <==> forall i | 0 <= i < |rows| :: IsBlankRow(rows[i])
    decreases |rows|
  {
    if |rows| > 0 {
      KeptRowsEmpty(rows[1..]);
      assert forall i | 1 <= i < |rows| :: rows[1..][i - 1] == rows[i];
    }
  }

  /** A row is kept exactly when it is not blank. */
  lemma {:induction false} KeptRowsMembers(rows: seq<Row>)
    ensures forall row | row in KeptRows(rows) :: row in rows && !IsBlankRow(row)
    ensures forall row | row in rows && !IsBlankRow(row) :: row in KeptRows(rows)
    decreases |rows|
  {
    if |rows| > 0 {
      KeptRowsMembers(rows[1..]);
      assert forall row | row in rows :: row == rows[0] || row in rows[1..];
    }
  }

  /** The record one kept data row yields. */
  function RowRecord(hs: Row, row: Row): (rec: Record)
    ensures Keys(rec) == NamedColumns(hs) && Distinct(rec)
  {
    ZipNamed(hs, FitRow(row, |hs|))
  }

  /**
   The records of the data rows (primary path and fixed-schema path): blank rows
   are skipped, every other row is fitted to the header and zipped.
   */
  function RowsToRecords(hs: Row, rows: seq<Row>): (r: seq<Record>)
    ensures forall j | 0 <= j < |r| :: Keys(r[j]) == NamedColumns(hs) && Distinct(r[j])
    ensures NamedColumns(hs) == {} ==> r == []
    ensures NamedColumns(hs) != {} ==> |r| == |KeptRows(rows)|
    ensures NamedColumns(hs) != {} ==>
      forall j | 0 <= j < |r| :: r[j] == RowRecord(hs, KeptRows(rows)[j])
  {
    if |rows| == 0 then []
    else
      var tail := RowsToRecords(hs, rows[1..]);
      assert RecordsOfRows(hs, rows[1..], tail);
      if IsBlankRow(rows[0]) then
        assert KeptRows(rows) == KeptRows(rows[1..]);
        tail
      else
        var rec := RowRecord(hs, rows[0]);
        if |rec| > 0 then
          RecordsOfRowsCons(hs, rows, tail);
          [rec] + tail
        else
          assert Keys(rec) == {};
          tail
  }

  /** What `RowsToRecords` promises, as one predicate for its step lemma. */
  predicate RecordsOfRows(hs: Row, rows: seq<Row>, r: seq<Record>) {
    && (forall j | 0 <= j < |r| :: Keys(r[j]) == NamedColumns(hs) && Distinct(r[j]))
    && (NamedColumns(hs) == {} ==> r == [])
    && (NamedColumns(hs) != {} ==> |r| == |KeptRows(rows)|)
    && (NamedColumns(hs) != {} ==> forall j | 0 <= j < |r| :: r[j] == RowRecord(hs, KeptRows(rows)[j]))
  }

  /** A kept first row contributes the first record. */
  lemma RecordsOfRowsCons(hs: Row, rows: seq<Row>, tail: seq<Record>)
    requires |rows| > 0 && !IsBlankRow(rows[0])
    requires |RowRecord(hs, rows[0])| > 0
    requires RecordsOfRows(hs, rows[1..], tail)
    ensures RecordsOfRows(hs, rows, [RowRecord(hs, rows[0])] + tail)
  {
    var rec := RowRecord(hs, rows[0]);
    assert NamedColumns(hs) != {} by {
      assert rec[0].0 in Keys(rec);
    }
    ConsKeys(hs, rec, tail);
    assert KeptRows(rows) == [rows[0]] + KeptRows(rows[1..]);
    ConsRowValues(hs, rows[0], KeptRows(rows[1..]), tail);
  }

  /** Prepending a record keyed by the named columns keeps every record so keyed. */
  lemma ConsKeys(hs: Row, rec: Record, tail: seq<Record>)
    requires Keys(rec) == NamedColumns(hs) && Distinct(rec)
    requires forall j | 0 <= j < |tail| :: Keys(tail[j]) == NamedColumns(hs) && Distinct(tail[j])
    ensures forall j | 0 <= j < |[rec] + tail| :: Keys(([rec] + tail)[j]) == NamedColumns(hs) && Distinct(([rec] + tail)[j])
  {
    var r := [rec] + tail;
    forall j | 0 <= j < |r| ensures Keys(r[j]) == NamedColumns(hs) && Distinct(r[j]) {
      if j > 0 {
        assert r[j] == tail[j - 1];
      }
    }
  }

  lemma ConsRowValues(hs: Row, row: Row, kept: seq<Row>, tail: seq<Record>)
    requires |tail| == |kept|
    requires forall j | 0 <= j < |tail| :: tail[j] == RowRecord(hs, kept[j])
    ensures var r := [RowRecord(hs, row)] + tail; var k := [row] + kept;
      |r| == |k| && forall j | 0 <= j < |r| :: r[j] == RowRecord(hs, k[j])
  {
    var r := [RowRecord(hs, row)] + tail;
    var k := [row] + kept;
    forall j | 0 <= j < |r| ensures r[j] == RowRecord(hs, k[j]) {
      if j > 0 {
        assert r[j] == tail[j - 1];
        assert k[j] == kept[j - 1];
      }
    }
  }

  /** The stripped non-blank lines of the manual path, in order. */
  function ContentLines(lines: seq<string>): (r: seq<string>)
    ensures forall l | l in r :: l != ""
    ensures |r| <= |lines|
  {
    if |lines| == 0 then []
    else (if Strip(lines[0]) == "" then [] else [Strip(lines[0])]) + ContentLines(lines[1..])
  }

  /** No line has content exactly when every line strips to nothing. */
  lemma {:induction false} ContentLinesEmpty(lines: seq<string>)
    ensures ContentLines(lines) == [] <==> forall i | 0 <= i < |lines| :: Strip(lines[i]) == ""
    decreases |lines|
  {
    if |lines| > 0 {
      ContentLinesEmpty(lines[1..]);
      assert forall i | 1 <= i < |lines| :: lines[1..][i - 1] == lines[i];
    }
  }

  /** The record the manual path builds from one stripped, non-blank line. */
  function LineRecord(hs: Row, line: string, d: char): (rec: Record)
    ensures Keys(rec) == NamedColumns(hs) && Distinct(rec)
  {
    ZipNamed(hs, FitRow(SplitFields(line, d), |hs|))
  }

  /**
   The records of the manual path: a line that is blank once stripped is
   skipped; every other line is stripped, split with the quote-aware splitter,
   fitted and zipped. Unlike the primary path, a line whose cells are all
   empty (`;;`) still yields a record.
   */
  function LinesToRecords(hs: Row, lines: seq<string>, d: char): (r: seq<Record>)
    ensures forall j | 0 <= j < |r| :: Keys(r[j]) == NamedColumns(hs) && Distinct(r[j])
    ensures NamedColumns(hs) == {} ==> r == []
    ensures NamedColumns(hs) != {} ==> |r| == |ContentLines(lines)|
    ensures NamedColumns(hs) != {} ==>
      forall j | 0 <= j < |r| :: r[j] == LineRecord(hs, ContentLines(lines)[j], d)
  {
    if |lines| == 0 then []
    else
      var tail := LinesToRecords(hs, lines[1..], d);
      assert RecordsOfLines(hs, lines[1..], d, tail);
      var line := Strip(lines[0]);
      if line == "" then
        assert ContentLines(lines) == ContentLines(lines[1..]);
        tail
      else
        var rec := LineRecord(hs, line, d);
        if |rec| > 0 then
          RecordsOfLinesCons(hs, lines, d, tail);
          [rec] + tail
        else
          assert Keys(rec) == {};
          tail
  }

  /** What `LinesToRecords` promises, as one predicate for its step lemma. */
  predicate RecordsOfLines(hs: Row, lines: seq<string>, d: char, r: seq<Record>) {
    && (forall j | 0 <= j < |r| :: Keys(r[j]) == NamedColumns(hs) && Distinct(r[j]))
    && (NamedColumns(hs) == {} ==> r == [])
    && (NamedColumns(hs) != {} ==> |r| == |ContentLines(lines)|)
    && (NamedColumns(hs) != {} ==> forall j | 0 <= j < |r| :: r[j] == LineRecord(hs, ContentLines(lines)[j], d))
  }

  /** A first line that is not blank contributes the first record. */
  lemma RecordsOfLinesCons(hs: Row, lines: seq<string>, d: char, tail: seq<Record>)
    requires |lines| > 0 && Strip(lines[0]) != ""
    requires |LineRecord(hs, Strip(lines[0]), d)| > 0
    requires RecordsOfLines(hs, lines[1..], d, tail)
    ensures RecordsOfLines(hs, lines, d, [LineRecord(hs, Strip(lines[0]), d)] + tail)
  {
    var rec := LineRecord(hs, Strip(lines[0]), d);
    assert NamedColumns(hs) != {} by {
      assert rec[0].0 in Keys(rec);
    }
    ConsKeys(hs, rec, tail);
    assert ContentLines(lines) == [Strip(lines[0])] + ContentLines(lines[1..]);
    ConsLineValues(hs, Strip(lines[0]), ContentLines(lines[1..]), d, tail);
  }

  lemma ConsLineValues(hs: Row, line: string, content: seq<string>, d: char, tail: seq<Record>)
    requires |tail| == |content|
    requires forall j | 0 <= j < |tail| :: tail[j] == LineRecord(hs, content[j], d)
    ensures var r := [LineRecord(hs, line, d)] + tail; var k := [line] + content;
      |r| == |k| && forall j | 0 <= j < |r| :: r[j] == LineRecord(hs, k[j], d)
  {
    var r := [LineRecord(hs, line, d)] + tail;
    var k := [line] + content;
    forall j | 0 <= j < |r| ensures r[j] == LineRecord(hs, k[j], d) {
      if j > 0 {
        assert r[j] == tail[j - 1];
        assert k[j] == content[j - 1];
      }
    }
  }

  /** An empty name gets no entry and a repeated name keeps the value of its last column. */
  lemma EmptyAndRepeatedNames()
    ensures var rec := RowRecord(["Title", "", "Title"], ["a", "b", "c", "d"]);
      Keys(rec) == {"Title"} && Get(rec, "Title") == Some("c")
    ensures var rec := RowRecord(["Title", "", "Title"], ["a"]);
      Keys(rec) == {"Title"} && Get(rec, "Title") == Some("")
  {
    var hs: Row := ["Title", "", "Title"];
    assert NamedColumns(hs) == {"Title"} by {
      assert hs[0] in NamedColumns(hs);
    }
    assert LastOccurrence(hs, 2);
    assert FitRow(["a", "b", "c", "d"], 3)[2] == "c";
    assert FitRow(["a"], 3)[2] == "";
  }

  /**
   A line of empty cells: the csv-module path drops the row `["", ""]`, while
   the manual path keeps the line `;` and splits it into two empty fields, so
   `LinesToRecords` turns it into a record.
   */
  lemma EmptyCellsLine()
    ensures KeptRows([["", ""]]) == []
    ensures ContentLines([";"]) == [";"]
    ensures SplitFields(";", ';') == ["", ""]
  {
    StripUnchanged(";");
    assert ContentLines([";"][1..]) == [];
    assert Pieces(";", ';') == ["", ""] by {
      assert Pieces(";"[..0], ';') == [""];
      assert IsBoundary(";", 0, ';');
    }
  }

  /** `[row.get(h, '') for h in headers]`, the values `export_to_csv` writes for one record. */
  function Project(rec: Record, hs: Row): (values: Row)
    ensures |values| == |hs|
    ensures forall i | 0 <= i < |hs| && hs[i] in Keys(rec) :: Get(rec, hs[i]) == Some(values[i])
    ensures forall i | 0 <= i < |hs| && hs[i] !in Keys(rec) :: values[i] == ""
  {
    seq(|hs|, i requires 0 <= i < |hs| => GetOr(rec, hs[i], ""))
  }

  /** Two records hold the same entries (possibly in another order). */
  ghost predicate SameEntries(a: Record, b: Record) {
    forall k: string :: Get(a, k) == Get(b, k)
  }

  /** The rightmost column named `k`. */
  lemma RightmostColumn(hs: Row, k: string) returns (i: nat)
    requires k in NamedColumns(hs)
    ensures i < |hs| && hs[i] == k && LastOccurrence(hs, i)
    decreases |hs|
  {
    var n := |hs| - 1;
    if hs[n] == k {
      i := n;
    } else {
      NamedColumnsSnoc(hs);
      i := RightmostColumn(hs[..n], k);
    }
  }

  /**
   Exporting a record under the header it was parsed with and zipping the
   exported row again gives back the same entries.
   */
  lemma {:induction false} ExportRoundTrip(rec: Record, hs: Row)
    requires Keys(rec) == NamedColumns(hs)
    ensures SameEntries(ZipNamed(hs, Project(rec, hs)), rec)
  {
    var row := Project(rec, hs);
    var z := ZipNamed(hs, row);
    forall k: string ensures Get(z, k) == Get(rec, k) {
      if k in NamedColumns(hs) {
        var i := RightmostColumn(hs, k);
        assert row[i] == GetOr(rec, k, "");
      }
    }
  }

  /** Some entry of the record is non-empty. */
  predicate HasValue(rec: Record) {
    exists k | k in Keys(rec) :: GetOr(rec, k, "") != ""
  }

  /** The rows `export_to_csv` writes for a batch of records. */
  function ProjectAll(recs: seq<Record>, hs: Row): (rows: seq<Row>)
    ensures |rows| == |recs|
  {
    seq(|recs|, j requires 0 <= j < |recs| => Project(recs[j], hs))
  }

  lemma {:induction false} KeptRowsAll(rows: seq<Row>)
    requires forall j | 0 <= j < |rows| :: !IsBlankRow(rows[j])
    ensures KeptRows(rows) == rows
    decreases |rows|
  {
    if |rows| > 0 {
      assert forall j | 0 <= j < |rows| - 1 :: rows[1..][j] == rows[j + 1];
      KeptRowsAll(rows[1..]);
    }
  }

  /**
   Re-reading exported rows: every record that has a non-empty value survives
   the blank-row filter and comes back with the same entries, in order.
   */
  lemma ExportBatchRoundTrip(recs: seq<Record>, hs: Row)
    requires NamedColumns(hs) != {}
    requires forall j | 0 <= j < |recs| :: Keys(recs[j]) == NamedColumns(hs)
    requires forall j | 0 <= j < |recs| :: HasValue(recs[j])
    ensures var back := RowsToRecords(hs, ProjectAll(recs, hs));
      |back| == |recs| && forall j | 0 <= j < |recs| :: SameEntries(back[j], recs[j])
  {
    var rows := ProjectAll(recs, hs);
    forall j | 0 <= j < |rows| ensures !IsBlankRow(rows[j]) {
      var k :| k in Keys(recs[j]) && GetOr(recs[j], k, "") != "";
      var i := RightmostColumn(hs, k);
      assert rows[j][i] != "";
    }
    KeptRowsAll(rows);
    var back := RowsToRecords(hs, rows);
    forall j | 0 <= j < |recs| ensures SameEntries(back[j], recs[j]) {
      assert FitRow(rows[j], |hs|) == rows[j];
      ExportRoundTrip(recs[j], hs);
    }
  }
}
