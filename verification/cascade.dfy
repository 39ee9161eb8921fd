/**
 The stage order of `CSVParser.parse_file`. A missing path fails at once.
 The primary read decodes the file with the detected encoding and reads it
 with the csv module; once it has rows its verdict is final, success or not.
 Only a decoding error leads to the manual path, which re-decodes the raw
 bytes with a fixed list of encodings (replacing invalid sequences) and
 splits lines itself; the first encoding that gives an accepted header and at
 least one record wins. Any other error, or a manual path that gives
 nothing, leads to the last resort: UTF-16-LE, `;`, the file's first row
 skipped and a fixed list of column names paired positionally with each row.
 */
module Cascade {
  import opened Wrappers
  import opened Text
  import opened OrderedDict
  import opened Encodings
  import opened Splitter
  import opened TableDecoder

  /** What the file system holds at the path. */
  datatype FileState = Missing | Unreadable | Present(content: seq<byte>)

  /** How the csv module is configured: with the dialect `csv.Sniffer` settles on, or plainly. */
  datatype Dialect = Sniffed(delimiter: char) | Plain(delimiter: char)

  /**
   Library behaviour the parser relies on and this model does not re-implement.
   `decode`: reading the file in text mode with an encoding (`None` when that
   raises `UnicodeDecodeError`); `decodeReplacing`: `bytes.decode` with
   `errors='replace'` (`None` stands for a `UnicodeDecodeError`);
   `splitLines`: `str.splitlines`; `readRows`: the rows `csv.reader` yields
   before it stops, and whether it stopped by raising.
   */
  datatype Library = Library(
    decode: (seq<byte>, Encoding) -> Option<string>,
    decodeReplacing: (seq<byte>, Encoding) -> Option<string>,
    splitLines: string -> seq<string>,
    readRows: (string, Dialect) -> Reading
  )

  /** The rows a `csv.reader` yields, in order, up to the end of the text or up to the row on which it raises. */
  datatype Reading = Reading(rows: seq<Row>, raised: bool)

  /** Characters read to choose the delimiter in the primary read. */
  const SAMPLE_SIZE: nat := 1024

  /** The column names of a tagging-tool export, used by the last resort. */
  const ExpectedHeaders: Row := [
    "Title", "Artist", "Album", "Year", "Genre", "Comment", "ISRC", "Language",
    "AudioLength", "FileSize", "Crc", "FileCreateDate", "LastModified", "RelativePath",
    "Filename", "Extension", "Directory", "ParentDirectory", "Keywords", "Mood",
    "Usage", "Song", "ModeStereo", "BPM", "Codec", "Bitrate", "Samplerate", "VBR",
    "TagType", "CoverDescription", "CoverSize", "CoverType", "CoverMime",
    "CoverHeight", "CoverWidth", "UnSyncLyrics", "SrcFix", "PlayCounter"
  ]

  /** The stage that produced a result. */
  datatype Stage = Primary | Manual(encoding: Encoding) | FixedSchema

  /** Why no result was produced; the source returns `(None, None)` for all of them. */
  datatype Failure = MissingFile | NoHeaderRow | InvalidHeader | NoData | AllAttemptsFailed

  datatype ParseResult =
    | Parsed(headers: Row, records: seq<Record>, stage: Stage)
    | Failed(reason: Failure)

  /** The primary read either concludes or raises. */
  datatype Attempt = Concluded(result: ParseResult) | DecodeError | OtherError

  /** The first `SAMPLE_SIZE` characters, `csvfile.read(1024)`. */
  function Sample(text: string): string {
    text[..if |text| < SAMPLE_SIZE then |text| else SAMPLE_SIZE]
  }

  /**
   The verdict of the primary read on the rows `csv.reader` produced: no row
   at all, a rejected header, and no record are failures, returned as such.
   */
  function DecodeTable(rows: seq<Row>): (r: ParseResult)
    ensures |rows| == 0 <==> r == Failed(NoHeaderRow)
    ensures |rows| > 0 ==> (r == Failed(InvalidHeader) <==> !HeaderAccepted(CleanHeader(rows[0])))
    ensures |rows| > 0 && HeaderAccepted(CleanHeader(rows[0])) ==>
      (r == Failed(NoData) <==> KeptRows(rows[1..]) == [])
    ensures r.Failed? ==> r.reason in {NoHeaderRow, InvalidHeader, NoData}
    ensures r.Parsed? ==> r.stage == Primary && |rows| > 0 && r.headers == CleanHeader(rows[0])
    ensures r.Parsed? ==> |r.records| == |KeptRows(rows[1..])| >= 1
    ensures r.Parsed? ==> forall j | 0 <= j < |r.records| :: Keys(r.records[j]) == NamedColumns(r.headers)
    // the records are those of the rows after the header, zipped with it
    ensures r.Parsed? ==> r.records == RowsToRecords(r.headers, rows[1..])
  {
    if |rows| == 0 then Failed(NoHeaderRow)
    else
      var headers := CleanHeader(rows[0]);
      if !HeaderAccepted(headers) then Failed(InvalidHeader)
      else
        HeaderAcceptedNamed(headers);
        var data := RowsToRecords(headers, rows[1..]);
        if |data| == 0 then Failed(NoData) else Parsed(headers, data, Primary)
  }

  /**
   The primary read with encoding `enc` of a file whose bytes are `file`
   (`None`: cannot be opened). The header is judged as soon as the reader
   yields it, so a reader error after a rejected header is never reached.
   */
  function PrimaryAttempt(file: Option<seq<byte>>, enc: Encoding, lib: Library): (a: Attempt)
    ensures a.DecodeError? <==> file.Some? && lib.decode(file.value, enc).None?
    // the reader raised before the header, or after an accepted one
    ensures a.OtherError? <==>
      || file.None?
      || (&& lib.decode(file.value, enc).Some?
          && var rd := PrimaryRows(file.value, enc, lib);
             rd.raised && (|rd.rows| == 0 || HeaderAccepted(CleanHeader(rd.rows[0]))))
    ensures a.Concluded? ==>
      && file.Some? && lib.decode(file.value, enc).Some?
      && a.result == DecodeTable(PrimaryRows(file.value, enc, lib).rows)
  {
    match file
    case None => OtherError
    case Some(content) =>
      match lib.decode(content, enc)
      case None => DecodeError
      case Some(text) =>
        var rd := lib.readRows(text, Sniffed(ChooseDelimiter(Sample(text))));
        if rd.raised && (|rd.rows| == 0 || HeaderAccepted(CleanHeader(rd.rows[0]))) then OtherError
        else Concluded(DecodeTable(rd.rows))
  }

  /**
   What the reader of the primary read yields: `csv.reader` over the decoded
   text, with the dialect sniffed for the delimiter the first `SAMPLE_SIZE`
   characters choose.
   */
  function PrimaryRows(content: seq<byte>, enc: Encoding, lib: Library): Reading
    requires lib.decode(content, enc).Some?
  {
    var text := lib.decode(content, enc).value;
    lib.readRows(text, Sniffed(ChooseDelimiter(Sample(text))))
  }

  /** The encodings the manual path tries, in order. */
  function ManualCandidates(detected: Encoding): seq<Encoding> {
    [detected, Utf16LE, Utf16BE, Utf8, Windows1252]
  }

  /** `enc.replace('-sig', '')`: the manual path decodes a marked UTF-8 file as plain UTF-8. */
  function WithoutSig(enc: Encoding): Encoding {
    if enc == Utf8Sig then Utf8 else enc
  }

  /** `lines[0].strip().replace('\ufeff', '')`: the header line of the manual path. */
  function HeaderLine(first: string): string {
    Remove(Strip(first), BYTE_ORDER_MARK)
  }

  /**
   The headers of the manual path: the header line split plainly, every name
   stripped. There is one name more than delimiters, and no name holds the
   delimiter or starts or ends with whitespace.
   */
  function ManualHeader(headerLine: string, d: char): (r: Row)
    ensures StrippedPieces(headerLine, d, r)
    ensures |r| == Count(headerLine, d) + 1
    ensures forall i | 0 <= i < |r| :: d !in r[i]
    ensures forall i | 0 <= i < |r| :: r[i] == [] || (!IsSpace(r[i][0]) && !IsSpace(r[i][|r[i]| - 1]))
  {
    var pieces := Split(headerLine, d);
    SplitPieces(headerLine, d);
    var r := seq(|pieces|, i requires 0 <= i < |pieces| => Strip(pieces[i]));
    forall i | 0 <= i < |r| ensures d !in r[i] {
      StripWithin(pieces[i]);
    }
    r
  }

  /** `names` are the pieces of `line` split at `d`, each stripped. */
  ghost predicate StrippedPieces(line: string, d: char, names: Row) {
    |names| == |Split(line, d)| && forall i | 0 <= i < |names| :: names[i] == Strip(Split(line, d)[i])
  }

  /** The lines the manual path splits the text into, when the bytes decode with `enc`. */
  function ManualLines(content: seq<byte>, enc: Encoding, lib: Library): Option<seq<string>> {
    match lib.decodeReplacing(content, WithoutSig(enc))
    case None => None
    case Some(text) => Some(lib.splitLines(text))
  }

  /** A header line the manual path accepts. */
  predicate ManualHeaderAccepted(line: string) {
    HeaderAccepted(ManualHeader(HeaderLine(line), ChooseDelimiter(HeaderLine(line))))
  }

  /** One encoding of the manual path: a header and records, or nothing. */
  function ManualCandidate(content: seq<byte>, enc: Encoding, lib: Library): (r: Attempted)
    // an encoding gives a result exactly when its text has lines, an accepted
    // header line, and a later line that is not blank
    ensures r.Some? <==>
      var ls := ManualLines(content, enc, lib);
      && ls.Some? && |ls.value| > 0
      && ManualHeaderAccepted(ls.value[0])
      && exists j | 1 <= j < |ls.value| :: Strip(ls.value[j]) != ""
    ensures r.Some? ==> HeaderAccepted(r.value.0) && |r.value.1| >= 1
    ensures r.Some? ==> forall j | 0 <= j < |r.value.1| :: Keys(r.value.1[j]) == NamedColumns(r.value.0)
    ensures r.Some? ==>
      var ls := ManualLines(content, enc, lib).value;
      var d := ChooseDelimiter(HeaderLine(ls[0]));
      && r.value.0 == ManualHeader(HeaderLine(ls[0]), d)
      && r.value.1 == LinesToRecords(r.value.0, ls[1..], d)
  {
    match ManualLines(content, enc, lib)
    case None => None
    case Some(lines) =>
      if |lines| == 0 then None
      else
        var headerLine := HeaderLine(lines[0]);
        var d := ChooseDelimiter(headerLine);
        var headers := ManualHeader(headerLine, d);
        if !HeaderAccepted(headers) then None
        else
          var data := LinesToRecords(headers, lines[1..], d);
          HeaderAcceptedNamed(headers);
          ContentLinesEmpty(lines[1..]);
          NonBlankAfterFirst(lines);
          if |data| == 0 then None else Some((headers, data))
  }

  /** A line after the first is not blank exactly when some line of the tail is not. */
  lemma NonBlankAfterFirst(lines: seq<string>)
    requires |lines| > 0
    ensures (exists j | 1 <= j < |lines| :: Strip(lines[j]) != "") <==>
            (exists j | 0 <= j < |lines[1..]| :: Strip(lines[1..][j]) != "")
  {
    forall j | 1 <= j < |lines| ensures lines[j] == lines[1..][j - 1] { }
  }

  /** What one candidate encoding of the manual path yields. */
  type Attempted = Option<(Row, seq<Record>)>

  /** The first candidate encoding whose `attempt` yields a result, with that result. */
  function ManualSearch(candidates: seq<Encoding>, attempt: Encoding -> Attempted): Option<(Encoding, Row, seq<Record>)> {
    if |candidates| == 0 then None
    else
      match attempt(candidates[0])
      case Some((headers, data)) => Some((candidates[0], headers, data))
      case None => ManualSearch(candidates[1..], attempt)
  }

  /**
   The manual path gives nothing exactly when every candidate gives nothing;
   otherwise its result is that of the first candidate that gives one.
   */
  lemma {:induction false} ManualSearchFirstWins(candidates: seq<Encoding>, attempt: Encoding -> Attempted)
    ensures var r := ManualSearch(candidates, attempt);
      r.None? <==> forall i | 0 <= i < |candidates| :: attempt(candidates[i]).None?
    ensures var r := ManualSearch(candidates, attempt);
      r.Some? ==> exists i | 0 <= i < |candidates| ::
        && candidates[i] == r.value.0
        && attempt(candidates[i]) == Some((r.value.1, r.value.2))
        && forall j | 0 <= j < i :: attempt(candidates[j]).None?
    decreases |candidates|
  {
    if |candidates| > 0 {
      var first := attempt(candidates[0]);
      if first.Some? {
        assert ManualSearch(candidates, attempt) == Some((candidates[0], first.value.0, first.value.1));
      } else {
        var tail := candidates[1..];
        ManualSearchFirstWins(tail, attempt);
        assert forall i | 1 <= i < |candidates| :: tail[i - 1] == candidates[i];
        var r := ManualSearch(tail, attempt);
        if r.Some? {
          var i :| 0 <= i < |tail| && tail[i] == r.value.0
            && attempt(tail[i]) == Some((r.value.1, r.value.2))
            && forall j | 0 <= j < i :: attempt(tail[j]).None?;
          assert candidates[i + 1] == r.value.0;
        }
      }
    }
  }

  /** The manual path of `parse_file` over the bytes of the file: each candidate decodes and reads the whole text. */
  function ManualPath(content: seq<byte>, candidates: seq<Encoding>, lib: Library): (r: Option<(Encoding, Row, seq<Record>)>)
    ensures r.None? <==> forall e | e in candidates :: ManualCandidate(content, e, lib).None?
    ensures r.Some? ==> r.value.0 in candidates && ManualCandidate(content, r.value.0, lib) == Some((r.value.1, r.value.2))
    // the first candidate that gives a result wins
    ensures r.Some? ==> exists i | 0 <= i < |candidates| ::
      && candidates[i] == r.value.0
      && ManualCandidate(content, candidates[i], lib) == Some((r.value.1, r.value.2))
      && forall j | 0 <= j < i :: ManualCandidate(content, candidates[j], lib).None?
  {
    var attempt := e => ManualCandidate(content, e, lib);
    ManualSearchFirstWins(candidates, attempt);
    ManualSearch(candidates, attempt)
  }

  /**
   The last resort: the bytes decoded as UTF-16-LE, read with `;`, the first
   row skipped, and every non-blank row paired positionally with `ExpectedHeaders`.
   */
  function FixedSchemaAttempt(file: Option<seq<byte>>, lib: Library): (r: Option<seq<Record>>)
    // a result exactly when some row after the first is not blank
    ensures r.Some? <==>
      var rows := FixedSchemaRows(file, lib);
      rows.Some? && exists j | 1 <= j < |rows.value| :: !IsBlankRow(rows.value[j])
    ensures r.Some? ==> |r.value| >= 1
    ensures r.Some? ==> forall j | 0 <= j < |r.value| :: Keys(r.value[j]) == NamedColumns(ExpectedHeaders)
    ensures r.Some? ==> r.value == RowsToRecords(ExpectedHeaders, FixedSchemaRows(file, lib).value[1..])
  {
    match FixedSchemaRows(file, lib)
    case None => None
    case Some(rows) =>
      var body := if |rows| == 0 then [] else rows[1..];
      var data := RowsToRecords(ExpectedHeaders, body);
      assert ExpectedHeaders[0] in NamedColumns(ExpectedHeaders);
      KeptRowsEmpty(body);
      assert (exists j | 1 <= j < |rows| :: !IsBlankRow(rows[j])) <==>
             (exists j | 0 <= j < |body| :: !IsBlankRow(body[j])) by {
        forall j | 1 <= j < |rows| ensures rows[j] == body[j - 1] { }
      }
      if |data| == 0 then None else Some(data)
  }

  /** The rows of the last resort: the bytes decoded as UTF-16-LE, read by `csv.reader` with `;`; nothing when the reader raises. */
  function FixedSchemaRows(file: Option<seq<byte>>, lib: Library): Option<seq<Row>> {
    match file
    case None => None
    case Some(content) =>
      match lib.decode(content, Utf16LE)
      case None => None
      case Some(text) =>
        var rd := lib.readRows(text, Plain(';'));
        if rd.raised then None else Some(rd.rows)
  }

  /** The bytes of the file, when it can be opened. */
  function Content(file: FileState): Option<seq<byte>> {
    if file.Present? then Some(file.content) else None
  }

  /** The primary read as `parse_file` performs it. */
  function PrimaryOf(file: FileState, lib: Library): Attempt {
    PrimaryAttempt(Content(file), DetectEncoding(Content(file)), lib)
  }

  /** The fixed-schema read, or the final failure of `parse_file`. */
  function LastResort(file: FileState, lib: Library): (r: ParseResult)
    ensures r.Parsed? <==> FixedSchemaAttempt(Content(file), lib).Some?
    ensures r.Parsed? ==> r.stage == FixedSchema && r.headers == ExpectedHeaders
    ensures r.Parsed? ==> r.records == FixedSchemaAttempt(Content(file), lib).value
    ensures r.Failed? ==> r.reason == AllAttemptsFailed
  {
    match FixedSchemaAttempt(Content(file), lib)
    case Some(data) => Parsed(ExpectedHeaders, data, FixedSchema)
    case None => Failed(AllAttemptsFailed)
  }

  /** `CSVParser.parse_file`. */
  function ParseFile(file: FileState, lib: Library): (r: ParseResult)
    ensures file.Missing? <==> r == Failed(MissingFile)
    ensures r.Parsed? ==> HeaderAccepted(r.headers) && |r.records| >= 1
    ensures r.Parsed? ==> forall j | 0 <= j < |r.records| :: Keys(r.records[j]) == NamedColumns(r.headers)
    // once the primary read has rows, its verdict is the answer
    ensures PrimaryOf(file, lib).Concluded? ==> r == PrimaryOf(file, lib).result
    ensures r.Failed? && r.reason in {NoHeaderRow, InvalidHeader, NoData} ==> PrimaryOf(file, lib).Concluded?
    ensures r.Parsed? && r.stage == Primary ==> PrimaryOf(file, lib).Concluded?
    // only a decoding error opens the manual path
    ensures r.Parsed? && r.stage.Manual? ==> PrimaryOf(file, lib).DecodeError?
    ensures r.Parsed? && r.stage.Manual? ==> r.stage.encoding in ManualCandidates(DetectEncoding(Content(file)))
    // the last resort comes after every other stage has given nothing
    ensures PrimaryOf(file, lib).OtherError? && !file.Missing? ==> r == LastResort(file, lib)
    ensures PrimaryOf(file, lib).DecodeError? ==>
      var m := ManualPath(Content(file).value, ManualCandidates(DetectEncoding(Content(file))), lib);
      r == if m.Some? then Parsed(m.value.1, m.value.2, Manual(m.value.0)) else LastResort(file, lib)
    ensures r.Parsed? && r.stage == FixedSchema ==>
      && r.headers == ExpectedHeaders
      && !PrimaryOf(file, lib).Concluded?
      && (PrimaryOf(file, lib).DecodeError? ==>
            forall e | e in ManualCandidates(DetectEncoding(Content(file))) :: ManualCandidate(Content(file).value, e, lib).None?)
  {
    if file.Missing? then Failed(MissingFile)
    else
      var enc := DetectEncoding(Content(file));
      match PrimaryAttempt(Content(file), enc, lib)
      case Concluded(result) => result
      case DecodeError =>
        (match ManualPath(Content(file).value, ManualCandidates(enc), lib)
         case Some((e, headers, data)) => Parsed(headers, data, Manual(e))
         case None => LastResort(file, lib))
      case OtherError => LastResort(file, lib)
  }

  /** The fixed column names are distinct and non-empty, so a record of the last resort pairs every name with its cell. */
  lemma ExpectedHeadersDistinct()
    ensures |ExpectedHeaders| == 38
    ensures forall i | 0 <= i < |ExpectedHeaders| :: ExpectedHeaders[i] != "" && LastOccurrence(ExpectedHeaders, i)
  {
    TagNamesDistinct();
    FileNamesDistinct();
    PathNamesDistinct();
    AudioNamesDistinct();
    CoverNamesDistinct();
    LastNamesDistinct();
  }

  /** The names `Title` to `Language` are non-empty and occur nowhere else in the list. */
  lemma TagNamesDistinct()
    ensures forall i | 0 <= i < 8 :: ExpectedHeaders[i] != "" && LastOccurrence(ExpectedHeaders, i)
  {
    TitleToYearDistinct();
    GenreToLanguageDistinct();
  }

  lemma TitleToYearDistinct()
    ensures forall i | 0 <= i < 4 :: ExpectedHeaders[i] != "" && LastOccurrence(ExpectedHeaders, i)
  {
  }

  lemma GenreToLanguageDistinct()
    ensures forall i | 4 <= i < 8 :: ExpectedHeaders[i] != "" && LastOccurrence(ExpectedHeaders, i)
  {
  }

  /** The names `AudioLength` to `RelativePath` are non-empty and occur nowhere else in the list. */
  lemma FileNamesDistinct()
    ensures forall i | 8 <= i < 14 :: ExpectedHeaders[i] != "" && LastOccurrence(ExpectedHeaders, i)
  {
  }

  /** The names `Filename` to `Mood` are non-empty and occur nowhere else in the list. */
  lemma PathNamesDistinct()
    ensures forall i | 14 <= i < 20 :: ExpectedHeaders[i] != "" && LastOccurrence(ExpectedHeaders, i)
  {
  }

  /** The names `Usage` to `VBR` are non-empty and occur nowhere else in the list. */
  lemma AudioNamesDistinct()
    ensures forall i | 20 <= i < 28 :: ExpectedHeaders[i] != "" && LastOccurrence(ExpectedHeaders, i)
  {
  }

  /** The names `TagType` to `CoverMime` are non-empty and occur nowhere else in the list. */
  lemma CoverNamesDistinct()
    ensures forall i | 28 <= i < 33 :: ExpectedHeaders[i] != "" && LastOccurrence(ExpectedHeaders, i)
  {
  }

  /** The names `CoverHeight` to `PlayCounter` are non-empty and occur nowhere else in the list. */
  lemma LastNamesDistinct()
    ensures forall i | 33 <= i < 38 :: ExpectedHeaders[i] != "" && LastOccurrence(ExpectedHeaders, i)
  {
  }

  /**
   Every record of the last resort carries exactly the fixed names, the i-th
   name paired with the i-th cell of its (fitted) data row, the file's own
   first row never being one of them.
   */
  lemma FixedSchemaPairsPositionally(content: seq<byte>, lib: Library, text: string, rows: seq<Row>)
    requires lib.decode(content, Utf16LE) == Some(text)
    requires lib.readRows(text, Plain(';')) == Reading(rows, false)
    requires FixedSchemaAttempt(Some(content), lib).Some?
    ensures var data := FixedSchemaAttempt(Some(content), lib).value;
      && |rows| >= 2
      && |data| == |KeptRows(rows[1..])|
      && forall j, i | 0 <= j < |data| && 0 <= i < |ExpectedHeaders| ::
           Get(data[j], ExpectedHeaders[i]) == Some(FitRow(KeptRows(rows[1..])[j], |ExpectedHeaders|)[i])
  {
    ExpectedHeadersDistinct();
    assert ExpectedHeaders[0] in NamedColumns(ExpectedHeaders);
  }
}
