/**
 Encoding guess of `CSVParser.detect_encoding`: the first (at most four) bytes of
 the file are compared with a table of byte-order marks, in the table's own
 order; without a mark a null-byte heuristic decides; any exception, including
 the `IndexError` the heuristic raises on a short file, yields UTF-16-LE.
 */
module Encodings {
  import opened Wrappers

  type byte = x: int | 0 <= x < 0x100

  /** The codecs the parser names. */
  datatype Encoding = Utf8Sig | Utf16LE | Utf16BE | Utf32LE | Utf32BE | Utf8 | Windows1252 {
    /** The codec name Python is given. */
    function Name(): string {
      match this
      case Utf8Sig => "utf-8-sig"
      case Utf16LE => "utf-16-le"
      case Utf16BE => "utf-16-be"
      case Utf32LE => "utf-32-le"
      case Utf32BE => "utf-32-be"
      case Utf8 => "utf-8"
      case Windows1252 => "windows-1252"
    }
  }

  const UTF8_BOM: seq<byte> := [0xEF, 0xBB, 0xBF]
  const UTF16LE_BOM: seq<byte> := [0xFF, 0xFE]
  const UTF16BE_BOM: seq<byte> := [0xFE, 0xFF]
  const UTF32LE_BOM: seq<byte> := [0xFF, 0xFE, 0x00, 0x00]
  const UTF32BE_BOM: seq<byte> := [0x00, 0x00, 0xFE, 0xFF]

  /** The byte-order-mark table in dictionary insertion order, which is the order it is searched. */
  const BomTable: seq<(Encoding, seq<byte>)> := [
    (Utf8Sig, UTF8_BOM),
    (Utf16LE, UTF16LE_BOM),
    (Utf16BE, UTF16BE_BOM),
    (Utf32LE, UTF32LE_BOM),
    (Utf32BE, UTF32BE_BOM)
  ]

  /** `s.startswith(p)` on bytes. */
  predicate StartsWith(s: seq<byte>, p: seq<byte>) {
    |p| <= |s| && s[..|p|] == p
  }

  /** The first table entry whose mark starts `raw`. */
  function FirstBom(raw: seq<byte>, table: seq<(Encoding, seq<byte>)>): (r: Option<Encoding>)
    ensures r.Some? ==> exists i | 0 <= i < |table| ::
      && table[i].0 == r.value && StartsWith(raw, table[i].1)
      && forall j | 0 <= j < i :: !StartsWith(raw, table[j].1)
    ensures r.None? ==> forall i | 0 <= i < |table| :: !StartsWith(raw, table[i].1)
  {
    if |table| == 0 then None
    else if StartsWith(raw, table[0].1) then Some(table[0].0)
    else
      var r := FirstBom(raw, table[1..]);
      assert forall i | 1 <= i < |table| :: table[1..][i - 1] == table[i];
      if r.Some? then
        var i :| 0 <= i < |table| - 1 && table[1..][i].0 == r.value && StartsWith(raw, table[1..][i].1)
          && forall j | 0 <= j < i :: !StartsWith(raw, table[1..][j].1);
        assert forall j | 0 <= j < i + 1 :: !StartsWith(raw, table[j].1);
        r
      else
        r
  }

  /** Each mark of the table, when it starts the bytes, yields its encoding: UTF-8's and
      UTF-16-LE's marks do not overlap, and the big-endian marks start differently from both. */
  lemma MarkGivesEncoding(raw: seq<byte>)
    ensures StartsWith(raw, UTF8_BOM) ==> FirstBom(raw, BomTable) == Some(Utf8Sig)
    ensures StartsWith(raw, UTF16LE_BOM) ==> FirstBom(raw, BomTable) == Some(Utf16LE)
    ensures StartsWith(raw, UTF16BE_BOM) ==> FirstBom(raw, BomTable) == Some(Utf16BE)
    ensures StartsWith(raw, UTF32BE_BOM) ==> FirstBom(raw, BomTable) == Some(Utf32BE)
  {
    var r := FirstBom(raw, BomTable);
    assert BomTable[0] == (Utf8Sig, UTF8_BOM) && BomTable[1] == (Utf16LE, UTF16LE_BOM);
    assert BomTable[2] == (Utf16BE, UTF16BE_BOM) && BomTable[4] == (Utf32BE, UTF32BE_BOM);
    if r.Some? {
      var i :| 0 <= i < |BomTable| && BomTable[i].0 == r.value && StartsWith(raw, BomTable[i].1)
        && forall j | 0 <= j < i :: !StartsWith(raw, BomTable[j].1);
      if StartsWith(raw, UTF16LE_BOM) {
        assert raw[..2][0] == raw[0] == 0xFF;
        assert !StartsWith(raw, BomTable[0].1);
      }
      if StartsWith(raw, UTF16BE_BOM) {
        assert raw[..2][0] == raw[0] == 0xFE;
        assert !StartsWith(raw, BomTable[0].1) && !StartsWith(raw, BomTable[1].1);
      }
      if StartsWith(raw, UTF32BE_BOM) {
        assert raw[..4][0] == raw[0] == 0x00;
        assert !StartsWith(raw, BomTable[0].1) && !StartsWith(raw, BomTable[1].1);
        assert !StartsWith(raw, BomTable[2].1) && !StartsWith(raw, BomTable[3].1);
      }
    }
  }

  /** No byte-order mark of the table starts `content`. */
  predicate NoBom(content: seq<byte>) {
    forall i | 0 <= i < |BomTable| :: !StartsWith(content, BomTable[i].1)
  }

  /**
   The encoding guessed for a file whose content is `file` (`None` when the file
   cannot be opened). The mark for UTF-16-LE is a prefix of the one for
   UTF-32-LE and is tried first, so UTF-32-LE is never the answer.
   */
  function DetectEncoding(file: Option<seq<byte>>): (e: Encoding)
    ensures e in {Utf8Sig, Utf16LE, Utf16BE, Utf32BE, Utf8}
    ensures file.None? ==> e == Utf16LE
    ensures file == Some([]) ==> e == Utf8
    ensures file.Some? && StartsWith(file.value, UTF8_BOM) ==> e == Utf8Sig
    ensures file.Some? && StartsWith(file.value, UTF16LE_BOM) ==> e == Utf16LE
    ensures file.Some? && StartsWith(file.value, UTF16BE_BOM) ==> e == Utf16BE
    ensures file.Some? && StartsWith(file.value, UTF32BE_BOM) ==> e == Utf32BE
    ensures file.Some? && |file.value| == 1 ==> e == Utf8
    ensures file.Some? && NoBom(file.value) && |file.value| >= 2 && file.value[1] == 0 ==> e == Utf16LE
    ensures file.Some? && NoBom(file.value) && 2 <= |file.value| <= 3 ==> e == Utf16LE
    ensures file.Some? && NoBom(file.value) && |file.value| >= 4 ==>
      (e == Utf16LE <==> file.value[1] == 0 || file.value[3] == 0)
    ensures file.Some? && NoBom(file.value) && |file.value| >= 4 ==>
      (e == Utf8 <==> file.value[1] != 0 && file.value[3] != 0)
  {
    match file
    case None => Utf16LE
    case Some(content) =>
      var raw := content[..if |content| < 4 then |content| else 4];
      if |raw| == 0 then Utf8
      else
        HeadPrefixes(content, raw);
        MarkGivesEncoding(raw);
        match FirstBom(raw, BomTable)
        case Some(enc) =>
          NeverUtf32LE(raw);
          enc
        case None =>
          assert BomTable[2].1 == UTF16BE_BOM && BomTable[4].1 == UTF32BE_BOM;
          if |raw| >= 2 then
            if raw[1] == 0 then Utf16LE
            else if |raw| < 4 then Utf16LE  // raw[3] raises IndexError, handled as any exception
            else if raw[3] == 0 then Utf16LE
            else Utf8
          else Utf8
  }

  /** The four-byte head of a file starts with a mark exactly when the file does. */
  lemma HeadPrefixes(content: seq<byte>, raw: seq<byte>)
    requires raw == content[..if |content| < 4 then |content| else 4]
    ensures forall i | 0 <= i < |BomTable| :: StartsWith(raw, BomTable[i].1) <==> StartsWith(content, BomTable[i].1)
  {
  }

  /** Whenever the UTF-32-LE mark matches, the UTF-16-LE mark, which comes earlier, matches too. */
  lemma NeverUtf32LE(raw: seq<byte>)
    ensures FirstBom(raw, BomTable) != Some(Utf32LE)
  {
    if StartsWith(raw, UTF32LE_BOM) {
      assert raw[..2] == raw[..4][..2];
      assert StartsWith(raw, UTF16LE_BOM);
    }
  }
}
