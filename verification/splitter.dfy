/**
 The minimal quote-aware line splitter of the manual fallback
 (`CSVParser._split_csv_line`). Each double quote toggles an "inside quotes"
 flag and stays in the field; the delimiter ends a field only outside quotes;
 a finished field that starts and ends with a quote and is longer than one
 character loses those two quotes. Doubled quotes get no special treatment.
 */
module Splitter {
  import opened Text

  const QUOTE: char := '"'

  /** Number of double quotes in `s`. */
  function QuoteCount(s: string): nat {
    Count(s, QUOTE)
  }

  /** The scanner is inside quotes after reading `s`. */
  predicate InsideQuotes(s: string) {
    QuoteCount(s) % 2 == 1
  }

  /** Character `i` of `s` ends a field: it is the delimiter, not a quote, and read outside quotes. */
  predicate IsBoundary(s: string, i: nat, d: char)
    requires i < |s|
  {
    s[i] != QUOTE && s[i] == d && !InsideQuotes(s[..i])
  }

  /** Positions of `s` that end a field. */
  function Boundaries(s: string, d: char): set<nat> {
    set i: nat | i < |s| && IsBoundary(s, i, d)
  }

  /** The raw fields of `s`, quotes kept, read left to right. */
  function Pieces(s: string, d: char): (r: seq<string>)
    ensures |r| >= 1
    decreases |s|
  {
    if |s| == 0 then [""]
    else
      var init := Pieces(s[..|s| - 1], d);
      if IsBoundary(s, |s| - 1, d) then init + [""]
      else init[..|init| - 1] + [init[|init| - 1] + [s[|s| - 1]]]
  }

  /** A field with surrounding quotes (and length above one) without them. */
  function Unquote(f: string): string {
    if |f| > 1 && f[0] == QUOTE && f[|f| - 1] == QUOTE then f[1..|f| - 1] else f
  }

  function Unquoted(ps: seq<string>): (r: seq<string>)
    ensures |r| == |ps|
    ensures forall k | 0 <= k < |ps| :: r[k] == Unquote(ps[k])
  {
    seq(|ps|, k requires 0 <= k < |ps| => Unquote(ps[k]))
  }

  /** The fields the splitter returns for `line`, as a function. */
  function SplitFields(line: string, d: char): seq<string> {
    Unquoted(Pieces(line, d))
  }

  /** The scanning loop of the source, proved to return `SplitFields`. */
  method SplitCsvLine(line: string, delimiter: char) returns (fields: seq<string>)
    ensures fields == SplitFields(line, delimiter)
    ensures |fields| == |Boundaries(line, delimiter)| + 1
    ensures forall k | 0 <= k < |fields| ::
      var p := Pieces(line, delimiter)[k];
      fields[k] == (if |p| > 1 && p[0] == QUOTE && p[|p| - 1] == QUOTE then p[1..|p| - 1] else p)
    ensures QUOTE !in line ==> fields == Split(line, delimiter)
  {
    fields := [];
    var current := "";
    var inQuotes := false;
    var i := 0;
    while i < |line|
      invariant 0 <= i <= |line|
      invariant Scanned(line, i, delimiter, fields, current, inQuotes)
    {
      ghost var before := (fields, current, inQuotes);
      var c := line[i];
      if c == QUOTE {
        inQuotes := !inQuotes;
        current := current + [c];
      } else if c == delimiter && !inQuotes {
        fields := fields + [Unquote(current)];
        current := "";
      } else {
        current := current + [c];
      }
      ScanStep(line, i, delimiter, before.0, before.1, before.2, fields, current, inQuotes);
      i := i + 1;
    }
    ScanDone(line, delimiter, fields, current, inQuotes);
    fields := fields + [Unquote(current)];
  }

  /** The loop's state after reading `line[..i]`: the finished fields, the open one, the quote flag. */
  predicate Scanned(line: string, i: nat, d: char, fields: seq<string>, current: string, inQuotes: bool)
    requires i <= |line|
  {
    var ps := Pieces(line[..i], d);
    && inQuotes == InsideQuotes(line[..i])
    && |fields| + 1 == |ps|
    && (forall k | 0 <= k < |fields| :: fields[k] == Unquote(ps[k]))
    && current == ps[|fields|]
  }

  /** One iteration of the loop keeps `Scanned`. */
  lemma ScanStep(line: string, i: nat, d: char,
                 fields: seq<string>, current: string, inQuotes: bool,
                 fields': seq<string>, current': string, inQuotes': bool)
    requires i < |line|
    requires Scanned(line, i, d, fields, current, inQuotes)
    requires line[i] == QUOTE ==> fields' == fields && current' == current + [line[i]] && inQuotes' == !inQuotes
    requires line[i] != QUOTE && line[i] == d && !inQuotes ==> fields' == fields + [Unquote(current)] && current' == "" && inQuotes' == inQuotes
    requires line[i] != QUOTE && (line[i] != d || inQuotes) ==> fields' == fields && current' == current + [line[i]] && inQuotes' == inQuotes
    ensures Scanned(line, i + 1, d, fields', current', inQuotes')
  {
    PiecesStep(line, i, d);
  }

  /** After the last character, closing the open field gives `SplitFields`. */
  lemma ScanDone(line: string, d: char, fields: seq<string>, current: string, inQuotes: bool)
    requires Scanned(line, |line|, d, fields, current, inQuotes)
    ensures var all := fields + [Unquote(current)];
      && all == SplitFields(line, d)
      && |all| == |Boundaries(line, d)| + 1
      && (forall k | 0 <= k < |all| ::
            var p := Pieces(line, d)[k];
            all[k] == (if |p| > 1 && p[0] == QUOTE && p[|p| - 1] == QUOTE then p[1..|p| - 1] else p))
      && (QUOTE !in line ==> all == Split(line, d))
  {
    assert line[..|line|] == line;
    var all := fields + [Unquote(current)];
    PiecesCount(line, d);
    if QUOTE !in line {
      QuoteFreePieces(line, d);
    }
  }

  /** Reading one more character: the quote flag and the raw fields as the loop updates them. */
  lemma PiecesStep(line: string, i: nat, d: char)
    requires i < |line|
    ensures InsideQuotes(line[..i + 1]) == (InsideQuotes(line[..i]) != (line[i] == QUOTE))
    ensures var init := Pieces(line[..i], d); var m := |init| - 1;
      Pieces(line[..i + 1], d) ==
        if line[i] != QUOTE && line[i] == d && !InsideQuotes(line[..i]) then init + [""]
        else init[..m] + [init[m] + [line[i]]]
  {
    var s := line[..i + 1];
    assert s[..i] == line[..i];
    assert s[i] == line[i];
  }

  /** There is one raw field more than there are field-ending positions. */
  lemma {:induction false} PiecesCount(s: string, d: char)
    ensures |Pieces(s, d)| == |Boundaries(s, d)| + 1
    decreases |s|
  {
    if |s| > 0 {
      var n := |s| - 1;
      PiecesCount(s[..n], d);
      BoundariesSnoc(s, d);
      assert n !in Boundaries(s[..n], d);
    }
  }

  /** Reading one more character adds its position to the field ends exactly when it is one. */
  lemma BoundariesSnoc(s: string, d: char)
    requires |s| > 0
    ensures var n := |s| - 1;
      Boundaries(s, d) == Boundaries(s[..n], d) + (if IsBoundary(s, n, d) then {n} else {})
  {
    var n := |s| - 1;
    forall i: nat | i < n ensures IsBoundary(s, i, d) == IsBoundary(s[..n], i, d) {
      assert s[..n][..i] == s[..i];
    }
  }

  /** Joining the raw fields with the delimiter gives back the line. */
  lemma {:induction false} PiecesJoin(s: string, d: char)
    ensures Join(Pieces(s, d), d) == s
    decreases |s|
  {
    if |s| > 0 {
      var n := |s| - 1;
      PiecesJoin(s[..n], d);
      JoinStep(Pieces(s[..n], d), s, d, IsBoundary(s, n, d));
    }
  }

  /** The step of `Pieces` keeps the join equal to the text read so far. */
  lemma JoinStep(init: seq<string>, s: string, d: char, boundary: bool)
    requires |s| > 0 && |init| > 0
    requires Join(init, d) == s[..|s| - 1]
    requires boundary ==> s[|s| - 1] == d
    ensures var m := |init| - 1;
      Join(if boundary then init + [""] else init[..m] + [init[m] + [s[|s| - 1]]], d) == s
  {
    var n := |s| - 1;
    if boundary {
      JoinNewPart(init, d);
    } else {
      JoinExtendLast(init, d, s[n]);
    }
    assert s[..n] + [s[n]] == s;
  }

  /** Without quotes the raw fields are the pieces of a plain split, and unquoting changes nothing. */
  lemma {:induction false} QuoteFreePieces(s: string, d: char)
    requires QUOTE !in s
    ensures Pieces(s, d) == Split(s, d)
    ensures Unquoted(Pieces(s, d)) == Split(s, d)
    decreases |s|
  {
    if |s| > 0 {
      var n := |s| - 1;
      assert QUOTE !in s[..n];
      QuoteFreePieces(s[..n], d);
      assert QuoteCount(s[..n]) == 0 by { QuoteFreeCount(s[..n]); }
    }
    var p := Pieces(s, d);
    forall k | 0 <= k < |p| ensures Unquote(p[k]) == p[k] {
      PieceWithoutQuotes(s, d, k);
    }
  }

  lemma {:induction false} QuoteFreeCount(s: string)
    requires QUOTE !in s
    ensures QuoteCount(s) == 0
    decreases |s|
  {
    if |s| > 0 {
      assert QUOTE !in s[..|s| - 1];
      QuoteFreeCount(s[..|s| - 1]);
    }
  }

  /** Every raw field of a quote-free line is quote-free. */
  lemma {:induction false} PieceWithoutQuotes(s: string, d: char, k: nat)
    requires QUOTE !in s
    requires k < |Pieces(s, d)|
    ensures QUOTE !in Pieces(s, d)[k]
    decreases |s|
  {
    if |s| > 0 {
      var n := |s| - 1;
      var init := Pieces(s[..n], d);
      assert QUOTE !in s[..n];
      if k < |init| {
        PieceWithoutQuotes(s[..n], d, k);
      }
      if k == |init| - 1 && !IsBoundary(s, n, d) {
        assert Pieces(s, d)[k] == init[k] + [s[n]];
      }
    }
  }
}
