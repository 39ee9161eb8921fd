/**
 Python string operations the parser and the database layer rely on:
 `str.isspace`, `str.strip()`, `str.replace(c, '')`, `str.split(sep)`,
 `sep.join(...)`, and the ASCII part of `str.lower()`.
 */
module Text {

  /** U+FEFF, the byte-order mark as it appears once decoded. */
  const BYTE_ORDER_MARK: char := '\U{FEFF}'

  /** Python's `str.isspace` for one character (Unicode whitespace; U+FEFF is not whitespace). */
  predicate IsSpace(c: char) {
    || ('\t' <= c <= '\r')
    || ('\U{1C}' <= c <= ' ')
    || c == '\U{85}' || c == '\U{A0}' || c == '\U{1680}'
    || ('\U{2000}' <= c <= '\U{200A}')
    || c == '\U{2028}' || c == '\U{2029}' || c == '\U{202F}' || c == '\U{205F}' || c == '\U{3000}'
  }

  predicate AllSpace(s: string) {
    forall i | 0 <= i < |s| :: IsSpace(s[i])
  }

  /** Number of whitespace characters at the start of `s`. */
  function LeadingSpace(s: string): (n: nat)
    ensures n <= |s|
    ensures forall i | 0 <= i < n :: IsSpace(s[i])
    ensures n < |s| ==> !IsSpace(s[n])
  {
    if |s| == 0 || !IsSpace(s[0]) then 0 else 1 + LeadingSpace(s[1..])
  }

  /** Number of whitespace characters at the end of `s`. */
  function TrailingSpace(s: string): (n: nat)
    ensures n <= |s|
    ensures forall i | |s| - n <= i < |s| :: IsSpace(s[i])
    ensures n < |s| ==> !IsSpace(s[|s| - n - 1])
  {
    if |s| == 0 || !IsSpace(s[|s| - 1]) then 0 else 1 + TrailingSpace(s[..|s| - 1])
  }

  /** `s.strip()`: `s` without its leading and trailing whitespace. */
  function Strip(s: string): (r: string)
    ensures r == [] || (!IsSpace(r[0]) && !IsSpace(r[|r| - 1]))
    ensures r == [] <==> AllSpace(s)
    ensures exists i | 0 <= i <= |s| - |r| :: r == s[i..i + |r|] && AllSpace(s[..i]) && AllSpace(s[i + |r|..])
  {
    var a := LeadingSpace(s);
    var b := TrailingSpace(s[a..]);
    StripParts(s, a, b);
    s[a..|s| - b]
  }

  /** The middle part left once the leading and then the trailing whitespace is cut off. */
  lemma StripParts(s: string, a: nat, b: nat)
    requires a == LeadingSpace(s) && b == TrailingSpace(s[a..])
    ensures a <= |s| - b
    ensures var r := s[a..|s| - b];
      && (r == [] || (!IsSpace(r[0]) && !IsSpace(r[|r| - 1])))
      && (r == [] <==> AllSpace(s))
      && AllSpace(s[..a]) && AllSpace(s[|s| - b..])
      && exists i | 0 <= i <= |s| - |r| :: r == s[i..i + |r|] && AllSpace(s[..i]) && AllSpace(s[i + |r|..])
  {
    var t := s[a..];
    var r := s[a..|s| - b];
    assert r == t[..|t| - b];
    assert AllSpace(s[..a]) by {
      forall k | 0 <= k < a ensures IsSpace(s[..a][k]) {
        assert s[..a][k] == s[k];
      }
    }
    assert AllSpace(s[|s| - b..]) by {
      forall k | |s| - b <= k < |s| ensures IsSpace(s[k]) {
        assert s[k] == t[k - a];
      }
    }
    if r == [] {
      assert a == |s|;
      assert s[..a] == s;
    }
    if AllSpace(s) {
      assert a == |s|;
    }
    assert a + |r| == |s| - b;
    StripEnds(s, a, b);
  }

  /** The part left starts and ends with a character that is not whitespace. */
  lemma StripEnds(s: string, a: nat, b: nat)
    requires a == LeadingSpace(s) && b == TrailingSpace(s[a..])
    ensures a <= |s| - b
    ensures var r := s[a..|s| - b]; r == [] || (!IsSpace(r[0]) && !IsSpace(r[|r| - 1]))
  {
    var t := s[a..];
    if |t| - b > 0 {
      assert s[a..|s| - b][0] == s[a];
      assert s[a..|s| - b][|t| - b - 1] == t[|t| - b - 1];
    }
  }

  /** Number of occurrences of `c` in `s`. */
  function Count(s: string, c: char): (n: nat)
    ensures n <= |s|
  {
    if |s| == 0 then 0 else Count(s[..|s| - 1], c) + (if s[|s| - 1] == c then 1 else 0)
  }

  /** `s.replace(c, '')`: every occurrence of `c` removed, the rest kept in order. */
  function Remove(s: string, c: char): (r: string)
    ensures c !in r
    ensures |r| + Count(s, c) == |s|
    ensures forall x | x != c :: x in r <==> x in s
  {
    if |s| == 0 then ""
    else
      var n := |s| - 1;
      var init := Remove(s[..n], c);
      assert forall x :: x in s <==> x in s[..n] || x == s[n] by {
        assert s == s[..n] + [s[n]];
      }
      if s[n] == c then init else init + [s[n]]
  }

  /** `Remove` keeps the other characters in their order: the `i`-th character of `s`, when it is
      not `c`, lands after exactly the characters before it that are not `c`. */
  lemma RemoveKeepsOrder(s: string, c: char)
    ensures forall i | 0 <= i < |s| && s[i] != c ::
      i - Count(s[..i], c) < |Remove(s, c)| && Remove(s, c)[i - Count(s[..i], c)] == s[i]
  {
    forall i | 0 <= i < |s| && s[i] != c
      ensures i - Count(s[..i], c) < |Remove(s, c)| && Remove(s, c)[i - Count(s[..i], c)] == s[i]
    {
      RemoveKeptAt(s, c, i);
    }
  }

  /** The `i`-th character, when it is not `c`, follows what `Remove` keeps of the characters before it. */
  lemma RemoveKeptAt(s: string, c: char, i: nat)
    requires i < |s| && s[i] != c
    ensures i - Count(s[..i], c) < |Remove(s, c)| && Remove(s, c)[i - Count(s[..i], c)] == s[i]
  {
    var p := s[..i + 1];
    RemovePrefix(s, c, i + 1);
    assert p[..i] == s[..i] && p[i] == s[i];
    assert Remove(p, c) == Remove(s[..i], c) + [s[i]];
  }

  /** What `Remove` keeps of a prefix is a prefix of what it keeps of the whole. */
  lemma {:induction false} RemovePrefix(s: string, c: char, i: nat)
    requires i <= |s|
    ensures Remove(s[..i], c) <= Remove(s, c)
    decreases |s|
  {
    if i < |s| {
      var n := |s| - 1;
      RemovePrefix(s[..n], c, i);
      assert s[..n][..i] == s[..i];
      assert Remove(s, c) == if s[n] == c then Remove(s[..n], c) else Remove(s[..n], c) + [s[n]];
    } else {
      assert s[..i] == s;
    }
  }

  /** A leading `c` is dropped like any other. */
  lemma {:induction false} RemoveLeading(s: string, c: char)
    ensures Remove([c] + s, c) == Remove(s, c)
    decreases |s|
  {
    var cs := [c] + s;
    if |s| > 0 {
      var n := |s| - 1;
      assert cs[..n + 1] == [c] + s[..n];
      assert cs[n + 1] == s[n];
      RemoveLeading(s[..n], c);
      assert Remove(cs, c) == if s[n] == c then Remove(cs[..n + 1], c) else Remove(cs[..n + 1], c) + [s[n]];
      assert Remove(s, c) == if s[n] == c then Remove(s[..n], c) else Remove(s[..n], c) + [s[n]];
    } else {
      assert cs[..0] == [];
      assert Remove(cs, c) == Remove(cs[..0], c);
    }
  }

  /** `strip()` only removes characters. */
  lemma StripWithin(s: string)
    ensures forall x | x in Strip(s) :: x in s
  {
    var a := LeadingSpace(s);
    var b := TrailingSpace(s[a..]);
    StripParts(s, a, b);
    SliceWithin(s, a, |s| - b);
  }

  lemma SliceWithin(s: string, a: nat, e: nat)
    requires a <= e <= |s|
    ensures forall x | x in s[a..e] :: x in s
  {
    forall x | x in s[a..e] ensures x in s {
      var k :| 0 <= k < e - a && s[a..e][k] == x;
      assert s[a + k] == x;
    }
  }

  /** A string already without outer whitespace is its own `strip()`. */
  lemma StripUnchanged(s: string)
    requires |s| > 0 && !IsSpace(s[0]) && !IsSpace(s[|s| - 1])
    ensures Strip(s) == s
  {
    assert LeadingSpace(s) == 0;
    assert TrailingSpace(s) == 0;
    assert s[0..][..|s|] == s;
  }

  /** ASCII case folding of one character, as `str.lower()` does for ASCII letters. */
  function LowerChar(c: char): char {
    if 'A' <= c <= 'Z' then (c as int + 32) as char else c
  }

  /** `s.lower()` restricted to ASCII letters. */
  function Lower(s: string): (r: string)
    ensures |r| == |s|
    ensures forall i | 0 <= i < |s| :: r[i] == LowerChar(s[i])
  {
    seq(|s|, i requires 0 <= i < |s| => LowerChar(s[i]))
  }

  /** `s.replace(a, b)` for single characters `a` and `b`. */
  function ReplaceChar(s: string, a: char, b: char): (r: string)
    ensures |r| == |s|
    ensures forall i | 0 <= i < |s| :: r[i] == (if s[i] == a then b else s[i])
  {
    seq(|s|, i requires 0 <= i < |s| => if s[i] == a then b else s[i])
  }

  /** `sep.join(parts)` for a one-character separator. */
  function Join(parts: seq<string>, sep: char): string {
    if |parts| == 0 then ""
    else if |parts| == 1 then parts[0]
    else Join(parts[..|parts| - 1], sep) + [sep] + parts[|parts| - 1]
  }

  /** `s.split(sep)` for a one-character separator, scanning left to right. */
  function Split(s: string, sep: char): (r: seq<string>)
    ensures |r| >= 1
    decreases |s|
  {
    if |s| == 0 then [""]
    else
      var init := Split(s[..|s| - 1], sep);
      var c := s[|s| - 1];
      if c == sep then init + [""]
      else init[..|init| - 1] + [init[|init| - 1] + [c]]
  }

  /** Joining the pieces of `s.split(sep)` with `sep` gives back `s`. */
  lemma {:induction false} SplitJoin(s: string, sep: char)
    ensures Join(Split(s, sep), sep) == s
    decreases |s|
  {
    if |s| > 0 {
      var n := |s| - 1;
      SplitJoin(s[..n], sep);
      var init := Split(s[..n], sep);
      if s[n] == sep {
        JoinNewPart(init, sep);
      } else {
        JoinExtendLast(init, sep, s[n]);
      }
      assert s[..n] + [s[n]] == s;
    }
  }

  /** Starting a new, empty last part adds one separator to the joined text. */
  lemma JoinNewPart(parts: seq<string>, sep: char)
    requires |parts| > 0
    ensures Join(parts + [""], sep) == Join(parts, sep) + [sep]
  {
    var r := parts + [""];
    assert r[..|r| - 1] == parts;
    assert r[|r| - 1] == "";
  }

  /** Appending a character to the last part appends it to the joined text. */
  lemma JoinExtendLast(parts: seq<string>, sep: char, c: char)
    requires |parts| > 0
    ensures var m := |parts| - 1;
      Join(parts[..m] + [parts[m] + [c]], sep) == Join(parts, sep) + [c]
  {
    var m := |parts| - 1;
    var r := parts[..m] + [parts[m] + [c]];
    assert r[..m] == parts[..m];
    assert r[m] == parts[m] + [c];
    if m > 0 {
      assert Join(r, sep) == Join(parts[..m], sep) + [sep] + (parts[m] + [c]);
      assert Join(parts, sep) == Join(parts[..m], sep) + [sep] + parts[m];
    }
  }

  /** No piece of `s.split(sep)` contains `sep`, and there is one piece more than separators. */
  lemma {:induction false} SplitPieces(s: string, sep: char)
    ensures forall k | 0 <= k < |Split(s, sep)| :: sep !in Split(s, sep)[k]
    ensures |Split(s, sep)| == Count(s, sep) + 1
    decreases |s|
  {
    if |s| > 0 {
      SplitPieces(s[..|s| - 1], sep);
    }
  }
}
