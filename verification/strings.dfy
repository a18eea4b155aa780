/**
 * String helpers with Python's meaning: `str.split(sep)` (no collapsing of
 * adjacent separators), `str.join`, `str.startswith`, `str.strip(chars)`,
 * `str(int)`, and the ASCII character classes the regular expressions use.
 */
module Strings {
  import opened Wrappers

  // ---------------------------------------------------------------------
  // Character classes
  // ---------------------------------------------------------------------

  predicate IsDigit(c: char) { '0' <= c <= '9' }

  predicate IsLetter(c: char) { 'a' <= c <= 'z' || 'A' <= c <= 'Z' }

  predicate IsAlnum(c: char) { IsLetter(c) || IsDigit(c) }

  /** Regex `\w`, restricted to ASCII. */
  predicate IsWordChar(c: char) { IsAlnum(c) || c == '_' }

  predicate AllDigits(s: string) { forall i :: 0 <= i < |s| ==> IsDigit(s[i]) }

  // ---------------------------------------------------------------------
  // Prefixes and occurrences
  // ---------------------------------------------------------------------

  /** Python `s.startswith(prefix)`. */
  predicate StartsWith(s: string, prefix: string) {
    |prefix| <= |s| && s[..|prefix|] == prefix
  }

  /** `sep` occurs in `s` starting at index `i`. */
  predicate OccursAt(s: string, sep: string, i: int) {
    0 <= i && i + |sep| <= |s| && s[i..i + |sep|] == sep
  }

  /** Python `sep in s`. */
  predicate Contains(s: string, sep: string) {
    exists i :: 0 <= i <= |s| && OccursAt(s, sep, i)
  }

  lemma OccursAtShift(s: string, sep: string, j: int)
    requires |s| > 0 && j >= 1
    ensures OccursAt(s, sep, j) <==> OccursAt(s[1..], sep, j - 1)
  {
    if j + |sep| <= |s| {
      assert s[1..][j - 1..j - 1 + |sep|] == s[j..j + |sep|];
    }
  }

  /** For a one-character separator, containment is membership. */
  lemma ContainsChar(s: string, c: char)
    ensures Contains(s, [c]) <==> c in s
  {
    if c in s {
      var i :| 0 <= i < |s| && s[i] == c;
      assert OccursAt(s, [c], i);
    }
    if Contains(s, [c]) {
      var i :| 0 <= i <= |s| && OccursAt(s, [c], i);
      assert s[i..i + 1] == [c];
      assert s[i] == c;
    }
  }

  /** Index of the first occurrence of `sep` in `s` (Python `s.find(sep)`, with `None` for -1). */
  function FirstOccurrence(s: string, sep: string): (r: Option<nat>)
    requires |sep| > 0
    ensures r.Some? ==> OccursAt(s, sep, r.value)
    decreases |s|
  {
    if |s| < |sep| then None
    else if s[..|sep|] == sep then Some(0)
    else
      match FirstOccurrence(s[1..], sep)
      case None => None
      case Some(k) =>
        assert s[1..][k..k + |sep|] == s[k + 1..k + 1 + |sep|];
        Some(k + 1)
  }

  /** No earlier occurrence precedes the one found, and none exists when nothing is found. */
  lemma {:induction false} FirstOccurrenceIsFirst(s: string, sep: string)
    requires |sep| > 0
    ensures var r := FirstOccurrence(s, sep);
      r.Some? ==> forall j :: 0 <= j < r.value ==> !OccursAt(s, sep, j)
    ensures FirstOccurrence(s, sep).None? <==> !Contains(s, sep)
    decreases |s|
  {
    if |s| >= |sep| && s[..|sep|] != sep {
      FirstOccurrenceIsFirst(s[1..], sep);
      assert !OccursAt(s, sep, 0);
      forall j | j >= 1
        ensures OccursAt(s, sep, j) <==> OccursAt(s[1..], sep, j - 1)
      {
        OccursAtShift(s, sep, j);
      }
    }
    if |s| < |sep| {
      assert forall j :: !OccursAt(s, sep, j);
    }
  }

  // ---------------------------------------------------------------------
  // Split and join
  // ---------------------------------------------------------------------

  /** Python `sep.join(parts)`. */
  function Join(parts: seq<string>, sep: string): (r: string)
    decreases |parts|
  {
    if |parts| == 0 then ""
    else if |parts| == 1 then parts[0]
    else parts[0] + sep + Join(parts[1..], sep)
  }

  lemma NoOccurrenceInPrefix(s: string, sep: string, i: nat)
    requires |sep| > 0 && i <= |s|
    requires forall j :: 0 <= j < i ==> !OccursAt(s, sep, j)
    ensures !Contains(s[..i], sep)
  {
    if Contains(s[..i], sep) {
      var j :| 0 <= j <= i && OccursAt(s[..i], sep, j);
      assert s[..i][j..j + |sep|] == s[j..j + |sep|];
      assert OccursAt(s, sep, j);
    }
  }

  /**
   * Python `s.split(sep)`: the pieces between successive non-overlapping
   * occurrences of `sep`, scanning left to right; empty pieces are kept.
   */
  function Split(s: string, sep: string): (parts: seq<string>)
    requires |sep| > 0
    ensures |parts| > 0
    ensures Join(parts, sep) == s
    decreases |s|
  {
    match FirstOccurrence(s, sep)
    case None => [s]
    case Some(i) =>
      var rest := Split(s[i + |sep|..], sep);
      assert s == s[..i] + sep + s[i + |sep|..] by {
        assert s[i..i + |sep|] == sep;
      }
      [s[..i]] + rest
  }

  /** No piece of a split contains the separator, and there is one piece iff it does not occur. */
  lemma {:induction false} SplitPiecesFreeOf(s: string, sep: string)
    requires |sep| > 0
    ensures forall i :: 0 <= i < |Split(s, sep)| ==> !Contains(Split(s, sep)[i], sep)
    ensures |Split(s, sep)| == 1 <==> !Contains(s, sep)
    decreases |s|
  {
    FirstOccurrenceIsFirst(s, sep);
    match FirstOccurrence(s, sep)
    case None =>
    case Some(i) =>
      NoOccurrenceInPrefix(s, sep, i);
      SplitPiecesFreeOf(s[i + |sep|..], sep);
  }

  /** The first piece of a split is everything before the first separator. */
  lemma SplitHead(s: string, sep: string)
    requires |sep| > 0
    ensures FirstOccurrence(s, sep).None? ==> Split(s, sep)[0] == s
    ensures FirstOccurrence(s, sep).Some? ==>
      Split(s, sep) == [s[..FirstOccurrence(s, sep).value]]
                       + Split(s[FirstOccurrence(s, sep).value + |sep|..], sep)
  {
  }

  /** Splitting `a + c + b` at a character `c` that `a` does not contain. */
  lemma SplitAtFirstChar(a: string, c: char, b: string)
    requires c !in a
    ensures Split(a + [c] + b, [c]) == [a] + Split(b, [c])
  {
    var s := a + [c] + b;
    assert OccursAt(s, [c], |a|) by { assert s[|a|..|a| + 1] == [c]; }
    forall j | 0 <= j < |a|
      ensures !OccursAt(s, [c], j)
    {
      assert s[j..j + 1] == [a[j]];
    }
    FirstOccurrenceIsFirst(s, [c]);
    var k := FirstOccurrence(s, [c]).value;
    assert k == |a|;
    assert s[..|a|] == a;
    assert s[|a| + 1..] == b;
  }

  /**
   * For a one-character separator, split inverts join whenever no piece
   * contains the separator.
   */
  lemma {:induction false} SplitJoin(parts: seq<string>, c: char)
    requires |parts| > 0
    requires forall i :: 0 <= i < |parts| ==> c !in parts[i]
    ensures Split(Join(parts, [c]), [c]) == parts
    decreases |parts|
  {
    if |parts| == 1 {
      ContainsChar(parts[0], c);
      SplitPiecesFreeOf(parts[0], [c]);
    } else {
      SplitJoin(parts[1..], c);
      assert Join(parts, [c]) == parts[0] + [c] + Join(parts[1..], [c]);
      SplitAtFirstChar(parts[0], c, Join(parts[1..], [c]));
    }
  }

  /** The pieces of a join: the first piece, then the separator and the rest. */
  lemma JoinFront(parts: seq<string>, sep: string)
    requires |parts| >= 2
    ensures Join(parts, sep) == parts[0] + sep + Join(parts[1..], sep)
  {
  }

  /** A joined sequence starts with its first piece, followed by the end or by the separator. */
  lemma JoinStartsWithFirst(parts: seq<string>, c: char)
    requires |parts| >= 1
    ensures StartsWith(Join(parts, [c]), parts[0])
    ensures |Join(parts, [c])| == |parts[0]| || Join(parts, [c])[|parts[0]|] == c
  {
    if |parts| >= 2 {
      JoinFront(parts, [c]);
      var j := Join(parts, [c]);
      assert j[..|parts[0]|] == parts[0];
    }
  }

  lemma TailOfAppend<T>(a: seq<T>, b: seq<T>)
    requires |a| > 0
    ensures (a + b)[1..] == a[1..] + b
  {
  }

  lemma TakeThenTail<T>(s: seq<T>, n: nat)
    requires 0 < n <= |s|
    ensures s[..n][0] == s[0]
    ensures s[..n][1..] == s[1..][..n - 1]
  {
  }

  /** Every piece of a one-character split is free of that character. */
  lemma SplitPiecesFree(s: string, c: char)
    ensures forall i :: 0 <= i < |Split(s, [c])| ==> c !in Split(s, [c])[i]
  {
    var parts := Split(s, [c]);
    SplitPiecesFreeOf(s, [c]);
    forall i | 0 <= i < |parts|
      ensures c !in parts[i]
    {
      ContainsChar(parts[i], c);
    }
  }

  /** The first piece of a one-character split is the text before the first `c`, or all of `s`. */
  lemma FirstPiece(s: string, c: char)
    ensures var h := Split(s, [c])[0];
      && |h| <= |s| && s[..|h|] == h && c !in h && (|h| == |s| || s[|h|] == c)
  {
    SplitHead(s, [c]);
    SplitPiecesFree(s, c);
    match FirstOccurrence(s, [c])
    case None =>
    case Some(i) =>
      assert s[i..i + 1] == [c];
  }

  // ---------------------------------------------------------------------
  // Strip
  // ---------------------------------------------------------------------

  /** Python `s.lstrip(c)` for a single character `c`. */
  function TrimLeft(s: string, c: char): (r: string)
    ensures |r| <= |s| && r == s[|s| - |r|..]
    ensures forall k :: 0 <= k < |s| - |r| ==> s[k] == c
    ensures |r| == 0 || r[0] != c
    decreases |s|
  {
    if |s| > 0 && s[0] == c then TrimLeft(s[1..], c) else s
  }

  /** Python `s.rstrip(c)` for a single character `c`. */
  function TrimRight(s: string, c: char): (r: string)
    ensures |r| <= |s| && r == s[..|r|]
    ensures forall k :: |r| <= k < |s| ==> s[k] == c
    ensures |r| == 0 || r[|r| - 1] != c
    decreases |s|
  {
    if |s| > 0 && s[|s| - 1] == c then TrimRight(s[..|s| - 1], c) else s
  }

  /** `lstrip` keeps a string that does not start with `c`. */
  lemma TrimLeftKeeps(s: string, c: char)
    requires |s| == 0 || s[0] != c
    ensures TrimLeft(s, c) == s
  {
  }

  /** `rstrip` keeps a string that does not end with `c`. */
  lemma TrimRightKeeps(s: string, c: char)
    requires |s| == 0 || s[|s| - 1] != c
    ensures TrimRight(s, c) == s
  {
  }

  /** Python `s.strip(c)` for a single character `c`. */
  function Strip(s: string, c: char): (r: string)
    ensures |r| == 0 || (r[0] != c && r[|r| - 1] != c)
  {
    TrimRight(TrimLeft(s, c), c)
  }

  /** Where the text kept by `Strip(s, c)` begins in `s`. */
  function StripStart(s: string, c: char): (k: nat)
    ensures k <= |s|
  {
    |s| - |TrimLeft(s, c)|
  }

  /**
   * Strip removes exactly a run of `c` at each end: the result is the slice
   * of `s` starting at `StripStart(s, c)`, and everything outside it is `c`.
   */
  lemma StripSlice(s: string, c: char)
    ensures StripStart(s, c) + |Strip(s, c)| <= |s|
    ensures Strip(s, c) == s[StripStart(s, c)..StripStart(s, c) + |Strip(s, c)|]
    ensures forall k :: 0 <= k < StripStart(s, c) ==> s[k] == c
    ensures forall k :: StripStart(s, c) + |Strip(s, c)| <= k < |s| ==> s[k] == c
  {
    StripKeepsSlice(s, c);
    StripDropsOnly(s, c);
  }

  lemma StripKeepsSlice(s: string, c: char)
    ensures StripStart(s, c) + |Strip(s, c)| <= |s|
    ensures Strip(s, c) == s[StripStart(s, c)..StripStart(s, c) + |Strip(s, c)|]
  {
    var l := TrimLeft(s, c);
    assert l == s[|s| - |l|..];
  }

  /** Stripping introduces no character. */
  lemma StripKeepsOut(s: string, c: char, x: char)
    requires x !in s
    ensures x !in Strip(s, c)
  {
    StripKeepsSlice(s, c);
    var r := Strip(s, c);
    var lo := StripStart(s, c);
    forall k | 0 <= k < |r|
      ensures r[k] != x
    {
      assert r[k] == s[lo + k];
    }
  }

  lemma StripDropsOnly(s: string, c: char)
    ensures forall k :: 0 <= k < StripStart(s, c) ==> s[k] == c
    ensures forall k :: StripStart(s, c) + |Strip(s, c)| <= k < |s| ==> s[k] == c
  {
    var l := TrimLeft(s, c);
    var r := TrimRight(l, c);
    var lo := |s| - |l|;
    forall k | lo + |r| <= k < |s|
      ensures s[k] == c
    {
      assert s[k] == l[k - lo];
    }
  }

  // ---------------------------------------------------------------------
  // Decimal numerals
  // ---------------------------------------------------------------------

  function DigitValue(c: char): (d: nat)
    requires IsDigit(c)
    ensures d < 10
  {
    c as int - '0' as int
  }

  function DigitChar(d: nat): (c: char)
    requires d < 10
    ensures IsDigit(c) && DigitValue(c) == d
  {
    ('0' as int + d) as char
  }

  /** The value of a string of decimal digits (leading zeros allowed). */
  function DigitsValue(s: string): (v: nat)
    requires AllDigits(s)
    decreases |s|
  {
    if |s| == 0 then 0 else DigitsValue(s[..|s| - 1]) * 10 + DigitValue(s[|s| - 1])
  }

  /** Python `str(n)` for a non-negative integer. */
  function Decimal(n: nat): (r: string)
    ensures |r| > 0 && AllDigits(r)
    ensures DigitsValue(r) == n
    ensures r[0] == '0' ==> r == "0"
    decreases n
  {
    if n < 10 then [DigitChar(n)]
    else
      var r := Decimal(n / 10) + [DigitChar(n % 10)];
      assert r[..|r| - 1] == Decimal(n / 10);
      r
  }
}
