/**
 * The two pieces of Python string behaviour that the response splitter relies
 * on: `str.strip()` with no argument, and substring search as done by `in`
 * and by `str.rsplit(sep, 1)`.
 */
module Text {
  import opened Wrappers

  /** Python's notion of whitespace for `str.strip()`: the characters whose
      Unicode general category is Zs or whose bidirectional class is WS, B or S. */
  predicate IsWhitespace(c: char) {
    || '\t' <= c <= '\r'                // U+0009 .. U+000D
    || '\U{1C}' <= c <= ' '             // U+001C .. U+001F and the space
    || c == '\U{85}' || c == '\U{A0}' || c == '\U{1680}'
    || '\U{2000}' <= c <= '\U{200A}'
    || c == '\U{2028}' || c == '\U{2029}' || c == '\U{202F}' || c == '\U{205F}' || c == '\U{3000}'
  }

  /** Every character of `s` from index `lo` up to (not including) `hi` is whitespace. */
  predicate WhitespaceBetween(s: string, lo: int, hi: int)
    requires 0 <= lo && hi <= |s|
  {
    forall k :: lo <= k < hi ==> IsWhitespace(s[k])
  }

  predicate AllWhitespace(s: string) {
    WhitespaceBetween(s, 0, |s|)
  }

  /** Neither starts nor ends with whitespace: what `strip()` leaves behind. */
  predicate Trimmed(s: string) {
    s == [] || (!IsWhitespace(s[0]) && !IsWhitespace(s[|s| - 1]))
  }

  /** Moves forward from `i` past whitespace: the first non-whitespace index
      at or after `i`, or `|s|`. */
  function SkipWhitespace(s: string, i: nat): (k: nat)
    requires i <= |s|
    ensures i <= k <= |s| && WhitespaceBetween(s, i, k)
    ensures k == |s| || !IsWhitespace(s[k])
    decreases |s| - i
  {
    if i < |s| && IsWhitespace(s[i]) then SkipWhitespace(s, i + 1) else i
  }

  /** Moves back from `j` past whitespace, but not below `i`: the end of the
      text once trailing whitespace is dropped. */
  function SkipWhitespaceBack(s: string, i: nat, j: nat): (k: nat)
    requires i <= j <= |s|
    ensures i <= k <= j && WhitespaceBetween(s, k, j)
    ensures k == i || !IsWhitespace(s[k - 1])
  {
    if i < j && IsWhitespace(s[j - 1]) then SkipWhitespaceBack(s, i, j - 1) else j
  }

  /** Python's `s.strip()`: the result is a slice of `s` that is trimmed and
      is surrounded in `s` by whitespace only. */
  function Strip(s: string): (r: string)
    ensures Trimmed(r)
    ensures exists i, j :: 0 <= i <= j <= |s| && r == s[i..j] && WhitespaceBetween(s, 0, i) && WhitespaceBetween(s, j, |s|)
  {
    var i := SkipWhitespace(s, 0);
    var j := SkipWhitespaceBack(s, i, |s|);
    s[i..j]
  }

  /** The forward skip is pinned down by its contract. */
  lemma SkipWhitespaceIs(s: string, i: nat, k: nat)
    requires i <= k <= |s| && WhitespaceBetween(s, i, k)
    requires k == |s| || !IsWhitespace(s[k])
    ensures SkipWhitespace(s, i) == k
  {
  }

  /** The backward skip is pinned down by its contract. */
  lemma SkipWhitespaceBackIs(s: string, i: nat, j: nat, k: nat)
    requires i <= k <= j <= |s| && WhitespaceBetween(s, k, j)
    requires k == i || !IsWhitespace(s[k - 1])
    ensures SkipWhitespaceBack(s, i, j) == k
  {
  }

  /** The converse of Strip's contract: whatever trimmed text sits between two
      runs of whitespace is exactly what `strip()` returns. */
  lemma StripPadded(a: string, m: string, b: string)
    requires AllWhitespace(a) && AllWhitespace(b)
    requires Trimmed(m)
    ensures Strip(a + m + b) == m
  {
    var s := a + m + b;
    var i, j := |a|, |a| + |m|;
    assert forall k :: 0 <= k < i ==> s[k] == a[k];
    assert forall k :: j <= k < |s| ==> s[k] == b[k - j];
    if m == [] {
      SkipWhitespaceIs(s, 0, |s|);
      SkipWhitespaceBackIs(s, |s|, |s|, |s|);
    } else {
      assert s[i] == m[0] && s[j - 1] == m[|m| - 1];
      SkipWhitespaceIs(s, 0, i);
      SkipWhitespaceBackIs(s, i, |s|, j);
      assert s[i..j] == m;
    }
  }

  lemma StripIdempotent(s: string)
    ensures Strip(Strip(s)) == Strip(s)
  {
    var m := Strip(s);
    assert [] + m + [] == m;
    StripPadded([], m, []);
  }

  /** `p` occurs in `s` starting at index `i`. */
  predicate OccursAt(s: string, p: string, i: int) {
    0 <= i && i + |p| <= |s| && s[i..i + |p|] == p
  }

  ghost predicate Occurs(s: string, p: string) {
    exists i :: OccursAt(s, p, i)
  }

  /** `i` is the start of the rightmost occurrence of `p` in `s`. */
  ghost predicate IsLastOccurrence(s: string, p: string, i: int) {
    OccursAt(s, p, i) && forall j :: i < j ==> !OccursAt(s, p, j)
  }

  /** The first character of `p` does not occur again in `p`, so no two
      occurrences of `p` in a text can overlap. */
  predicate HeadUnique(p: string) {
    p != [] && forall d :: 0 < d < |p| ==> p[d] != p[0]
  }

  /** Python's `p in s`. */
  function Contains(s: string, p: string): (b: bool)
    ensures b <==> Occurs(s, p)
    decreases |s|
  {
    if |p| > |s| then false
    else if s[..|p|] == p then (assert OccursAt(s, p, 0); true)
    else
      var b := Contains(s[1..], p);
      if b then
        var k :| OccursAt(s[1..], p, k);
        assert OccursAt(s, p, k + 1) by { assert s[k + 1..k + 1 + |p|] == s[1..][k..k + |p|]; }
        b
      else
        assert forall i :: OccursAt(s, p, i) ==> i == 0 || OccursAt(s[1..], p, i - 1) by {
          forall i | OccursAt(s, p, i) && i != 0 ensures OccursAt(s[1..], p, i - 1) {
            assert s[1..][i - 1..i - 1 + |p|] == s[i..i + |p|];
          }
        }
        b
  }

  /** Searches the start positions `i`, `i - 1`, ..., `0` from the right. */
  function RFindAtOrBefore(s: string, p: string, i: nat): (r: Option<nat>)
    requires i + |p| <= |s|
    ensures r.Some? ==> r.value <= i && OccursAt(s, p, r.value)
    ensures r.Some? ==> forall j :: r.value < j <= i ==> !OccursAt(s, p, j)
    ensures r.None? ==> forall j :: j <= i ==> !OccursAt(s, p, j)
  {
    if s[i..i + |p|] == p then Some(i)
    else if i == 0 then None
    else RFindAtOrBefore(s, p, i - 1)
  }

  /** Python's `s.rfind(p)`, with `None` in place of -1. */
  function RFind(s: string, p: string): (r: Option<nat>)
    ensures r.Some? ==> IsLastOccurrence(s, p, r.value)
    ensures r.None? ==> !Occurs(s, p)
  {
    if |p| > |s| then None else RFindAtOrBefore(s, p, |s| - |p|)
  }

  /** Python's `s.rsplit(sep, 1)`: one part when `sep` does not occur, else
      the text before and after its rightmost occurrence. Python raises
      ValueError on an empty separator; that case is excluded. */
  function RSplitOnce(s: string, sep: string): (parts: seq<string>)
    requires sep != []
    ensures 1 <= |parts| <= 2
    ensures |parts| == 1 <==> !Occurs(s, sep)
    ensures |parts| == 1 ==> parts[0] == s
    ensures |parts| == 2 ==> parts[0] + sep + parts[1] == s && !Occurs(parts[1], sep)
    ensures |parts| == 2 ==> IsLastOccurrence(s, sep, |parts[0]|)
  {
    match RFind(s, sep)
    case None => [s]
    case Some(i) =>
      LastOccurrenceSplits(s, sep, i);
      [s[..i], s[i + |sep|..]]
  }

  /** Occurrences in a slice of `s` are occurrences in `s`, shifted. */
  lemma OccursInSlice(s: string, p: string, i: int, j: int, k: int)
    requires 0 <= i <= j <= |s|
    ensures OccursAt(s[i..j], p, k) ==> OccursAt(s, p, i + k)
    ensures j == |s| && 0 <= k && OccursAt(s, p, i + k) ==> OccursAt(s[i..j], p, k)
  {
    if 0 <= k && k + |p| <= j - i {
      var inSlice, inText := s[i..j][k..k + |p|], s[i + k..i + k + |p|];
      forall t | 0 <= t < |p| ensures inSlice[t] == inText[t] { }
      assert inSlice == inText;
    }
  }

  /** Cutting at the rightmost occurrence gives back the text, and the part
      after the cut is free of the pattern. */
  lemma LastOccurrenceSplits(s: string, p: string, i: int)
    requires p != []
    requires IsLastOccurrence(s, p, i)
    ensures s[..i] + p + s[i + |p|..] == s
    ensures !Occurs(s[i + |p|..], p)
  {
    assert s == s[..i] + s[i..i + |p|] + s[i + |p|..];
    var rest := s[i + |p|..];
    forall k ensures !OccursAt(rest, p, k) {
      OccursInSlice(s, p, i + |p|, |s|, k);
    }
  }

  /** The converse of LastOccurrenceSplits for a pattern whose occurrences
      cannot overlap: an occurrence followed by pattern-free text is the
      rightmost one. */
  lemma SplitIsLastOccurrence(before: string, p: string, after: string)
    requires HeadUnique(p)
    requires !Occurs(after, p)
    ensures IsLastOccurrence(before + p + after, p, |before|)
  {
    var s := before + p + after;
    var b := |before|;
    assert s[b..b + |p|] == p;
    assert s[b + |p|..|s|] == after;
    forall j | b < j
      ensures !OccursAt(s, p, j)
    {
      if j < b + |p| {
        OverlapImpossible(s, p, b, j);
      } else {
        OccursInSlice(s, p, b + |p|, |s|, j - b - |p|);
      }
    }
  }

  /** Two occurrences of a HeadUnique pattern never overlap. */
  lemma OverlapImpossible(s: string, p: string, b: int, j: int)
    requires HeadUnique(p)
    requires OccursAt(s, p, b)
    requires b < j < b + |p|
    ensures !OccursAt(s, p, j)
  {
    assert s[b..b + |p|][j - b] == s[j];
    assert p[j - b] != p[0];
    if j + |p| <= |s| {
      assert s[j..j + |p|][0] == s[j];
    }
  }

  lemma LastOccurrenceUnique(s: string, p: string, i: int, j: int)
    requires IsLastOccurrence(s, p, i) && IsLastOccurrence(s, p, j)
    ensures i == j
  {
  }

  /** Stripping cannot create an occurrence. */
  lemma StripKeepsAbsence(s: string, p: string)
    requires !Occurs(s, p)
    ensures !Occurs(Strip(s), p)
  {
    var i, j :| 0 <= i <= j <= |s| && Strip(s) == s[i..j] && WhitespaceBetween(s, 0, i) && WhitespaceBetween(s, j, |s|);
    SliceKeepsAbsence(s, p, i, j);
  }

  /** A slice of pattern-free text is pattern-free. */
  lemma SliceKeepsAbsence(s: string, p: string, i: int, j: int)
    requires 0 <= i <= j <= |s|
    requires !Occurs(s, p)
    ensures !Occurs(s[i..j], p)
  {
    forall k ensures !OccursAt(s[i..j], p, k) {
      OccursInSlice(s, p, i, j, k);
    }
  }
}
