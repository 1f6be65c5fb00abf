/**
  White space, trimming and word counting on JavaScript strings, as the
  journal handlers use them: `String.prototype.trim` when validating and
  storing content, and `content.split(/\s+/).length` when counting words.
 */
module Text {

  /** The characters ECMAScript treats as white space both in `trim` and in
      the regular-expression class `\s`: the WhiteSpace code points (tab,
      vertical tab, form feed, space, no-break space, byte order mark and
      the Unicode space separators) and the LineTerminator code points. */
  predicate IsSpace(c: char) {
    || c == '\t' || c == '\n' || c == '\U{000B}' || c == '\U{000C}' || c == '\r'
    || c == ' ' || c == '\U{00A0}' || c == '\U{1680}'
    || ('\U{2000}' <= c <= '\U{200A}')
    || c == '\U{2028}' || c == '\U{2029}' || c == '\U{202F}' || c == '\U{205F}'
    || c == '\U{3000}' || c == '\U{FEFF}'
  }

  /** Every character of `s` is white space (true of the empty string). */
  predicate AllSpace(s: string) {
    forall i :: 0 <= i < |s| ==> IsSpace(s[i])
  }

  /** `s` neither starts nor ends with white space: what `trim` leaves. */
  predicate NoEdgeSpace(s: string) {
    |s| == 0 || (!IsSpace(s[0]) && !IsSpace(s[|s| - 1]))
  }

  /** `trimStart`: drops the leading white space, keeping a suffix of `s`. */
  function TrimStart(s: string): (r: string)
    ensures |r| <= |s| && r == s[|s| - |r|..]
    ensures AllSpace(s[..|s| - |r|])
    ensures |r| > 0 ==> !IsSpace(r[0])
    decreases |s|
  {
    if |s| > 0 && IsSpace(s[0]) then
      var r := TrimStart(s[1..]);
      assert s[1..][..|s| - 1 - |r|] == s[1..|s| - |r|];
      r
    else
      s
  }

  /** `trimEnd`: drops the trailing white space, keeping a prefix of `s`. */
  function TrimEnd(s: string): (r: string)
    ensures |r| <= |s| && r == s[..|r|]
    ensures AllSpace(s[|r|..])
    ensures |r| > 0 ==> !IsSpace(r[|r| - 1])
    decreases |s|
  {
    if |s| > 0 && IsSpace(s[|s| - 1]) then
      var r := TrimEnd(s[..|s| - 1]);
      assert s[..|s| - 1][|r|..] == s[|r|..|s| - 1];
      assert s[|r|..] == s[..|s| - 1][|r|..] + [s[|s| - 1]];
      r
    else
      s
  }

  /** `r` is the slice of `s` starting at `i`, and everything of `s` before
      and after that slice is white space. */
  predicate CutAt(s: string, r: string, i: int) {
    && 0 <= i <= |s| - |r|
    && r == s[i..i + |r|]
    && AllSpace(s[..i])
    && AllSpace(s[i + |r|..])
  }

  /** `s.trim()`: the slice of `s` with no white space at either edge such
      that everything cut off on both sides is white space. */
  function Trim(s: string): (r: string)
    ensures NoEdgeSpace(r)
    ensures exists i :: CutAt(s, r, i)
  {
    var t := TrimStart(s);
    var r := TrimEnd(t);
    var i := |s| - |t|;
    assert t == s[i..];
    assert r == s[i..i + |r|];
    assert s[i + |r|..] == t[|r|..];
    assert CutAt(s, r, i);
    r
  }

  /** `s.trim().length === 0` holds exactly when `s` is white space only. */
  lemma TrimEmptyIffAllSpace(s: string)
    ensures Trim(s) == [] <==> AllSpace(s)
  {
    var r := Trim(s);
    var i :| CutAt(s, r, i);
    if r == [] {
      forall k | 0 <= k < |s|
        ensures IsSpace(s[k])
      {
        if k < i {
          assert s[k] == s[..i][k];
        } else {
          assert s[k] == s[i..][k - i];
        }
      }
    } else {
      assert r[0] == s[i];
    }
  }

  /** Trimming a string with no white space at its edges changes nothing. */
  lemma TrimOfTrimmed(s: string)
    requires NoEdgeSpace(s)
    ensures Trim(s) == s
  {
    var r := Trim(s);
    var i :| CutAt(s, r, i);
    AllSpaceEdges(s[..i]);
    AllSpaceEdges(s[i + |r|..]);
  }

  lemma AllSpaceEdges(s: string)
    requires AllSpace(s)
    ensures |s| == 0 || (IsSpace(s[0]) && IsSpace(s[|s| - 1]))
  {
  }

  /** `trim` is idempotent. */
  lemma TrimIdempotent(s: string)
    ensures Trim(Trim(s)) == Trim(s)
  {
    TrimOfTrimmed(Trim(s));
  }

  /** The number of maximal runs in `s` of white space (`space`) or of
      non-white-space characters (`!space`), counted from the left. */
  function Runs(s: string, space: bool): nat
    decreases |s|
  {
    if |s| == 0 then 0
    else
      Runs(s[..|s| - 1], space)
      + (if IsSpace(s[|s| - 1]) == space && (|s| == 1 || IsSpace(s[|s| - 2]) != space)
         then 1 else 0)
  }

  /** The number of whitespace-delimited words (tokens) of `s`. */
  function WordCount(s: string): nat {
    Runs(s, false)
  }

  /** `s.split(/\s+/).length`: splitting at every maximal run of white space
      yields one piece more than there are runs, counting the empty pieces
      before a leading run and after a trailing one (and `[""]` for `""`). */
  function SplitLength(s: string): (r: nat)
    ensures r >= 1
  {
    Runs(s, true) + 1
  }

  function Indicator(b: bool): int {
    if b then 1 else 0
  }

  /** Word runs and space runs alternate, so in a non-empty string their
      numbers differ by what the first and last characters are. */
  lemma {:induction false} RunsAlternate(s: string)
    requires |s| > 0
    ensures Runs(s, false) - Runs(s, true)
            == Indicator(!IsSpace(s[0])) - Indicator(IsSpace(s[|s| - 1]))
    decreases |s|
  {
    if |s| > 1 {
      var t := s[..|s| - 1];
      assert t[0] == s[0];
      assert t[|t| - 1] == s[|s| - 2];
      RunsAlternate(t);
    }
  }

  /** On a trimmed non-empty string, `split(/\s+/).length` is exactly the
      number of words: no empty piece arises at either end. */
  lemma SplitLengthOfTrimmed(s: string)
    requires |s| > 0 && NoEdgeSpace(s)
    ensures SplitLength(s) == WordCount(s)
  {
    RunsAlternate(s);
  }
}
