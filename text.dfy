/**
 * The JavaScript string operations the core relies on: `trim`, and
 * `split` with a non-empty separator, specified with the help of a search
 * for a non-empty pattern (`IndexOf`) and its inverse `Join`. The set of characters `trim`
 * removes is a parameter `isSpace`, so every statement here holds for
 * whatever whitespace table the engine uses.
 */
module Text {
  import opened Wrappers

  /** Every character of `s` is whitespace (vacuously true of ""). */
  ghost predicate AllSpace(s: string, isSpace: char -> bool) {
    forall k :: 0 <= k < |s| ==> isSpace(s[k])
  }

  /** Drops leading whitespace: the result is the longest suffix of `s` that does not start with whitespace. */
  function TrimStart(s: string, isSpace: char -> bool): (r: string)
    ensures |r| <= |s| && r == s[|s| - |r|..]
    ensures AllSpace(s[..|s| - |r|], isSpace)
    ensures r != [] ==> !isSpace(r[0])
    decreases |s|
  {
    if s != [] && isSpace(s[0]) then
      var r := TrimStart(s[1..], isSpace);
      assert s[1..][..|s| - 1 - |r|] == s[1..|s| - |r|];
      r
    else s
  }

  /** Drops trailing whitespace: the result is the longest prefix of `s` that does not end in whitespace. */
  function TrimEnd(s: string, isSpace: char -> bool): (r: string)
    ensures |r| <= |s| && r == s[..|r|]
    ensures AllSpace(s[|r|..], isSpace)
    ensures r != [] ==> !isSpace(r[|r| - 1])
    decreases |s|
  {
    if s != [] && isSpace(s[|s| - 1]) then
      var r := TrimEnd(s[..|s| - 1], isSpace);
      assert s[|r|..] == s[..|s| - 1][|r|..] + [s[|s| - 1]];
      r
    else s
  }

  /** `String.prototype.trim`: no longer than `s`, and neither end of the result is whitespace. */
  function Trim(s: string, isSpace: char -> bool): (r: string)
    ensures |r| <= |s|
    ensures r != [] ==> !isSpace(r[0]) && !isSpace(r[|r| - 1])
  {
    TrimEnd(TrimStart(s, isSpace), isSpace)
  }

  /** `r` is `s` with a run of whitespace cut from each end. */
  ghost predicate IsTrimmedFrom(r: string, s: string, isSpace: char -> bool) {
    exists i :: 0 <= i <= |s| - |r| && s[i..i + |r|] == r
      && AllSpace(s[..i], isSpace) && AllSpace(s[i + |r|..], isSpace)
  }

  /** The trimmed string is the part of `s` left after cutting a run of whitespace from each end. */
  lemma TrimIsInfix(s: string, isSpace: char -> bool)
    ensures IsTrimmedFrom(Trim(s, isSpace), s, isSpace)
  {
    var t := TrimStart(s, isSpace);
    PrefixOfSuffixIsTrimmed(s, t, TrimEnd(t, isSpace), isSpace);
  }

  /** A prefix `r` of a suffix `t` of `s`, with only whitespace cut on either side, is trimmed from `s`. */
  lemma PrefixOfSuffixIsTrimmed(s: string, t: string, r: string, isSpace: char -> bool)
    requires |t| <= |s| && t == s[|s| - |t|..] && AllSpace(s[..|s| - |t|], isSpace)
    requires |r| <= |t| && r == t[..|r|] && AllSpace(t[|r|..], isSpace)
    ensures IsTrimmedFrom(r, s, isSpace)
  {
    var i := |s| - |t|;
    assert s[i..i + |r|] == r by {
      assert s[i..i + |r|] == t[..|r|];
    }
    assert AllSpace(s[i + |r|..], isSpace) by {
      assert s[i + |r|..] == t[|r|..];
    }
  }

  /** Trimming leaves nothing exactly when the string is whitespace only. */
  lemma TrimEmptyIffAllSpace(s: string, isSpace: char -> bool)
    ensures Trim(s, isSpace) == [] <==> AllSpace(s, isSpace)
  {
    var t := TrimStart(s, isSpace);
    assert s == s[..|s| - |t|] + t;
  }

  /** Trimming twice is trimming once. */
  lemma TrimIdempotent(s: string, isSpace: char -> bool)
    ensures Trim(Trim(s, isSpace), isSpace) == Trim(s, isSpace)
  {
  }

  /** `pat` occurs in `s` starting at index `i`. */
  predicate OccursAt(s: string, pat: string, i: nat) {
    i + |pat| <= |s| && s[i..i + |pat|] == pat
  }

  /** Character-by-character comparison: `pat[k..]` is found in `s` at `i + k`. */
  predicate MatchesAt(s: string, pat: string, i: nat, k: nat)
    requires i + |pat| <= |s| && k <= |pat|
    decreases |pat| - k
  {
    k == |pat| || (s[i + k] == pat[k] && MatchesAt(s, pat, i, k + 1))
  }

  /** The character-by-character comparison agrees with comparing slices. */
  lemma {:induction false} MatchesAtIffSlices(s: string, pat: string, i: nat, k: nat)
    requires i + |pat| <= |s| && k <= |pat|
    ensures MatchesAt(s, pat, i, k) <==> s[i + k..i + |pat|] == pat[k..]
    decreases |pat| - k
  {
    if k < |pat| {
      MatchesAtIffSlices(s, pat, i, k + 1);
      assert s[i + k..i + |pat|] == [s[i + k]] + s[i + k + 1..i + |pat|];
      assert pat[k..] == [pat[k]] + pat[k + 1..];
    }
  }

  /**
   * The first index at or after `from` where `pat` occurs (`IndexOfIsFirst`);
   * for a non-empty `pat` this is JavaScript's `s.indexOf(pat, from)`. It
   * serves to specify `Split`. (For an empty `pat` past the end JavaScript
   * answers `|s|`, this search answers `None`; `Split` never asks that.)
   */
  function IndexOf(s: string, pat: string, from: nat): (r: Option<nat>)
    ensures r.Some? ==> from <= r.value && r.value + |pat| <= |s|
    decreases |s| - from
  {
    if from + |pat| > |s| then None
    else if MatchesAt(s, pat, from, 0) then Some(from)
    else IndexOf(s, pat, from + 1)
  }

  /** `IndexOf` misses nothing: no occurrence lies before the index it finds, and none at all when it finds none. */
  lemma {:induction false} IndexOfIsFirst(s: string, pat: string, from: nat)
    ensures IndexOf(s, pat, from).Some? ==> OccursAt(s, pat, IndexOf(s, pat, from).value)
    ensures IndexOf(s, pat, from).Some? ==>
      forall j :: from <= j < IndexOf(s, pat, from).value ==> !OccursAt(s, pat, j)
    ensures IndexOf(s, pat, from).None? ==> forall j :: from <= j ==> !OccursAt(s, pat, j)
    decreases |s| - from
  {
    if from + |pat| <= |s| {
      MatchesAtIffSlices(s, pat, from, 0);
      if s[from..from + |pat|] != pat {
        IndexOfIsFirst(s, pat, from + 1);
      }
    }
  }

  /** When the first occurrence at or after `from` is known, `IndexOf` finds it. */
  lemma IndexOfFirst(s: string, pat: string, from: nat, i: nat)
    requires from <= i && OccursAt(s, pat, i)
    requires forall j :: from <= j < i ==> !OccursAt(s, pat, j)
    ensures IndexOf(s, pat, from) == Some(i)
  {
    IndexOfIsFirst(s, pat, from);
    var r := IndexOf(s, pat, from);
    assert r.Some?;
    assert OccursAt(s, pat, r.value);
  }

  /** When nothing occurs at or after `from`, `IndexOf` finds nothing. */
  lemma IndexOfNone(s: string, pat: string, from: nat)
    requires forall j :: from <= j ==> !OccursAt(s, pat, j)
    ensures IndexOf(s, pat, from).None?
  {
    IndexOfIsFirst(s, pat, from);
  }

  /** `pat` does not start at `j` when one of its characters is missing or different there. */
  lemma MismatchAt(s: string, pat: string, j: nat, k: nat)
    requires k < |pat| && (j + k >= |s| || s[j + k] != pat[k])
    ensures !OccursAt(s, pat, j)
  {
    if j + |pat| <= |s| {
      assert s[j..j + |pat|][k] == s[j + k];
    }
  }

  /** An occurrence inside the slice `s[lo..hi]` is an occurrence in `s`, shifted by `lo`, that ends by `hi`. */
  lemma OccursInSlice(s: string, pat: string, lo: nat, hi: nat, j: nat)
    requires lo <= hi <= |s| && OccursAt(s[lo..hi], pat, j)
    ensures OccursAt(s, pat, lo + j) && lo + j + |pat| <= hi
  {
    var t := s[lo..hi];
    assert |t| == hi - lo;
    forall m | 0 <= m < |pat| ensures s[lo + j + m] == pat[m] {
      assert t[j..j + |pat|][m] == pat[m];
    }
    assert s[lo + j..lo + j + |pat|] == pat;
  }

  /**
   * `s.split(sep)` for a non-empty separator, from index `from` on: the
   * pieces between successive occurrences, left to right.
   */
  function SplitFrom(s: string, sep: string, from: nat): (pieces: seq<string>)
    requires sep != [] && from <= |s|
    ensures |pieces| >= 1
    decreases |s| - from
  {
    match IndexOf(s, sep, from)
    case None => [s[from..]]
    case Some(i) => [s[from..i]] + SplitFrom(s, sep, i + |sep|)
  }

  /** `s.split(sep)` for a non-empty separator. */
  function Split(s: string, sep: string): (pieces: seq<string>)
    requires sep != []
    ensures |pieces| >= 1
  {
    SplitFrom(s, sep, 0)
  }

  /** `pieces.join(sep)`. */
  function Join(pieces: seq<string>, sep: string): string
  {
    if |pieces| <= 1 then (if pieces == [] then [] else pieces[0])
    else pieces[0] + sep + Join(pieces[1..], sep)
  }

  /** Splitting from `from` loses nothing: joining the pieces rebuilds `s[from..]`. */
  lemma {:induction false} JoinSplitFrom(s: string, sep: string, from: nat)
    requires sep != [] && from <= |s|
    ensures Join(SplitFrom(s, sep, from), sep) == s[from..]
    decreases |s| - from
  {
    match IndexOf(s, sep, from)
    case None =>
    case Some(i) =>
      var next := i + |sep|;
      IndexOfIsFirst(s, sep, from);
      JoinSplitFrom(s, sep, next);
      var pieces := SplitFrom(s, sep, from);
      assert pieces[1..] == SplitFrom(s, sep, next);
      assert s[from..] == s[from..i] + s[i..next] + s[next..];
  }

  /** Splitting loses nothing: joining the pieces with the separator rebuilds the string. */
  lemma JoinSplit(s: string, sep: string)
    requires sep != []
    ensures Join(Split(s, sep), sep) == s
  {
    JoinSplitFrom(s, sep, 0);
  }

  /** The first piece of a split runs up to the first occurrence of the separator, or to the end. */
  lemma SplitFirstPiece(s: string, sep: string)
    requires sep != []
    ensures IndexOf(s, sep, 0).None? ==> Split(s, sep) == [s]
    ensures IndexOf(s, sep, 0).Some? ==> Split(s, sep)[0] == s[..IndexOf(s, sep, 0).value]
  {
    assert s[0..] == s;
  }

  /** A split from `k` with no separator at or after `k` is the one piece `s[k..]`. */
  lemma SplitFromWhole(s: string, sep: string, k: nat)
    requires sep != [] && k <= |s| && IndexOf(s, sep, k).None?
    ensures SplitFrom(s, sep, k) == [s[k..]]
  {
  }

  /** A split from `k` with the next separator at `j` starts with the piece `s[k..j]`. */
  lemma SplitFromFirstPiece(s: string, sep: string, k: nat, j: nat)
    requires sep != [] && k <= |s| && IndexOf(s, sep, k) == Some(j)
    ensures |SplitFrom(s, sep, k)| > 1 && SplitFrom(s, sep, k)[0] == s[k..j]
  {
  }

  /** With no second separator, the second piece runs from the end of the first separator to the end. */
  lemma SplitSecondPieceToEnd(s: string, sep: string, i: nat)
    requires sep != [] && IndexOf(s, sep, 0) == Some(i) && IndexOf(s, sep, i + |sep|).None?
    ensures |Split(s, sep)| > 1 && Split(s, sep)[1] == s[i + |sep|..]
  {
    SplitFromWhole(s, sep, i + |sep|);
    assert Split(s, sep)[1] == SplitFrom(s, sep, i + |sep|)[0];
  }

  /** With a second separator at j, the second piece runs from the end of the first separator up to j. */
  lemma SplitSecondPieceToNext(s: string, sep: string, i: nat, j: nat)
    requires sep != [] && IndexOf(s, sep, 0) == Some(i) && IndexOf(s, sep, i + |sep|) == Some(j)
    ensures |Split(s, sep)| > 1 && Split(s, sep)[1] == s[i + |sep|..j]
  {
    SplitFromFirstPiece(s, sep, i + |sep|, j);
    assert Split(s, sep)[1] == SplitFrom(s, sep, i + |sep|)[0];
  }

  /** No piece of a split from `from` contains the separator. */
  lemma {:induction false} SplitFromPiecesFree(s: string, sep: string, from: nat)
    requires sep != [] && from <= |s|
    ensures forall k, j :: 0 <= k < |SplitFrom(s, sep, from)| ==> !OccursAt(SplitFrom(s, sep, from)[k], sep, j)
    decreases |s| - from
  {
    var pieces := SplitFrom(s, sep, from);
    IndexOfIsFirst(s, sep, from);
    match IndexOf(s, sep, from)
    case None =>
      assert s[from..|s|] == s[from..];
      forall j: nat ensures !OccursAt(s[from..], sep, j) {
        if OccursAt(s[from..], sep, j) {
          OccursInSlice(s, sep, from, |s|, j);
        }
      }
    case Some(i) =>
      var next := i + |sep|;
      SplitFromPiecesFree(s, sep, next);
      forall j: nat ensures !OccursAt(s[from..i], sep, j) {
        if OccursAt(s[from..i], sep, j) {
          OccursInSlice(s, sep, from, i, j);
        }
      }
      assert forall k :: 1 <= k < |pieces| ==> pieces[k] == SplitFrom(s, sep, next)[k - 1];
  }

  /** No piece of a split contains the separator. */
  lemma SplitPiecesFree(s: string, sep: string)
    requires sep != []
    ensures forall k, j :: 0 <= k < |Split(s, sep)| ==> !OccursAt(Split(s, sep)[k], sep, j)
  {
    SplitFromPiecesFree(s, sep, 0);
  }
}
