/**
 * The pattern `.*name="(\S+)"` that printAttachment applies to a Content-Type
 * value with FindStringSubmatch, under the semantics of Go's regexp package:
 * the match starts as far left as possible, and among the matches starting
 * there the one a backtracking matcher finds first wins (greedy `.*`, then
 * greedy `\S+`). `.` does not match a line feed; `\S` is any character
 * outside the Perl class `[\t\n\f\r ]`.
 */
module NameRegex {
  import opened Wrappers
  import opened GoStrings

  /** The literal text the pattern requires in front of the capture group. */
  const Prefix: string := "name=\""

  /** The Perl class `\s` of RE2, which `\S` excludes. */
  predicate IsPerlSpace(c: char) {
    c == '\t' || c == '\n' || c == '\U{0C}' || c == '\r' || c == ' '
  }

  /**
   * The pattern can match with `name="` at index k and the closing quote at
   * index e: the capture s[k+6..e] is non-empty and has no Perl space.
   */
  ghost predicate MatchAt(s: string, k: int, e: int) {
    && 0 <= k && k + |Prefix| < e < |s|
    && s[k..k + |Prefix|] == Prefix
    && s[e] == '"'
    && forall j :: k + |Prefix| <= j < e ==> !IsPerlSpace(s[j])
  }

  /** No line feed in s[a..b), so `.*` can span it. */
  ghost predicate SameLine(s: string, a: int, b: int) {
    0 <= a <= b <= |s| && forall j :: a <= j < b ==> s[j] != '\n'
  }

  /** End of the run of non-space characters that starts at p. */
  function RunEnd(s: string, p: nat): (m: nat)
    requires p <= |s|
    ensures p <= m <= |s|
    ensures forall j :: p <= j < m ==> !IsPerlSpace(s[j])
    ensures m == |s| || IsPerlSpace(s[m])
    decreases |s| - p
  {
    if p == |s| || IsPerlSpace(s[p]) then p else RunEnd(s, p + 1)
  }

  /** The last quote in s[lo..hi), if any. */
  function LastQuote(s: string, lo: nat, hi: nat): (e: Option<nat>)
    requires lo <= hi <= |s|
    ensures e.Some? ==> lo <= e.value < hi && s[e.value] == '"'
    ensures e.Some? ==> forall j :: e.value < j < hi ==> s[j] != '"'
    ensures e.None? ==> forall j :: lo <= j < hi ==> s[j] != '"'
    decreases hi - lo
  {
    if lo == hi then None
    else if s[hi - 1] == '"' then Some(hi - 1)
    else LastQuote(s, lo, hi - 1)
  }

  /**
   * Scans the run of non-space characters from p, remembering the last quote
   * seen (`last` before p): where greedy `\S+"` backs off to.
   */
  function QuoteScan(s: string, p: nat, last: Option<nat>): Option<nat>
    requires p <= |s|
    decreases |s| - p
  {
    if p == |s| || IsPerlSpace(s[p]) then last
    else QuoteScan(s, p + 1, if s[p] == '"' then Some(p) else last)
  }

  /** Lowering the start of the search by one adds only that position. */
  lemma LastQuoteFrom(s: string, lo: nat, hi: nat)
    requires lo < hi <= |s|
    ensures LastQuote(s, lo, hi) ==
      if LastQuote(s, lo + 1, hi).Some? then LastQuote(s, lo + 1, hi)
      else if s[lo] == '"' then Some(lo) else None
  {
    var e := LastQuote(s, lo, hi);
    var e1 := LastQuote(s, lo + 1, hi);
    if e1.Some? {
      assert e.Some? && e.value == e1.value;
    } else if s[lo] == '"' {
      assert e.Some? && e.value == lo;
    }
  }

  /** QuoteScan finds the last quote of the run from p, or keeps `last` when the run has none. */
  lemma {:induction false} QuoteScanSpec(s: string, p: nat, last: Option<nat>)
    requires p <= |s|
    ensures QuoteScan(s, p, last) ==
      if LastQuote(s, p, RunEnd(s, p)).Some? then LastQuote(s, p, RunEnd(s, p)) else last
    decreases |s| - p
  {
    if p < |s| && !IsPerlSpace(s[p]) {
      var m := RunEnd(s, p);
      assert m == RunEnd(s, p + 1);
      QuoteScanSpec(s, p + 1, if s[p] == '"' then Some(p) else last);
      LastQuoteFrom(s, p, m);
    }
  }

  /**
   * The closing quote greedy `\S+"` settles on for `name="` at k: the longest
   * capture there, or None when nothing matches at k (see CaptureEndMatches).
   */
  function CaptureEnd(s: string, k: nat): Option<nat> {
    if k + |Prefix| < |s| && s[k..k + |Prefix|] == Prefix && !IsPerlSpace(s[k + |Prefix|]) then
      QuoteScan(s, k + |Prefix| + 1, None)
    else None
  }

  /** CaptureEnd finds the longest match with `name="` at k, and finds none exactly when there is none. */
  lemma CaptureEndMatches(s: string, k: nat)
    ensures CaptureEnd(s, k).Some? ==> MatchAt(s, k, CaptureEnd(s, k).value)
    ensures CaptureEnd(s, k).Some? ==> forall e' :: MatchAt(s, k, e') ==> e' <= CaptureEnd(s, k).value
    ensures CaptureEnd(s, k).None? ==> forall e' :: !MatchAt(s, k, e')
  {
    var p := k + |Prefix|;
    if p < |s| && s[k..p] == Prefix && !IsPerlSpace(s[p]) {
      QuoteScanSpec(s, p + 1, None);
    }
  }

  /** A line feed cannot start `name="`. */
  lemma NoMatchAtLineFeed(s: string, k: nat)
    requires k < |s| && s[k] == '\n'
    ensures forall e' :: !MatchAt(s, k, e')
  {
    if k + |Prefix| <= |s| {
      assert s[k..k + |Prefix|][0] == '\n';
    }
  }

  /** The greedy `.*`: the last position in [lo, hi) where a match can begin its `name="` (see LastCandidateSpec). */
  function LastCandidate(s: string, lo: nat, hi: nat): (k: Option<nat>)
    requires lo <= hi <= |s|
    ensures k.Some? ==> lo <= k.value < hi
    decreases hi - lo
  {
    if lo == hi then None
    else if CaptureEnd(s, hi - 1).Some? then Some(hi - 1)
    else LastCandidate(s, lo, hi - 1)
  }

  /** LastCandidate picks the last index in [lo, hi) where CaptureEnd finds a match, and None when there is none. */
  lemma {:induction false} LastCandidateSpec(s: string, lo: nat, hi: nat)
    requires lo <= hi <= |s|
    ensures LastCandidate(s, lo, hi).Some? ==> CaptureEnd(s, LastCandidate(s, lo, hi).value).Some?
    ensures LastCandidate(s, lo, hi).Some? ==> forall j :: LastCandidate(s, lo, hi).value < j < hi ==> CaptureEnd(s, j).None?
    ensures LastCandidate(s, lo, hi).None? ==> forall j :: lo <= j < hi ==> CaptureEnd(s, j).None?
    decreases hi - lo
  {
    if lo < hi {
      if CaptureEnd(s, hi - 1).Some? {
        assert LastCandidate(s, lo, hi) == Some(hi - 1);
      } else {
        LastCandidateSpec(s, lo, hi - 1);
        assert LastCandidate(s, lo, hi) == LastCandidate(s, lo, hi - 1);
      }
    }
  }

  /** The end of the line that starts at lo: the next line feed, or the end of s. */
  function LineEnd(s: string, lo: nat): (hi: nat)
    requires lo <= |s|
    ensures lo <= hi <= |s|
    ensures forall j :: lo <= j < hi ==> s[j] != '\n'
    ensures hi < |s| ==> s[hi] == '\n'
    decreases |s| - lo
  {
    if lo == |s| || s[lo] == '\n' then lo else LineEnd(s, lo + 1)
  }

  /** No candidate in s[lo..hi) means no match begins there. */
  lemma NoMatchIn(s: string, lo: nat, hi: nat)
    requires lo <= hi <= |s|
    requires forall j :: lo <= j < hi ==> CaptureEnd(s, j).None?
    ensures forall j, e' :: lo <= j < hi ==> !MatchAt(s, j, e')
  {
    forall j, e' | lo <= j < hi ensures !MatchAt(s, j, e') {
      CaptureEndMatches(s, j);
    }
  }

  /** With no candidate after k before the line's end hi, no match begins later on k's line. */
  lemma NoMatchLaterOnLine(s: string, k: nat, hi: nat)
    requires k < hi <= |s|
    requires forall j :: k < j < hi ==> s[j] != '\n'
    requires hi < |s| ==> s[hi] == '\n'
    requires forall j :: k < j < hi ==> CaptureEnd(s, j).None?
    ensures forall j, e' :: k < j && SameLine(s, k, j) ==> !MatchAt(s, j, e')
  {
    forall j, e' | k < j && SameLine(s, k, j) ensures !MatchAt(s, j, e') {
      if j < hi {
        CaptureEndMatches(s, j);
      } else if j == hi && hi < |s| {
        NoMatchAtLineFeed(s, hi);
      }
    }
  }

  /**
   * The match FindStringSubmatch reports, searching from lo, as the pair
   * (index of `name="`, index of the closing quote): the last candidate of the
   * first line that has one (see FindFromSpec).
   */
  function FindFrom(s: string, lo: nat): (r: Option<(nat, nat)>)
    requires lo <= |s|
    ensures r.Some? ==> lo <= r.value.0 && r.value.0 + |Prefix| < r.value.1 < |s|
    decreases |s| - lo
  {
    var hi := LineEnd(s, lo);
    match LastCandidate(s, lo, hi)
    case Some(k) =>
      LastCandidateSpec(s, lo, hi);
      CaptureEndMatches(s, k);
      Some((k, CaptureEnd(s, k).value))
    case None =>
      if hi < |s| then FindFrom(s, hi + 1) else None
  }

  /**
   * r is the leftmost-first match searching from lo: it lies in the first
   * line that holds any match, it is the last `name="` in that line that can
   * match, and its capture is the longest possible there; None exactly when
   * nothing matches from lo on.
   */
  ghost predicate Leftmost(s: string, lo: nat, r: Option<(nat, nat)>) {
    && (r.Some? ==> lo <= r.value.0 && MatchAt(s, r.value.0, r.value.1))
    && (r.Some? ==> forall e' :: MatchAt(s, r.value.0, e') ==> e' <= r.value.1)
    && (r.Some? ==> forall j, e' :: r.value.0 < j && SameLine(s, r.value.0, j) ==> !MatchAt(s, j, e'))
    && (r.Some? ==> forall j, e' :: lo <= j < r.value.0 && !SameLine(s, j, r.value.0) ==> !MatchAt(s, j, e'))
    && (r.None? ==> forall j, e' :: lo <= j ==> !MatchAt(s, j, e'))
  }

  /** A line without a match can be skipped: the leftmost match after its line feed is the leftmost from its start. */
  lemma SkipLine(s: string, lo: nat, hi: nat, r: Option<(nat, nat)>)
    requires lo <= hi < |s| && s[hi] == '\n'
    requires forall j :: lo <= j < hi ==> CaptureEnd(s, j).None?
    requires Leftmost(s, hi + 1, r)
    ensures Leftmost(s, lo, r)
  {
    NoMatchIn(s, lo, hi);
    NoMatchAtLineFeed(s, hi);
    if r.Some? {
      forall j, e' | lo <= j < r.value.0 && !SameLine(s, j, r.value.0) ensures !MatchAt(s, j, e') {
        if j < hi {
        } else if j == hi {
        }
      }
    } else {
      forall j, e' | lo <= j ensures !MatchAt(s, j, e') {
        if j < hi {
        } else if j == hi {
        }
      }
    }
  }

  /** The last candidate of the first line, with its longest capture, is the leftmost match. */
  lemma MatchOnLine(s: string, lo: nat, hi: nat, k: nat)
    requires lo <= k < hi <= |s|
    requires forall j :: lo <= j < hi ==> s[j] != '\n'
    requires hi < |s| ==> s[hi] == '\n'
    requires CaptureEnd(s, k).Some?
    requires forall j :: k < j < hi ==> CaptureEnd(s, j).None?
    ensures Leftmost(s, lo, Some((k, CaptureEnd(s, k).value)))
  {
    NoMatchLaterOnLine(s, k, hi);
    CaptureEndMatches(s, k);
    forall j | lo <= j < k ensures SameLine(s, j, k) {
    }
  }

  /** A line with a candidate: FindFrom stops at its last one, which is the leftmost match. */
  lemma FindFromHit(s: string, lo: nat, k: nat)
    requires lo <= |s|
    requires LastCandidate(s, lo, LineEnd(s, lo)) == Some(k)
    ensures Leftmost(s, lo, FindFrom(s, lo))
  {
    var hi := LineEnd(s, lo);
    LastCandidateSpec(s, lo, hi);
    MatchOnLine(s, lo, hi, k);
    assert FindFrom(s, lo) == Some((k, CaptureEnd(s, k).value));
  }

  /** A line without a candidate that ends in a line feed: FindFrom goes on with the next line. */
  lemma FindFromSkip(s: string, lo: nat)
    requires lo <= |s|
    requires LastCandidate(s, lo, LineEnd(s, lo)).None? && LineEnd(s, lo) < |s|
    requires Leftmost(s, LineEnd(s, lo) + 1, FindFrom(s, LineEnd(s, lo) + 1))
    ensures Leftmost(s, lo, FindFrom(s, lo))
  {
    var hi := LineEnd(s, lo);
    LastCandidateSpec(s, lo, hi);
    SkipLine(s, lo, hi, FindFrom(s, hi + 1));
    assert FindFrom(s, lo) == FindFrom(s, hi + 1);
  }

  /** A last line without a candidate: there is no match at all. */
  lemma FindFromMiss(s: string, lo: nat)
    requires lo <= |s|
    requires LastCandidate(s, lo, LineEnd(s, lo)).None? && LineEnd(s, lo) == |s|
    ensures Leftmost(s, lo, FindFrom(s, lo))
  {
    var hi := LineEnd(s, lo);
    LastCandidateSpec(s, lo, hi);
    NoMatchIn(s, lo, hi);
    assert FindFrom(s, lo) == None;
  }

  /** FindFrom reports the leftmost-first match from lo. */
  lemma {:induction false} FindFromSpec(s: string, lo: nat)
    requires lo <= |s|
    ensures Leftmost(s, lo, FindFrom(s, lo))
    decreases |s| - lo
  {
    var hi := LineEnd(s, lo);
    match LastCandidate(s, lo, hi)
    case Some(k) =>
      FindFromHit(s, lo, k);
    case None =>
      if hi < |s| {
        FindFromSpec(s, hi + 1);
        FindFromSkip(s, lo);
      } else {
        FindFromMiss(s, lo);
      }
  }

  /** FindStringSubmatch(contentType)[1], or None when the pattern does not match. */
  function Capture(contentType: string): Option<string> {
    match FindFrom(contentType, 0)
    case Some((k, e)) => Some(contentType[k + |Prefix|..e])
    case None => None
  }

  /** printAttachment's fileName: the captured name, or "" when there is no match. */
  function FileName(contentType: string): string {
    Capture(contentType).GetOr("")
  }

  /**
   * fileName is "" exactly when the pattern matches nowhere in Content-Type;
   * otherwise it is non-empty, holds no whitespace, and `name="` + fileName + `"`
   * occurs in Content-Type.
   */
  lemma FileNameShape(contentType: string)
    ensures FileName(contentType) == "" <==> forall k, e :: !MatchAt(contentType, k, e)
    ensures FileName(contentType) != "" ==>
      && (forall i :: 0 <= i < |FileName(contentType)| ==> !IsPerlSpace(FileName(contentType)[i]))
      && Contains(contentType, Prefix + FileName(contentType) + "\"")
  {
    var s := contentType;
    FindFromSpec(s, 0);
    match FindFrom(s, 0)
    case Some((k, e)) =>
      var n := s[k + |Prefix|..e];
      assert FileName(s) == n && |n| > 0;
      assert forall i :: 0 <= i < |n| ==> n[i] == s[k + |Prefix| + i];
      var w := Prefix + n + "\"";
      assert s[k..k + |w|] == w by {
        assert s[k..k + |w|] == s[k..k + |Prefix|] + s[k + |Prefix|..e] + s[e..e + 1];
      }
      assert OccursAt(s, w, k);
    case None =>
  }
}
