/**
 * The few functions of Go's `strings` package that the drivers call, over strings
 * modelled as sequences of Unicode code points.
 */
module GoStrings {

  /** `sub` occurs in `s` starting at index `i`. */
  predicate OccursAt(s: string, sub: string, i: int) {
    0 <= i && i + |sub| <= |s| && s[i..i + |sub|] == sub
  }

  /** strings.Contains: `sub` occurs somewhere in `s` (the empty string occurs everywhere). */
  predicate Contains(s: string, sub: string) {
    exists i | 0 <= i <= |s| - |sub| :: OccursAt(s, sub, i)
  }

  /** strings.HasPrefix */
  predicate HasPrefix(s: string, prefix: string) {
    |prefix| <= |s| && s[..|prefix|] == prefix
  }

  /** An occurrence inside an occurrence is an occurrence. */
  lemma ContainsTransitive(s: string, mid: string, sub: string)
    requires Contains(s, mid) && Contains(mid, sub)
    ensures Contains(s, sub)
  {
    var i :| 0 <= i <= |s| - |mid| && OccursAt(s, mid, i);
    var j :| 0 <= j <= |mid| - |sub| && OccursAt(mid, sub, j);
    assert forall k :: 0 <= k < |sub| ==> s[i + j + k] == mid[j + k] == sub[k];
    assert OccursAt(s, sub, i + j);
  }

  /** strings.TrimLeftFunc: drops the longest prefix whose characters all satisfy `cut`. */
  function TrimLeftFunc(s: string, cut: char -> bool): (r: string)
    ensures |r| <= |s| && r == s[|s| - |r|..]
    ensures forall k :: 0 <= k < |s| - |r| ==> cut(s[k])
    ensures r == [] || !cut(r[0])
    decreases |s|
  {
    if |s| > 0 && cut(s[0]) then
      var r := TrimLeftFunc(s[1..], cut);
      assert forall k :: 1 <= k < |s| - |r| ==> s[k] == s[1..][k - 1];
      r
    else s
  }

  /** strings.TrimRightFunc: drops the longest suffix whose characters all satisfy `cut`. */
  function TrimRightFunc(s: string, cut: char -> bool): (r: string)
    ensures |r| <= |s| && r == s[..|r|]
    ensures forall k :: |r| <= k < |s| ==> cut(s[k])
    ensures r == [] || !cut(r[|r| - 1])
    decreases |s|
  {
    if |s| > 0 && cut(s[|s| - 1]) then
      var r := TrimRightFunc(s[..|s| - 1], cut);
      assert forall k :: |r| <= k < |s| - 1 ==> s[k] == s[..|s| - 1][k];
      r
    else s
  }

  /** A prefix of a suffix of s is a slice of s, with the dropped ends on either side. */
  lemma TrimmedSlice(s: string, left: string, r: string, cut: char -> bool)
    requires |left| <= |s| && left == s[|s| - |left|..]
    requires |r| <= |left| && r == left[..|r|]
    requires forall k :: |r| <= k < |left| ==> cut(left[k])
    ensures OccursAt(s, r, |s| - |left|)
    ensures forall k :: |s| - |left| + |r| <= k < |s| ==> cut(s[k])
  {
    var i := |s| - |left|;
    assert r == s[i..i + |r|];
    forall k | i + |r| <= k < |s| ensures cut(s[k]) {
      assert s[k] == left[k - i];
    }
  }

  /** strings.TrimFunc: drops the leading, then the trailing, characters that satisfy `cut` (see TrimFuncAt). */
  function TrimFunc(s: string, cut: char -> bool): string {
    TrimRightFunc(TrimLeftFunc(s, cut), cut)
  }

  /**
   * TrimFunc's result sits in `s` at i, with a run of cut characters before it
   * and a run after it, and neither starts nor ends with one.
   */
  lemma TrimFuncAt(s: string, cut: char -> bool) returns (i: nat)
    ensures var r := TrimFunc(s, cut);
            && (r == [] || (!cut(r[0]) && !cut(r[|r| - 1])))
            && OccursAt(s, r, i)
            && (forall k :: 0 <= k < i ==> cut(s[k]))
            && (forall k :: i + |r| <= k < |s| ==> cut(s[k]))
  {
    var left := TrimLeftFunc(s, cut);
    var r := TrimRightFunc(left, cut);
    TrimmedSlice(s, left, r, cut);
    assert r != [] ==> r[0] == left[0];
    i := |s| - |left|;
  }

  /** Membership in a cutset, as the predicate TrimFunc takes. */
  function InCutset(cutset: string): char -> bool {
    c => c in cutset
  }

  /** strings.Trim: removes every leading and trailing character that is in `cutset`. */
  function Trim(s: string, cutset: string): string {
    TrimFunc(s, InCutset(cutset))
  }

  /** Where Trim's result sits in s: after the leading run of cutset characters, with only cutset characters after it. */
  lemma TrimAt(s: string, cutset: string) returns (i: nat)
    ensures var r := Trim(s, cutset);
            && (r == [] || (r[0] !in cutset && r[|r| - 1] !in cutset))
            && OccursAt(s, r, i)
            && (forall k :: 0 <= k < i ==> s[k] in cutset)
            && (forall k :: i + |r| <= k < |s| ==> s[k] in cutset)
  {
    i := TrimFuncAt(s, InCutset(cutset));
    assert forall c :: InCutset(cutset)(c) == (c in cutset);
  }

  /**
   * strings.Trim's result neither starts nor ends with a cutset character, and
   * is a slice of the input with only cutset characters before and after it.
   */
  lemma TrimShape(s: string, cutset: string)
    ensures var r := Trim(s, cutset);
            && (r == [] || (r[0] !in cutset && r[|r| - 1] !in cutset))
            && exists i :: OccursAt(s, r, i)
                        && (forall k :: 0 <= k < i ==> s[k] in cutset)
                        && (forall k :: i + |r| <= k < |s| ==> s[k] in cutset)
  {
    var i := TrimAt(s, cutset);
  }

  /** unicode.IsSpace: the White_Space characters Go recognises. */
  predicate IsSpace(c: char) {
    c == '\t' || c == '\n' || c == '\U{0B}' || c == '\U{0C}' || c == '\r' || c == ' '
    || c == '\U{85}' || c == '\U{A0}' || c == '\U{1680}'
    || ('\U{2000}' <= c <= '\U{200A}')
    || c == '\U{2028}' || c == '\U{2029}' || c == '\U{202F}' || c == '\U{205F}' || c == '\U{3000}'
  }

  /** strings.TrimSpace */
  function TrimSpace(s: string): string {
    TrimFunc(s, IsSpace)
  }

  /**
   * strings.TrimSpace's result neither starts nor ends with white space, and is
   * a slice of the input with only white space around it.
   */
  lemma TrimSpaceShape(s: string)
    ensures var r := TrimSpace(s);
            && (r == [] || (!IsSpace(r[0]) && !IsSpace(r[|r| - 1])))
            && exists i :: OccursAt(s, r, i)
                        && (forall k :: 0 <= k < i ==> IsSpace(s[k]))
                        && (forall k :: i + |r| <= k < |s| ==> IsSpace(s[k]))
  {
    var i := TrimFuncAt(s, IsSpace);
  }
}
