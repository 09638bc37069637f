/** The two functions of Go's `strings` package that the scraper relies on:
    `strings.Index` (first occurrence of a substring) and `strings.TrimSpace`
    (drop leading and trailing Unicode white space). Strings are sequences of
    characters; Go works on UTF-8 bytes, but every cut made here falls at the
    start of a character, so the two views agree. */
module GoStrings {

  /** `p` occurs in `s` starting at index `i`. */
  predicate OccursAt(s: string, p: string, i: int) {
    0 <= i && i + |p| <= |s| && s[i..i + |p|] == p
  }

  /** `p` is a substring of `s`. */
  ghost predicate Contains(s: string, p: string) {
    exists i :: OccursAt(s, p, i)
  }

  /** `p` is a prefix of `s`. */
  predicate IsPrefix(p: string, s: string) {
    |p| <= |s| && s[..|p|] == p
  }

  /** Occurrences in the tail of `s` are the occurrences in `s` shifted by one. */
  lemma OccursInTail(s: string, p: string)
    requires |s| > 0
    ensures forall i :: 1 <= i ==> (OccursAt(s, p, i) <==> OccursAt(s[1..], p, i - 1))
  {
    forall i | 1 <= i && i + |p| <= |s|
      ensures OccursAt(s, p, i) <==> OccursAt(s[1..], p, i - 1)
    {
      assert s[1..][i - 1..i - 1 + |p|] == s[i..i + |p|];
    }
  }

  /** Go's `strings.Index(s, p)`: the index of the first occurrence of `p`
      in `s`, or -1 when there is none. */
  function IndexOf(s: string, p: string): (r: int)
    ensures r == -1 <==> !Contains(s, p)
    ensures r != -1 ==> OccursAt(s, p, r) && forall j :: 0 <= j < r ==> !OccursAt(s, p, j)
    decreases |s|
  {
    if |p| > |s| then
      assert forall i :: !OccursAt(s, p, i);
      -1
    else if s[..|p|] == p then
      assert OccursAt(s, p, 0);
      0
    else
      var k := IndexOf(s[1..], p);
      OccursInTail(s, p);
      if k == -1 then
        -1
      else
        assert OccursAt(s, p, k + 1);
        k + 1
  }

  /** A prefix of a string that lacks `p` lacks `p` too. */
  lemma PrefixKeepsAbsence(t: string, s: string, p: string)
    requires IsPrefix(t, s) && !Contains(s, p)
    ensures !Contains(t, p)
  {
    forall i | OccursAt(t, p, i) ensures OccursAt(s, p, i) {
      assert s[i..i + |p|] == t[i..i + |p|];
    }
  }

  /** Cutting `s` at the first occurrence of `p` leaves a string that does
      not contain `p`. */
  lemma CutBeforeFirstLacks(s: string, p: string, i: int)
    requires p != []
    requires OccursAt(s, p, i) && forall j :: 0 <= j < i ==> !OccursAt(s, p, j)
    ensures !Contains(s[..i], p)
  {
    forall j | OccursAt(s[..i], p, j) ensures false {
      assert s[j..j + |p|] == s[..i][j..j + |p|];
      assert OccursAt(s, p, j);
    }
  }

  /** A one-character pattern is first found where it first appears. */
  lemma FirstOccurrence(s: string, p: string, k: int)
    requires |p| == 1 && OccursAt(s, p, k) && p[0] !in s[..k]
    ensures IndexOf(s, p) == k
  {
    var i := IndexOf(s, p);
    assert i != -1 && i <= k;
    assert s[i] == s[i..i + 1][0] == p[0];
    forall j | 0 <= j < k ensures s[j] != p[0] {
      assert s[..k][j] == s[j];
    }
  }

  /** Go's `unicode.IsSpace`: the Latin-1 spaces and the other characters
      with the Unicode White_Space property. */
  predicate IsSpace(c: char) {
    c == '\t' || c == '\n' || c == '\U{000B}' || c == '\U{000C}' || c == '\r' || c == ' '
    || c == '\U{0085}' || c == '\U{00A0}' || c == '\U{1680}'
    || ('\U{2000}' <= c <= '\U{200A}')
    || c == '\U{2028}' || c == '\U{2029}' || c == '\U{202F}' || c == '\U{205F}' || c == '\U{3000}'
  }

  predicate AllSpace(s: string) {
    forall i :: 0 <= i < |s| ==> IsSpace(s[i])
  }

  /** A space in front of a trimmed tail: the tail is still a suffix, and
      what was dropped is still all spaces. */
  lemma TrimLeftStep(s: string, t: string)
    requires s != [] && IsSpace(s[0])
    requires |t| <= |s| - 1 && t == s[1..][|s| - 1 - |t|..] && AllSpace(s[1..][..|s| - 1 - |t|])
    ensures t == s[|s| - |t|..] && AllSpace(s[..|s| - |t|])
  {
    var n := |s| - |t|;
    assert s[1..][n - 1..] == s[n..];
    forall i | 0 < i < n ensures IsSpace(s[..n][i]) {
      assert s[..n][i] == s[1..][..n - 1][i - 1];
    }
  }

  /** A space after a trimmed front: the front is still a prefix, and what
      was dropped is still all spaces. */
  lemma TrimRightStep(s: string, t: string)
    requires s != [] && IsSpace(s[|s| - 1])
    requires |t| <= |s| - 1 && t == s[..|s| - 1][..|t|] && AllSpace(s[..|s| - 1][|t|..])
    ensures t == s[..|t|] && AllSpace(s[|t|..])
  {
    var n := |t|;
    assert s[..|s| - 1][..n] == s[..n];
    forall i | 0 <= i < |s| - 1 - n ensures IsSpace(s[n..][i]) {
      assert s[n..][i] == s[..|s| - 1][n..][i];
    }
  }

  /** Drops the leading white space of `s`. */
  function TrimLeft(s: string): (r: string)
    ensures |r| <= |s| && r == s[|s| - |r|..]
    ensures AllSpace(s[..|s| - |r|])
    ensures r == [] || !IsSpace(r[0])
  {
    if s != [] && IsSpace(s[0]) then
      var t := TrimLeft(s[1..]);
      TrimLeftStep(s, t);
      t
    else
      s
  }

  /** Drops the trailing white space of `s`. */
  function TrimRight(s: string): (r: string)
    ensures |r| <= |s| && r == s[..|r|]
    ensures AllSpace(s[|r|..])
    ensures r == [] || !IsSpace(r[|r| - 1])
  {
    if s != [] && IsSpace(s[|s| - 1]) then
      var t := TrimRight(s[..|s| - 1]);
      TrimRightStep(s, t);
      t
    else
      s
  }

  /** Go's `strings.TrimSpace`: `s` without its leading and trailing white
      space. The result is the part of `s` between a run of spaces at each
      end, and it neither starts nor ends with a space. */
  function TrimSpace(s: string): (r: string)
    ensures exists a, b :: 0 <= a <= b <= |s| && r == s[a..b] && AllSpace(s[..a]) && AllSpace(s[b..])
    ensures r == [] || (!IsSpace(r[0]) && !IsSpace(r[|r| - 1]))
  {
    var t := TrimLeft(s);
    var u := TrimRight(t);
    TrimBothEnds(s, t, u);
    u
  }

  /** Trimming the front and then the back leaves a slice of `s` between
      two runs of spaces. */
  lemma TrimBothEnds(s: string, t: string, u: string)
    requires |t| <= |s| && t == s[|s| - |t|..] && AllSpace(s[..|s| - |t|])
    requires |u| <= |t| && u == t[..|u|] && AllSpace(t[|u|..])
    ensures exists a, b :: 0 <= a <= b <= |s| && u == s[a..b] && AllSpace(s[..a]) && AllSpace(s[b..])
  {
    var a := |s| - |t|;
    var b := a + |u|;
    assert u == s[a..b];
    assert s[b..] == t[|u|..];
  }

  /** A string that neither starts nor ends with white space is its own
      `TrimSpace`. */
  lemma TrimSpaceUnchanged(s: string)
    requires s == [] || (!IsSpace(s[0]) && !IsSpace(s[|s| - 1]))
    ensures TrimSpace(s) == s
  {
  }
}
