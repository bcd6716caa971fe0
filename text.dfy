/**
 * The few Python string operations the ingestion code relies on:
 * `str.strip()`, `str.upper()`, `str.lower()`, `str.startswith()`, `s.split('/')[-1]`
 * and `s.replace(pat, '')`.
 */
module Text {

  /** The characters Python's `str.isspace()` accepts. */
  predicate IsSpace(c: char) {
    || ('\t' <= c <= '\r') || ('\U{1C}' <= c <= ' ')
    || c == '\U{85}' || c == '\U{A0}' || c == '\U{1680}'
    || ('\U{2000}' <= c <= '\U{200A}')
    || c == '\U{2028}' || c == '\U{2029}' || c == '\U{202F}' || c == '\U{205F}' || c == '\U{3000}'
  }

  /** Neither end of `s` is white space. */
  predicate IsStripped(s: string) {
    s == [] || (!IsSpace(s[0]) && !IsSpace(s[|s| - 1]))
  }

  /** The first index from `i` on whose character is not white space, or `|s|`. */
  function SkipSpace(s: string, i: nat): (n: nat)
    requires i <= |s|
    ensures i <= n <= |s|
    ensures n < |s| ==> !IsSpace(s[n])
    decreases |s| - i
  {
    if i < |s| && IsSpace(s[i]) then SkipSpace(s, i + 1) else i
  }

  /** What `SkipSpace` skips is white space. */
  lemma {:induction false} SkipSpaceSkips(s: string, i: nat)
    requires i <= |s|
    ensures forall k :: i <= k < SkipSpace(s, i) ==> IsSpace(s[k])
    decreases |s| - i
  {
    if i < |s| && IsSpace(s[i]) {
      SkipSpaceSkips(s, i + 1);
    }
  }

  /** The end of `s[..j]` once its trailing white space, down to index `lo`, is dropped. */
  function SkipSpaceBack(s: string, lo: nat, j: nat): (n: nat)
    requires lo <= j <= |s|
    ensures lo <= n <= j
    ensures lo < n ==> !IsSpace(s[n - 1])
    decreases j
  {
    if lo < j && IsSpace(s[j - 1]) then SkipSpaceBack(s, lo, j - 1) else j
  }

  /** What `SkipSpaceBack` skips is white space. */
  lemma {:induction false} SkipSpaceBackSkips(s: string, lo: nat, j: nat)
    requires lo <= j <= |s|
    ensures forall k :: SkipSpaceBack(s, lo, j) <= k < j ==> IsSpace(s[k])
    decreases j
  {
    if lo < j && IsSpace(s[j - 1]) {
      SkipSpaceBackSkips(s, lo, j - 1);
    }
  }

  /** Every character of `t` is white space. */
  predicate AllSpace(t: string) {
    forall i :: 0 <= i < |t| ==> IsSpace(t[i])
  }

  /** How many white-space characters `s` starts with. */
  function Lead(s: string): nat {
    SkipSpace(s, 0)
  }

  /** Where the strip of `s` ends: before the trailing white space. */
  function Trail(s: string): nat
    requires Lead(s) <= |s|
  {
    SkipSpaceBack(s, Lead(s), |s|)
  }

  /**
   * Python's `str.strip()`: the slice of `s` that starts after its leading
   * white space and stops before its trailing white space.
   */
  function Strip(s: string): (r: string)
    ensures IsStripped(r)
  {
    s[Lead(s)..Trail(s)]
  }

  /**
   * The strip is the slice of `s` between its leading and its trailing run
   * of white space.
   */
  lemma StripSpec(s: string)
    ensures Lead(s) + |Strip(s)| <= |s| && Strip(s) == s[Lead(s)..Lead(s) + |Strip(s)|]
    ensures AllSpace(s[..Lead(s)]) && AllSpace(s[Lead(s) + |Strip(s)|..])
  {
    var lo, hi := Lead(s), Trail(s);
    assert lo + |Strip(s)| == hi;
    SkipSpaceSkips(s, 0);
    SkipSpaceBackSkips(s, lo, |s|);
    forall k | 0 <= k < lo ensures IsSpace(s[..lo][k]) {
      assert s[..lo][k] == s[k];
    }
    forall k | 0 <= k < |s| - hi ensures IsSpace(s[hi..][k]) {
      assert s[hi..][k] == s[hi + k];
    }
  }

  /** A string whose ends are not white space is its own strip. */
  lemma StripOfStripped(s: string)
    requires IsStripped(s)
    ensures Strip(s) == s
  {
    if s != [] {
      assert Lead(s) == 0;
      assert Trail(s) == |s|;
    }
  }

  /** `str.strip()` is idempotent. */
  lemma StripIdempotent(s: string)
    ensures Strip(Strip(s)) == Strip(s)
  {
    StripOfStripped(Strip(s));
  }

  /** The strip is empty exactly when every character is white space. */
  lemma StripEmptyIff(s: string)
    ensures Strip(s) == [] <==> AllSpace(s)
  {
    var lo, hi := Lead(s), Trail(s);
    SkipSpaceSkips(s, 0);
    SkipSpaceBackSkips(s, lo, |s|);
  }

  predicate IsLowerAscii(c: char) { 'a' <= c <= 'z' }

  /** Upper-cases one ASCII letter; every other character is left alone. */
  function UpperChar(c: char): char {
    if IsLowerAscii(c) then (c as int - 32) as char else c
  }

  /** `str.upper()` restricted to ASCII letters. */
  function Upper(s: string): (r: string)
    ensures |r| == |s|
    ensures forall i :: 0 <= i < |r| ==> !IsLowerAscii(r[i])
    ensures forall i :: 0 <= i < |s| && IsLowerAscii(s[i]) ==> r[i] as int == s[i] as int - 32
    ensures forall i :: 0 <= i < |s| && !IsLowerAscii(s[i]) ==> r[i] == s[i]
  {
    seq(|s|, i requires 0 <= i < |s| => UpperChar(s[i]))
  }

  /** Upper-casing never touches white space, so a stripped string stays stripped. */
  lemma UpperKeepsStripped(s: string)
    requires IsStripped(s)
    ensures IsStripped(Upper(s))
  {
    if s != [] {
      assert Upper(s)[0] == UpperChar(s[0]);
      assert Upper(s)[|s| - 1] == UpperChar(s[|s| - 1]);
    }
  }

  predicate IsUpperAscii(c: char) { 'A' <= c <= 'Z' }

  /** Lower-cases one ASCII letter; every other character is left alone. */
  function LowerChar(c: char): char {
    if IsUpperAscii(c) then (c as int + 32) as char else c
  }

  /** `str.lower()` restricted to ASCII letters. */
  function Lower(s: string): (r: string)
    ensures |r| == |s|
    ensures forall i :: 0 <= i < |r| ==> !IsUpperAscii(r[i])
    ensures forall i :: 0 <= i < |s| && IsUpperAscii(s[i]) ==> r[i] as int == s[i] as int + 32
    ensures forall i :: 0 <= i < |s| && !IsUpperAscii(s[i]) ==> r[i] == s[i]
  {
    seq(|s|, i requires 0 <= i < |s| => LowerChar(s[i]))
  }

  predicate StartsWith(s: string, prefix: string) {
    |prefix| <= |s| && s[..|prefix|] == prefix
  }

  /** `s.split('/')[-1]`: the part of `s` after its last '/', or all of `s` when it has none. */
  function LastSegment(s: string): string {
    if s == [] then []
    else if s[|s| - 1] == '/' then []
    else LastSegment(s[..|s| - 1]) + [s[|s| - 1]]
  }

  /**
   * The last segment is the longest suffix of `s` without a '/': it holds no
   * '/', and it is either all of `s` or preceded by a '/'.
   */
  lemma {:induction false} LastSegmentSpec(s: string)
    ensures '/' !in LastSegment(s)
    ensures |LastSegment(s)| <= |s| && LastSegment(s) == s[|s| - |LastSegment(s)|..]
    ensures |LastSegment(s)| < |s| ==> s[|s| - |LastSegment(s)| - 1] == '/'
  {
    if s != [] && s[|s| - 1] != '/' {
      var init := s[..|s| - 1];
      var c := s[|s| - 1];
      LastSegmentSpec(init);
      var r' := LastSegment(init);
      assert LastSegment(s) == r' + [c];
      assert s == init + [c];
      assert init[|init| - |r'|..] + [c] == s[|s| - |r'| - 1..];
      if |r'| < |init| {
        assert s[|s| - |r'| - 2] == init[|init| - |r'| - 1];
      }
    }
  }

  /** `pat` occurs in `s` at position `i`. */
  predicate OccursAt(s: string, pat: string, i: nat) {
    i + |pat| <= |s| && s[i..i + |pat|] == pat
  }

  /**
   * `s.replace(pat, '')`: scanning left to right, every non-overlapping
   * occurrence of `pat` is deleted (a match found is skipped as a whole).
   */
  function RemoveAll(s: string, pat: string): (r: string)
    requires pat != []
    ensures |r| <= |s|
    decreases |s|
  {
    if |s| < |pat| then s
    else if s[..|pat|] == pat then RemoveAll(s[|pat|..], pat)
    else [s[0]] + RemoveAll(s[1..], pat)
  }

  /** A string without any occurrence of `pat` comes back unchanged. */
  lemma {:induction false} RemoveAllAbsent(s: string, pat: string)
    requires pat != []
    requires forall i :: 0 <= i <= |s| ==> !OccursAt(s, pat, i)
    ensures RemoveAll(s, pat) == s
    decreases |s|
  {
    if |s| >= |pat| {
      assert !OccursAt(s, pat, 0);
      var t := s[1..];
      forall i | 0 <= i <= |t| ensures !OccursAt(t, pat, i) {
        assert !OccursAt(s, pat, i + 1);
        if i + |pat| <= |t| {
          assert t[i..i + |pat|] == s[i + 1..i + 1 + |pat|];
        }
      }
      RemoveAllAbsent(t, pat);
      assert [s[0]] + t == s;
    }
  }

  /**
   * A match right after a stretch without the first character of `pat` is
   * removed whole, and the scan goes on after it: the stretch is kept and
   * the rest is scanned on its own.
   */
  lemma {:induction false} RemoveAllSkipsMatch(x: string, pat: string, y: string)
    requires pat != []
    requires pat[0] !in x
    ensures RemoveAll(x + pat + y, pat) == x + RemoveAll(y, pat)
    decreases |x|
  {
    var t := pat + y;
    assert x + pat + y == x + t;
    if x == [] {
      assert x + t == t;
      assert t[..|pat|] == pat && t[|pat|..] == y;
    } else {
      var s := x + t;
      assert s[0] != pat[0];
      assert s[1..] == x[1..] + pat + y;
      RemoveAllSkipsMatch(x[1..], pat, y);
      assert [x[0]] + x[1..] == x;
    }
  }

  /**
   * Appending `pat` to a string that does not contain the first character
   * of `pat` and removing every occurrence gives the string back: the suffix
   * is the only place a match can start.
   */
  lemma {:induction false} RemoveAllSuffix(x: string, pat: string)
    requires pat != []
    requires pat[0] !in x
    ensures RemoveAll(x + pat, pat) == x
    decreases |x|
  {
    var s := x + pat;
    if x == [] {
      assert s[..|pat|] == pat;
      assert s[|pat|..] == [];
    } else {
      assert s[0] == x[0] != pat[0];
      assert s[..|pat|] != pat;
      assert s[1..] == x[1..] + pat;
      RemoveAllSuffix(x[1..], pat);
      assert [x[0]] + x[1..] == x;
    }
  }
}
