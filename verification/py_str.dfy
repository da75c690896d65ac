/** Python 3 `str` operations as joke_api.py uses them: `find`, slicing with a
    single start or stop bound, `replace` with two arguments and `strip` with no
    argument. A Python string is a sequence of code points, here `seq<char>`. */
module PyStr {

  /** `str.isspace()` of a single code point: the characters CPython treats as
      whitespace (bidirectional class WS, B or S, or general category Zs).
      This is the set that `str.strip()` without an argument removes. It
      holds the space and the ASCII control whitespace, and no ASCII letter
      or digit. */
  function IsSpace(c: char): (b: bool)
    ensures c == ' ' || c == '\t' || c == '\n' || c == '\r' ==> b
    ensures '0' <= c <= '9' || 'A' <= c <= 'Z' || 'a' <= c <= 'z' ==> !b
  {
    || ('\t' <= c <= '\r')                 // TAB, LF, VT, FF, CR
    || ('\U{1C}' <= c <= '\U{1F}')         // file, group, record, unit separators
    || c == ' '
    || c == '\U{85}'                       // next line
    || c == '\U{A0}'                       // no-break space
    || c == '\U{1680}'
    || ('\U{2000}' <= c <= '\U{200A}')
    || c == '\U{2028}' || c == '\U{2029}'
    || c == '\U{202F}' || c == '\U{205F}' || c == '\U{3000}'
  }

  /** `sub` occurs in `s` starting at index `i`. */
  predicate OccursAt(s: string, sub: string, i: int) {
    0 <= i && i + |sub| <= |s| && s[i..i + |sub|] == sub
  }

  /** `sub in s` */
  ghost predicate Contains(s: string, sub: string) {
    exists i :: OccursAt(s, sub, i)
  }

  /** `i` is the lowest index at which `sub` occurs in `s`. */
  ghost predicate FirstOccurrence(s: string, sub: string, i: int) {
    OccursAt(s, sub, i) && forall j :: 0 <= j < i ==> !OccursAt(s, sub, j)
  }

  /** The string has no character `c`. */
  ghost predicate Lacks(s: string, c: char) {
    forall k :: 0 <= k < |s| ==> s[k] != c
  }

  /** Neither the first nor the last character is whitespace. */
  ghost predicate NoEdgeSpace(s: string) {
    s == [] || (!IsSpace(s[0]) && !IsSpace(s[|s| - 1]))
  }

  /** `s` is `r` with only whitespace before index `i` and after it. */
  ghost predicate SurroundedBySpace(s: string, r: string, i: int) {
    && 0 <= i && i + |r| <= |s| && s[i..i + |r|] == r
    && (forall k :: 0 <= k < i ==> IsSpace(s[k]))
    && (forall k :: i + |r| <= k < |s| ==> IsSpace(s[k]))
  }

  /** An occurrence inside a slice of `s` is an occurrence in `s`. */
  lemma InfixContains(s: string, r: string, i: int, sub: string)
    requires 0 <= i && i + |r| <= |s| && s[i..i + |r|] == r
    ensures Contains(r, sub) ==> Contains(s, sub)
  {
    if Contains(r, sub) {
      var j :| OccursAt(r, sub, j);
      forall k | 0 <= k < |sub| ensures s[i + j + k] == sub[k] {
        assert r[j..j + |sub|][k] == r[j + k] == s[i..i + |r|][j + k];
      }
      assert s[i + j..i + j + |sub|] == sub;
      assert OccursAt(s, sub, i + j);
    }
  }

  // ---------------------------------------------------------------------------
  // str.find
  // ---------------------------------------------------------------------------

  /** The search loop of `str.find`, from index `from` onwards. */
  function FindFrom(s: string, sub: string, from: nat): (r: int)
    ensures r == -1 || (from <= r && OccursAt(s, sub, r))
    ensures forall j :: from <= j && (r == -1 || j < r) ==> !OccursAt(s, sub, j)
    decreases |s| + 1 - from
  {
    if from + |sub| > |s| then -1
    else if s[from..from + |sub|] == sub then from
    else FindFrom(s, sub, from + 1)
  }

  /** `s.find(sub)`: the lowest index where `sub` occurs, or -1 when it does
      not occur at all. */
  function Find(s: string, sub: string): (r: int)
    ensures r == -1 <==> !Contains(s, sub)
    ensures r != -1 ==> FirstOccurrence(s, sub, r)
  {
    FindFrom(s, sub, 0)
  }

  /** `find` is the first occurrence and nothing else. */
  lemma FindCharacterised(s: string, sub: string, i: int)
    ensures Find(s, sub) == i <==> (FirstOccurrence(s, sub, i) || (i == -1 && !Contains(s, sub)))
  {
    if FirstOccurrence(s, sub, i) {
      assert OccursAt(s, sub, i);
    }
  }

  // ---------------------------------------------------------------------------
  // Slicing with step 1
  // ---------------------------------------------------------------------------

  /** How a slice bound `i` is normalised against a length `n`: a negative
      bound counts from the end, and the result is clamped into 0..n. */
  function SliceIndex(n: nat, i: int): (k: nat)
    ensures k <= n
    ensures 0 <= i <= n ==> k == i
    ensures i > n ==> k == n
    ensures i < 0 && 0 <= n + i ==> k == n + i
    ensures n + i < 0 ==> k == 0
  {
    if i < 0 then (if i + n < 0 then 0 else i + n)
    else if i > n then n
    else i
  }

  /** `s[i:]` */
  function SliceFrom(s: string, i: int): (r: string)
    ensures |r| <= |s| && r == s[|s| - |r|..]
  {
    s[SliceIndex(|s|, i)..]
  }

  /** `s[:j]` */
  function SliceTo(s: string, j: int): (r: string)
    ensures |r| <= |s| && r == s[..|r|]
  {
    s[..SliceIndex(|s|, j)]
  }

  /** Cutting at the same bound loses nothing: `s[:k] + s[k:] == s`, whatever
      `k` is, negative or out of range included. */
  lemma {:induction false} SliceSplit(s: string, k: int)
    ensures SliceTo(s, k) + SliceFrom(s, k) == s
  {
    var c := SliceIndex(|s|, k);
    assert s[..c] + s[c..] == s;
  }

  // ---------------------------------------------------------------------------
  // str.replace
  // ---------------------------------------------------------------------------

  /** `s.replace('', rep)`: `rep` before every character and at the end. */
  function InsertEverywhere(s: string, rep: string): (r: string)
    ensures rep == [] ==> r == s
    ensures |r| >= |s|
    decreases |s|
  {
    if s == [] then rep else rep + [s[0]] + InsertEverywhere(s[1..], rep)
  }

  /** `s.replace(pat, rep)` for a non-empty `pat`: one left-to-right pass
      that replaces non-overlapping occurrences. */
  function ReplaceNonEmpty(s: string, pat: string, rep: string): (r: string)
    requires pat != []
    ensures |rep| == |pat| ==> |r| == |s|
    ensures |rep| <= |pat| ==> |r| <= |s|
    decreases |s|
  {
    if |s| < |pat| then s
    else if s[..|pat|] == pat then rep + ReplaceNonEmpty(s[|pat|..], pat, rep)
    else [s[0]] + ReplaceNonEmpty(s[1..], pat, rep)
  }

  /** `s.replace(pat, rep)` */
  function Replace(s: string, pat: string, rep: string): (r: string)
    ensures |rep| == |pat| ==> |r| == |s|
    ensures |rep| <= |pat| ==> |r| <= |s|
  {
    if pat == [] then InsertEverywhere(s, rep) else ReplaceNonEmpty(s, pat, rep)
  }

  /** Replacing one character by another is a character-wise map. */
  lemma {:induction false} ReplaceChar(s: string, a: char, b: char)
    ensures |Replace(s, [a], [b])| == |s|
    ensures forall k :: 0 <= k < |s| ==> Replace(s, [a], [b])[k] == (if s[k] == a then b else s[k])
    decreases |s|
  {
    if |s| > 0 {
      ReplaceChar(s[1..], a, b);
      var tail := Replace(s[1..], [a], [b]);
      assert Replace(s, [a], [b]) == [if s[0] == a then b else s[0]] + tail;
    }
  }

  /** When `pat` does not occur, `replace` leaves the string as it is. */
  lemma {:induction false} ReplaceAbsent(s: string, pat: string, rep: string)
    requires pat != [] && !Contains(s, pat)
    ensures ReplaceNonEmpty(s, pat, rep) == s
    decreases |s|
  {
    if |s| >= |pat| {
      assert !OccursAt(s, pat, 0);
      InfixContains(s, s[1..], 1, pat);
      ReplaceAbsent(s[1..], pat, rep);
    }
  }

  /** Removing a token that ends the string, when its first character
      occurs nowhere before it, gives back what precedes it. */
  lemma {:induction false} RemoveTrailing(u: string, pat: string)
    requires pat != [] && Lacks(u, pat[0])
    ensures Replace(u + pat, pat, "") == u
    decreases |u|
  {
    if u == [] {
      assert (u + pat)[..|pat|] == pat;
      assert (u + pat)[|pat|..] == [];
    } else {
      assert (u + pat)[..|pat|][0] == u[0] != pat[0];
      assert (u + pat)[1..] == u[1..] + pat;
      RemoveTrailing(u[1..], pat);
    }
  }

  /** The pass of `replace` at the first occurrence: everything before it
      is copied, the occurrence becomes `rep`, and the pass goes on after
      the occurrence. This is CPython's find-and-copy loop, one round. */
  lemma ReplaceAtFind(s: string, pat: string, rep: string, f: int)
    requires pat != [] && f == Find(s, pat)
    ensures f == -1 ==> ReplaceNonEmpty(s, pat, rep) == s
    ensures f != -1 ==> ReplaceNonEmpty(s, pat, rep) == s[..f] + rep + ReplaceNonEmpty(s[f + |pat|..], pat, rep)
  {
    if f == -1 {
      ReplaceAbsent(s, pat, rep);
    } else {
      ReplaceFromFirstOccurrence(s, pat, rep, f);
    }
  }

  /** `replace` copies the characters before the first occurrence of `pat`,
      then replaces that occurrence. */
  lemma {:induction false} ReplaceFromFirstOccurrence(s: string, pat: string, rep: string, f: nat)
    requires pat != [] && FirstOccurrence(s, pat, f)
    ensures ReplaceNonEmpty(s, pat, rep) == s[..f] + rep + ReplaceNonEmpty(s[f + |pat|..], pat, rep)
    decreases f, 1
  {
    if f == 0 {
      ReplaceAtOccurrence(s, pat, rep);
      assert s[..f] + rep == rep;
    } else {
      ReplaceBeforeOccurrence(s, pat, rep, f);
    }
  }

  /** The induction step: when the first occurrence is at `f > 0`, the first
      character is copied and the rest is the pass over `s[1:]`, whose first
      occurrence is at `f - 1`. */
  lemma {:induction false} ReplaceBeforeOccurrence(s: string, pat: string, rep: string, f: nat)
    requires pat != [] && FirstOccurrence(s, pat, f) && f > 0
    ensures ReplaceNonEmpty(s, pat, rep) == s[..f] + rep + ReplaceNonEmpty(s[f + |pat|..], pat, rep)
    decreases f, 0
  {
    OccurrencesAfterFirst(s, pat, f);
    ReplaceFromFirstOccurrence(s[1..], pat, rep, f - 1);
    ReplaceCopyStep(s, pat, rep, f);
  }

  /** The pass over `s` is its first character followed by the pass over
      `s[1:]`, so the result for `s[1:]` at `f - 1` gives the one for `s` at
      `f`. */
  lemma ReplaceCopyStep(s: string, pat: string, rep: string, f: nat)
    requires pat != [] && 0 < f && f + |pat| <= |s| && !OccursAt(s, pat, 0)
    requires ReplaceNonEmpty(s[1..], pat, rep) ==
      s[1..][..f - 1] + rep + ReplaceNonEmpty(s[1..][f - 1 + |pat|..], pat, rep)
    ensures ReplaceNonEmpty(s, pat, rep) == s[..f] + rep + ReplaceNonEmpty(s[f + |pat|..], pat, rep)
  {
    ReplaceCopiesCharacter(s, pat, rep);
    PrependFirst(s, f, f + |pat|, rep, ReplaceNonEmpty(s[f + |pat|..], pat, rep));
  }

  /** Putting the first character back in front of a slice of `s[1:]`. */
  lemma PrependFirst(s: string, f: nat, m: nat, rep: string, y: string)
    requires 1 <= f <= m <= |s|
    ensures [s[0]] + (s[1..][..f - 1] + rep + y) == s[..f] + rep + y
    ensures s[1..][m - 1..] == s[m..]
  {
    assert [s[0]] + s[1..][..f - 1] == s[..f];
  }

  /** An occurrence at the start is replaced, and the pass resumes after it. */
  lemma ReplaceAtOccurrence(s: string, pat: string, rep: string)
    requires pat != [] && OccursAt(s, pat, 0)
    ensures ReplaceNonEmpty(s, pat, rep) == rep + ReplaceNonEmpty(s[|pat|..], pat, rep)
  {
    assert s[..|pat|] == s[0..|pat|] == pat;
  }

  /** A first character that starts no occurrence is copied, and the pass
      resumes at the next character. */
  lemma ReplaceCopiesCharacter(s: string, pat: string, rep: string)
    requires pat != [] && |s| >= |pat| && !OccursAt(s, pat, 0)
    ensures ReplaceNonEmpty(s, pat, rep) == [s[0]] + ReplaceNonEmpty(s[1..], pat, rep)
  {
    assert s[..|pat|] == s[0..0 + |pat|];
  }

  /** Dropping a first character that starts no occurrence moves the first
      occurrence one place to the left. */
  lemma OccurrencesAfterFirst(s: string, pat: string, f: nat)
    requires f >= 1 && FirstOccurrence(s, pat, f)
    ensures FirstOccurrence(s[1..], pat, f - 1)
  {
    var t := s[1..];
    forall j | 0 <= j && j + |pat| <= |t| ensures OccursAt(t, pat, j) <==> OccursAt(s, pat, j + 1) {
      assert t[j..j + |pat|] == s[j + 1..j + 1 + |pat|];
    }
  }

  /** A string that lacks the first character of `sub` does not contain it. */
  lemma LacksFirstCharacter(s: string, sub: string)
    requires sub != [] && Lacks(s, sub[0])
    ensures !Contains(s, sub)
  {
    forall i | 0 <= i && i + |sub| <= |s| ensures !OccursAt(s, sub, i) {
      assert s[i..i + |sub|][0] == s[i];
    }
  }

  /** A single-character `pat` never occurs in the result of replacing it by a
      character different from it. */
  lemma ReplaceCharRemoves(s: string, a: char, b: char)
    requires a != b
    ensures Lacks(Replace(s, [a], [b]), a)
  {
    ReplaceChar(s, a, b);
  }

  // ---------------------------------------------------------------------------
  // str.strip
  // ---------------------------------------------------------------------------

  /** The first index at or after `i` that does not hold whitespace (`|s|`
      when there is none): the forward scan of `strip`. */
  function FirstNonSpace(s: string, i: nat): (j: nat)
    requires i <= |s|
    ensures i <= j <= |s|
    ensures forall k :: i <= k < j ==> IsSpace(s[k])
    ensures j < |s| ==> !IsSpace(s[j])
    decreases |s| - i
  {
    if i < |s| && IsSpace(s[i]) then FirstNonSpace(s, i + 1) else i
  }

  /** The end of `s[lo:hi]` once its trailing whitespace is dropped: the
      backward scan of `strip`, which never goes below `lo`. */
  function EndBeforeSpaces(s: string, lo: nat, hi: nat): (j: nat)
    requires lo <= hi <= |s|
    ensures lo <= j <= hi
    ensures forall k :: j <= k < hi ==> IsSpace(s[k])
    ensures lo < j ==> !IsSpace(s[j - 1])
    decreases hi
  {
    if lo < hi && IsSpace(s[hi - 1]) then EndBeforeSpaces(s, lo, hi - 1) else hi
  }

  /** `s.strip()`: scan past the leading whitespace, then back over the
      trailing whitespace of what is left, and slice once. The result has
      only whitespace around it in `s`, and neither starts nor ends with
      whitespace. */
  function Strip(s: string): (r: string)
    ensures |r| <= |s|
    ensures NoEdgeSpace(r)
    ensures SurroundedBySpace(s, r, FirstNonSpace(s, 0))
  {
    var i := FirstNonSpace(s, 0);
    var j := EndBeforeSpaces(s, i, |s|);
    s[i..j]
  }

  /** Stripping is determined by the two properties of `Strip`'s contract:
      any string with no whitespace at its edges that `s` surrounds with
      whitespace is `s.strip()`. */
  lemma StripUnique(s: string, r: string, i: int)
    requires NoEdgeSpace(r) && SurroundedBySpace(s, r, i)
    ensures r == Strip(s)
  {
    var t := Strip(s);
    var j := FirstNonSpace(s, 0);
    // the first character of either is the first non-space character of s
    assert r != [] ==> s[i] == r[0];
    assert t != [] ==> s[j] == t[0];
    assert r != [] && t != [] ==> i == j;
    // and the last character of either is the last non-space character of s
    assert r != [] ==> s[i + |r| - 1] == r[|r| - 1];
    assert t != [] ==> s[j + |t| - 1] == t[|t| - 1];
    assert r != [] && t != [] ==> |r| == |t|;
  }

  /** A string with no whitespace at its edges is left alone by `strip`. */
  lemma StripNoEdgeSpace(s: string)
    requires NoEdgeSpace(s)
    ensures Strip(s) == s
  {
    assert s[0..|s|] == s;
    StripUnique(s, s, 0);
  }

  /** `strip` is idempotent. */
  lemma StripIdempotent(s: string)
    ensures Strip(Strip(s)) == Strip(s)
  {
    StripNoEdgeSpace(Strip(s));
  }

  /** Every character of `s.strip()` is a character of `s`, so `strip` cannot
      introduce a character. */
  lemma StripKeepsLacks(s: string, c: char)
    requires Lacks(s, c)
    ensures Lacks(Strip(s), c)
  {
    var r := Strip(s);
    var i := FirstNonSpace(s, 0);
    forall k | 0 <= k < |r| ensures r[k] != c {
      assert r[k] == s[i + k];
    }
  }

  /** `strip` cannot create an occurrence of a substring. */
  lemma StripKeepsAbsence(s: string, sub: string)
    requires !Contains(s, sub)
    ensures !Contains(Strip(s), sub)
  {
    var r := Strip(s);
    var i := FirstNonSpace(s, 0);
    InfixContains(s, r, i, sub);
  }
}
