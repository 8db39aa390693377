/**
 * Character classes and substring search shared by the hand-written regular-expression
 * matchers. Strings are sequences of characters (Python `str`).
 */
module Text {
  import opened Wrappers

  /** The triple backtick that opens and closes a fenced block. */
  const Fence: string := "```"

  /** `pat` occurs in `s` starting at index `k`. */
  predicate OccursAt(s: string, pat: string, k: int) {
    0 <= k && k + |pat| <= |s| && forall j :: 0 <= j < |pat| ==> s[k + j] == pat[j]
  }

  /** `pat` occurs nowhere in `s`. */
  ghost predicate Absent(s: string, pat: string) {
    forall k :: !OccursAt(s, pat, k)
  }

  /** The first index at or after `from` where `pat` occurs in `s` (Python's `str.find`). */
  function Find(s: string, pat: string, from: nat): (r: Option<nat>)
    ensures r.Some? ==> from <= r.value && OccursAt(s, pat, r.value)
    ensures forall k :: from <= k && (r.None? || k < r.value) ==> !OccursAt(s, pat, k)
    decreases |s| + 1 - from
  {
    if from + |pat| > |s| then None
    else if OccursAt(s, pat, from) then Some(from)
    else Find(s, pat, from + 1)
  }

  /** `\w` of Python's `re`, restricted to ASCII: letters, digits and underscore. */
  predicate IsWordChar(c: char) {
    'a' <= c <= 'z' || 'A' <= c <= 'Z' || '0' <= c <= '9' || c == '_'
  }

  /** `\s` of Python's `re` on `str`: exactly the characters for which `str.isspace()` holds. */
  predicate IsSpace(c: char) {
    '\t' <= c <= '\r' || '\U{1C}' <= c <= ' ' || c == '\U{85}' || c == '\U{A0}' || c == '\U{1680}'
    || '\U{2000}' <= c <= '\U{200A}' || c == '\U{2028}' || c == '\U{2029}' || c == '\U{202F}'
    || c == '\U{205F}' || c == '\U{3000}'
  }

  predicate IsQuote(c: char) {
    c == '\'' || c == '"'
  }

  /** The character classes that occur in the source's patterns. */
  datatype CharClass =
    | Space       // \s
    | NonQuote    // [^'"]
    | NonParen    // [^\)]
    | PathChar    // [\w\-\./]
    | TokenChar   // [\w\-]

  predicate InClass(cls: CharClass, c: char) {
    match cls
    case Space => IsSpace(c)
    case NonQuote => !IsQuote(c)
    case NonParen => c != ')'
    case PathChar => IsWordChar(c) || c == '-' || c == '.' || c == '/'
    case TokenChar => IsWordChar(c) || c == '-'
  }

  /** End of the longest run of `cls` characters starting at `i`: what a greedy `[...]*` consumes. */
  function RunEnd(s: string, cls: CharClass, i: nat): (j: nat)
    requires i <= |s|
    ensures i <= j <= |s|
    ensures forall q :: i <= q < j ==> InClass(cls, s[q])
    ensures j < |s| ==> !InClass(cls, s[j])
    decreases |s| - i
  {
    if i == |s| || !InClass(cls, s[i]) then i else RunEnd(s, cls, i + 1)
  }

  /** A run of class characters ended by a character outside the class ends there. */
  lemma RunEndExact(s: string, cls: CharClass, i: nat, j: nat)
    requires i <= j < |s|
    requires forall q :: i <= q < j ==> InClass(cls, s[q])
    requires !InClass(cls, s[j])
    ensures RunEnd(s, cls, i) == j
    decreases j - i
  {
    if i < j {
      RunEndExact(s, cls, i + 1, j);
    }
  }

  /** The characters of a slice are those of the stretch it copies. */
  lemma SliceInClass(s: string, cls: CharClass, a: nat, b: nat)
    requires a <= b <= |s|
    requires forall q :: a <= q < b ==> InClass(cls, s[q])
    ensures forall j :: 0 <= j < |s[a..b]| ==> InClass(cls, s[a..b][j])
  {
    forall j | 0 <= j < |s[a..b]|
      ensures InClass(cls, s[a..b][j])
    {
      assert s[a..b][j] == s[a + j];
    }
  }

  /**
   * Index of the first alternative of `(?:a0|a1|...)` that occurs at `pos`, trying the
   * alternatives left to right from index `j` as a backtracking regex engine does.
   */
  function FirstAlt(alts: seq<string>, text: string, pos: nat, j: nat := 0): (r: Option<nat>)
    requires j <= |alts|
    ensures r.Some? ==> j <= r.value < |alts| && OccursAt(text, alts[r.value], pos)
    ensures forall i :: j <= i < |alts| && (r.None? || i < r.value) ==> !OccursAt(text, alts[i], pos)
    decreases |alts| - j
  {
    if j == |alts| then None
    else if OccursAt(text, alts[j], pos) then Some(j)
    else FirstAlt(alts, text, pos, j + 1)
  }

  /**
   * The largest `q` in `[lo, hi]` at which `f` succeeds. A greedy quantifier first takes
   * the longest run it can and then gives characters back one at a time until the rest of
   * the pattern matches: the split point it settles on is this `q`.
   */
  function LastHit<T>(f: nat -> Option<T>, lo: nat, hi: nat): (r: Option<nat>)
    requires lo <= hi
    ensures r.Some? ==> lo <= r.value <= hi && f(r.value).Some?
    ensures forall q: nat :: lo <= q <= hi && (r.None? || r.value < q) ==> f(q).None?
    decreases hi
  {
    if f(hi).Some? then Some(hi)
    else if hi == lo then None
    else LastHit(f, lo, hi - 1)
  }

  /** Occurrence is a property of the characters from `k` on: a prefix shifts it. */
  lemma OccursAtShift(pre: string, s: string, pat: string, k: nat)
    ensures OccursAt(pre + s, pat, |pre| + k) <==> OccursAt(s, pat, k)
  {
    if k + |pat| <= |s| {
      assert forall j :: 0 <= j < |pat| ==> ((pre + s)[|pre| + k + j] == pat[j] <==> s[k + j] == pat[j]);
    }
  }

  /** Searching after a prefix finds the shifted occurrence. */
  lemma {:induction false} FindShift(pre: string, s: string, pat: string, from: nat)
    ensures Find(pre + s, pat, |pre| + from) == (match Find(s, pat, from)
                                                  case None => None
                                                  case Some(k) => Some(|pre| + k))
    decreases |s| + 1 - from
  {
    OccursAtShift(pre, s, pat, from);
    if from + |pat| <= |s| && !OccursAt(s, pat, from) {
      FindShift(pre, s, pat, from + 1);
    }
  }

  lemma {:induction false} FirstAltShift(alts: seq<string>, pre: string, s: string, pos: nat, j: nat)
    requires j <= |alts|
    ensures FirstAlt(alts, pre + s, |pre| + pos, j) == FirstAlt(alts, s, pos, j)
    decreases |alts| - j
  {
    if j < |alts| {
      OccursAtShift(pre, s, alts[j], pos);
      FirstAltShift(alts, pre, s, pos, j + 1);
    }
  }

  /** Two occurrences side by side are an occurrence of the concatenation. */
  lemma OccursConcat(s: string, a: string, b: string, k: nat)
    requires OccursAt(s, a, k) && OccursAt(s, b, k + |a|)
    ensures OccursAt(s, a + b, k)
  {
    forall j | 0 <= j < |a + b|
      ensures s[k + j] == (a + b)[j]
    {
      if j >= |a| {
        assert s[k + |a| + (j - |a|)] == b[j - |a|];
      }
    }
  }

  /**
   * Where `p` is a copy of the characters of `s` from `i` on, an occurrence inside `p` is
   * one in `s`, and back.
   */
  lemma OccursInCopy(p: string, s: string, i: nat, pat: string, k: nat)
    requires i + |p| <= |s|
    requires forall x :: 0 <= x < |p| ==> p[x] == s[i + x]
    requires k + |pat| <= |p|
    ensures OccursAt(p, pat, k) <==> OccursAt(s, pat, i + k)
  {
    assert forall j :: 0 <= j < |pat| ==> (p[k + j] == pat[j] <==> s[i + k + j] == pat[j]);
  }

  /** The second of four concatenated strings is found where it was put. */
  lemma MiddleSlice(a: string, b: string, c: string, d: string)
    ensures ((a + b + c) + d)[|a|..|a| + |b|] == b
  {
    var x := (a + b + c) + d;
    forall i | 0 <= i < |b|
      ensures x[|a|..|a| + |b|][i] == b[i]
    {
    }
  }

  /** `Find` returns the first occurrence at or after `from`. */
  lemma FindFirst(s: string, pat: string, from: nat, e: nat)
    requires from <= e && OccursAt(s, pat, e)
    requires forall k :: from <= k < e ==> !OccursAt(s, pat, k)
    ensures Find(s, pat, from) == Some(e)
  {
  }
}
