/**
 * `re.findall` as a scan over an arbitrary matcher: try the matcher at each position from
 * left to right, report a match and resume at its end, otherwise move one position on.
 */
module Scan {
  import opened Wrappers

  /**
   * A match: the pattern matched `text[start..end]`; `findall` reports `text[groupStart..groupEnd]`
   * (the capturing group, or the whole match for a pattern without one).
   */
  datatype Match = Match(start: nat, end: nat, groupStart: nat, groupEnd: nat)

  /** A match found at `pos` is non-empty, lies inside the text and holds its group. */
  predicate Fits(text: string, pos: nat, m: Match) {
    m.start == pos && pos < m.end <= |text| && pos <= m.groupStart <= m.groupEnd <= m.end
  }

  /** A matcher answers, for a text and a position, which match starts exactly there. */
  type Matcher = (string, nat) -> Option<Match>

  ghost predicate WellBehaved(matcher: Matcher) {
    forall text, pos :: matcher(text, pos).Some? ==> Fits(text, pos, matcher(text, pos).value)
  }

  /** The matches `findall` reports when the scan starts at `pos`. */
  function FindAllFrom(matcher: Matcher, text: string, pos: nat): (r: seq<Match>)
    requires WellBehaved(matcher)
    ensures forall i :: 0 <= i < |r| ==> pos <= r[i].start && Fits(text, r[i].start, r[i])
    decreases |text| + 1 - pos
  {
    if pos > |text| then []
    else
      match matcher(text, pos)
      case None => FindAllFrom(matcher, text, pos + 1)
      case Some(m) => [m] + FindAllFrom(matcher, text, m.end)
  }

  /** The group text of each match, as `re.findall` returns it. */
  function GroupTexts(text: string, ms: seq<Match>): (r: seq<string>)
    requires forall i :: 0 <= i < |ms| ==> ms[i].groupStart <= ms[i].groupEnd <= |text|
    ensures |r| == |ms|
    ensures forall i :: 0 <= i < |ms| ==> r[i] == text[ms[i].groupStart..ms[i].groupEnd]
  {
    seq(|ms|, i requires 0 <= i < |ms| => text[ms[i].groupStart..ms[i].groupEnd])
  }

  lemma GroupTextsCons(text: string, m: Match, ms: seq<Match>)
    requires m.groupStart <= m.groupEnd <= |text|
    requires forall i :: 0 <= i < |ms| ==> ms[i].groupStart <= ms[i].groupEnd <= |text|
    ensures GroupTexts(text, [m] + ms) == [text[m.groupStart..m.groupEnd]] + GroupTexts(text, ms)
  {
  }

  /** What `re.findall` returns for the pattern of `matcher`. */
  function FindAllGroups(matcher: Matcher, text: string): seq<string>
    requires WellBehaved(matcher)
  {
    GroupTexts(text, FindAllFrom(matcher, text, 0))
  }

  /** Matches are reported in text order and do not overlap. */
  ghost predicate Ordered(ms: seq<Match>) {
    forall i :: 0 <= i < |ms| - 1 ==> ms[i].end <= ms[i + 1].start
  }

  /** Position `q` lies inside one of the matches. */
  ghost predicate Covered(ms: seq<Match>, q: nat) {
    exists i :: 0 <= i < |ms| && ms[i].start <= q < ms[i].end
  }

  /** Every position from `pos` on where the matcher succeeds lies inside a reported match. */
  ghost predicate Covers(matcher: Matcher, text: string, pos: nat, ms: seq<Match>) {
    forall q: nat :: pos <= q && matcher(text, q).Some? ==> Covered(ms, q)
  }

  /** A leftmost, non-overlapping scan from `pos`: what `findall` promises. */
  ghost predicate LeftmostScan(matcher: Matcher, text: string, pos: nat, ms: seq<Match>) {
    && (forall i :: 0 <= i < |ms| ==> pos <= ms[i].start && matcher(text, ms[i].start) == Some(ms[i]))
    && Ordered(ms)
    && Covers(matcher, text, pos, ms)
  }

  /** Each reported match is the one the matcher finds at its start. */
  lemma {:induction false} FindAllFound(matcher: Matcher, text: string, pos: nat)
    requires WellBehaved(matcher)
    ensures forall i :: 0 <= i < |FindAllFrom(matcher, text, pos)| ==>
              matcher(text, FindAllFrom(matcher, text, pos)[i].start) == Some(FindAllFrom(matcher, text, pos)[i])
    decreases |text| + 1 - pos
  {
    if pos <= |text| {
      match matcher(text, pos)
      case None =>
        FindAllFound(matcher, text, pos + 1);
        FindAllStep(matcher, text, pos);
      case Some(m) =>
        FindAllFound(matcher, text, m.end);
        var rest := FindAllFrom(matcher, text, m.end);
        var r := FindAllFrom(matcher, text, pos);
        assert r == [m] + rest;
        assert m.start == pos;
        forall i | 0 < i < |r|
          ensures matcher(text, r[i].start) == Some(r[i])
        {
          assert r[i] == rest[i - 1];
          assert matcher(text, rest[i - 1].start) == Some(rest[i - 1]);
        }
    }
  }

  lemma {:induction false} FindAllOrdered(matcher: Matcher, text: string, pos: nat)
    requires WellBehaved(matcher)
    ensures Ordered(FindAllFrom(matcher, text, pos))
    decreases |text| + 1 - pos
  {
    if pos <= |text| {
      match matcher(text, pos)
      case None => FindAllOrdered(matcher, text, pos + 1);
      case Some(m) => FindAllOrdered(matcher, text, m.end);
    }
  }

  lemma {:induction false} FindAllCovers(matcher: Matcher, text: string, pos: nat)
    requires WellBehaved(matcher)
    ensures Covers(matcher, text, pos, FindAllFrom(matcher, text, pos))
    decreases |text| + 1 - pos
  {
    if pos <= |text| {
      match matcher(text, pos)
      case None =>
        FindAllCovers(matcher, text, pos + 1);
      case Some(m) =>
        FindAllCovers(matcher, text, m.end);
        CoversCons(matcher, text, pos, m, FindAllFrom(matcher, text, m.end));
    } else {
      forall q: nat | pos <= q
        ensures matcher(text, q).None?
      {
        NoMatchAtEnd(matcher, text, q);
      }
    }
  }

  /** No match starts at or after the end of the text. */
  lemma NoMatchAtEnd(matcher: Matcher, text: string, q: nat)
    requires WellBehaved(matcher)
    requires |text| <= q
    ensures matcher(text, q).None?
  {
  }

  /** A match at `pos` followed by a covering scan from its end covers everything from `pos`. */
  lemma CoversCons(matcher: Matcher, text: string, pos: nat, m: Match, rest: seq<Match>)
    requires m.start == pos
    requires Covers(matcher, text, m.end, rest)
    ensures Covers(matcher, text, pos, [m] + rest)
  {
    var r := [m] + rest;
    forall q: nat | pos <= q && matcher(text, q).Some?
      ensures Covered(r, q)
    {
      if q < m.end {
        assert r[0].start <= q < r[0].end;
      } else {
        assert Covered(rest, q);
        var i :| 0 <= i < |rest| && rest[i].start <= q < rest[i].end;
        assert r[i + 1] == rest[i];
      }
    }
  }

  /** `FindAllFrom` is a leftmost, non-overlapping scan. */
  lemma FindAllIsLeftmostScan(matcher: Matcher, text: string, pos: nat)
    requires WellBehaved(matcher)
    ensures LeftmostScan(matcher, text, pos, FindAllFrom(matcher, text, pos))
  {
    FindAllFound(matcher, text, pos);
    FindAllOrdered(matcher, text, pos);
    FindAllCovers(matcher, text, pos);
  }

  /** ... and the only one: any leftmost, non-overlapping scan from `pos` is `FindAllFrom`. */
  lemma {:induction false} LeftmostScanUnique(matcher: Matcher, text: string, pos: nat, ms: seq<Match>)
    requires WellBehaved(matcher)
    requires LeftmostScan(matcher, text, pos, ms)
    ensures ms == FindAllFrom(matcher, text, pos)
    decreases |text| + 1 - pos
  {
    if pos > |text| {
      if |ms| > 0 {
        NoMatchAtEnd(matcher, text, ms[0].start);
      }
    } else {
      FindAllStep(matcher, text, pos);
      match matcher(text, pos)
      case None =>
        ScanSkip(matcher, text, pos, ms);
        LeftmostScanUnique(matcher, text, pos + 1, ms);
      case Some(m) =>
        ScanHead(matcher, text, pos, ms);
        LeftmostScanUnique(matcher, text, m.end, ms[1..]);
        assert ms == [m] + ms[1..];
    }
  }

  /** A leftmost scan from a position where the matcher fails is also one from the next position. */
  lemma ScanSkip(matcher: Matcher, text: string, pos: nat, ms: seq<Match>)
    requires LeftmostScan(matcher, text, pos, ms)
    requires matcher(text, pos).None?
    ensures LeftmostScan(matcher, text, pos + 1, ms)
  {
    forall i | 0 <= i < |ms|
      ensures pos + 1 <= ms[i].start
    {
      assert matcher(text, ms[i].start).Some?;
    }
  }

  /** A leftmost scan from a position where the matcher succeeds begins with that match. */
  lemma ScanHead(matcher: Matcher, text: string, pos: nat, ms: seq<Match>)
    requires WellBehaved(matcher)
    requires LeftmostScan(matcher, text, pos, ms)
    requires matcher(text, pos).Some?
    ensures |ms| > 0 && ms[0] == matcher(text, pos).value
    ensures LeftmostScan(matcher, text, ms[0].end, ms[1..])
  {
    ScanFirst(matcher, text, pos, ms);
    ScanRestAfter(matcher, text, ms);
    ScanRestCovers(matcher, text, pos, ms);
  }

  lemma ScanFirst(matcher: Matcher, text: string, pos: nat, ms: seq<Match>)
    requires WellBehaved(matcher)
    requires LeftmostScan(matcher, text, pos, ms)
    requires matcher(text, pos).Some?
    ensures |ms| > 0 && ms[0] == matcher(text, pos).value
  {
    assert Covered(ms, pos);
    var i :| 0 <= i < |ms| && ms[i].start <= pos < ms[i].end;
    if i > 0 {
      OrderedStarts(matcher, text, ms, 0, i);
    }
    assert ms[0].start == pos;
  }

  lemma ScanRestAfter(matcher: Matcher, text: string, ms: seq<Match>)
    requires WellBehaved(matcher)
    requires Ordered(ms) && |ms| > 0
    requires forall k :: 0 <= k < |ms| ==> matcher(text, ms[k].start) == Some(ms[k])
    ensures forall j :: 1 <= j < |ms| ==> ms[0].end <= ms[j].start
  {
    forall j | 1 <= j < |ms|
      ensures ms[0].end <= ms[j].start
    {
      OrderedStarts(matcher, text, ms, 0, j);
    }
  }

  lemma ScanRestCovers(matcher: Matcher, text: string, pos: nat, ms: seq<Match>)
    requires Covers(matcher, text, pos, ms) && |ms| > 0 && pos <= ms[0].end
    ensures Covers(matcher, text, ms[0].end, ms[1..])
  {
    var rest := ms[1..];
    forall q: nat | ms[0].end <= q && matcher(text, q).Some?
      ensures Covered(rest, q)
    {
      assert Covered(ms, q);
      var k :| 0 <= k < |ms| && ms[k].start <= q < ms[k].end;
      if k == 0 {
        assert false;
      }
      assert rest[k - 1] == ms[k];
    }
  }

  /** In an ordered sequence of reported matches, a later match starts after an earlier one ends. */
  lemma {:induction false} OrderedStarts(matcher: Matcher, text: string, ms: seq<Match>, i: nat, j: nat)
    requires WellBehaved(matcher)
    requires Ordered(ms)
    requires forall k :: 0 <= k < |ms| ==> matcher(text, ms[k].start) == Some(ms[k])
    requires i < j < |ms|
    ensures ms[i].end <= ms[j].start
    decreases j - i
  {
    assert Fits(text, ms[i + 1].start, ms[i + 1]);
    if j > i + 1 {
      OrderedStarts(matcher, text, ms, i + 1, j);
    }
  }

  // ---------------------------------------------------------------- prefixes and skipped stretches

  function ShiftMatch(m: Match, d: nat): Match {
    Match(m.start + d, m.end + d, m.groupStart + d, m.groupEnd + d)
  }

  function ShiftAll(ms: seq<Match>, d: nat): (r: seq<Match>)
    ensures |r| == |ms| && forall i :: 0 <= i < |ms| ==> r[i] == ShiftMatch(ms[i], d)
  {
    seq(|ms|, i requires 0 <= i < |ms| => ShiftMatch(ms[i], d))
  }

  /** The matcher looks only at the text from the tried position on, so a prefix just shifts its matches. */
  ghost predicate PrefixShifts(matcher: Matcher, pre: string, s: string) {
    forall q: nat :: matcher(pre + s, |pre| + q) == ShiftOption(matcher(s, q), |pre|)
  }

  function ShiftOption(o: Option<Match>, d: nat): Option<Match> {
    match o
    case None => None
    case Some(m) => Some(ShiftMatch(m, d))
  }

  lemma {:induction false} FindAllShift(matcher: Matcher, pre: string, s: string, q: nat)
    requires WellBehaved(matcher)
    requires PrefixShifts(matcher, pre, s)
    ensures FindAllFrom(matcher, pre + s, |pre| + q) == ShiftAll(FindAllFrom(matcher, s, q), |pre|)
    decreases |s| + 1 - q
  {
    var text := pre + s;
    if q <= |s| {
      assert matcher(text, |pre| + q) == ShiftOption(matcher(s, q), |pre|);
      match matcher(s, q)
      case None =>
        FindAllShift(matcher, pre, s, q + 1);
        ShiftSkip(matcher, text, s, |pre|, q);
      case Some(m) =>
        FindAllShift(matcher, pre, s, m.end);
        ShiftReport(matcher, text, s, |pre|, q);
    }
  }

  /** The step of FindAllShift where neither text matches at the tried position. */
  lemma ShiftSkip(matcher: Matcher, text: string, s: string, d: nat, q: nat)
    requires WellBehaved(matcher) && q <= |s| && |text| == d + |s|
    requires matcher(s, q).None? && matcher(text, d + q).None?
    requires FindAllFrom(matcher, text, d + q + 1) == ShiftAll(FindAllFrom(matcher, s, q + 1), d)
    ensures FindAllFrom(matcher, text, d + q) == ShiftAll(FindAllFrom(matcher, s, q), d)
  {
    FindAllStep(matcher, text, d + q);
    FindAllStep(matcher, s, q);
  }

  /** The step of FindAllShift where both texts report the same match, shifted. */
  lemma ShiftReport(matcher: Matcher, text: string, s: string, d: nat, q: nat)
    requires WellBehaved(matcher) && q <= |s| && |text| == d + |s|
    requires matcher(s, q).Some? && matcher(text, d + q) == Some(ShiftMatch(matcher(s, q).value, d))
    requires FindAllFrom(matcher, text, d + matcher(s, q).value.end) == ShiftAll(FindAllFrom(matcher, s, matcher(s, q).value.end), d)
    ensures FindAllFrom(matcher, text, d + q) == ShiftAll(FindAllFrom(matcher, s, q), d)
  {
    var m := matcher(s, q).value;
    FindAllStep(matcher, text, d + q);
    FindAllStep(matcher, s, q);
    ConsShift(FindAllFrom(matcher, text, d + q), FindAllFrom(matcher, text, d + m.end),
              FindAllFrom(matcher, s, q), FindAllFrom(matcher, s, m.end), m, d);
  }

  lemma ConsShift(a: seq<Match>, b: seq<Match>, c: seq<Match>, e: seq<Match>, m: Match, d: nat)
    requires a == [ShiftMatch(m, d)] + b && c == [m] + e && b == ShiftAll(e, d)
    ensures a == ShiftAll(c, d)
  {
    ShiftAllCons(m, e, d);
  }

  /** One step of the scan from a position inside the text (or just past it). */
  lemma FindAllStep(matcher: Matcher, text: string, pos: nat)
    requires WellBehaved(matcher) && pos <= |text|
    ensures matcher(text, pos).None? ==> FindAllFrom(matcher, text, pos) == FindAllFrom(matcher, text, pos + 1)
    ensures matcher(text, pos).Some? ==>
              FindAllFrom(matcher, text, pos) == [matcher(text, pos).value] + FindAllFrom(matcher, text, matcher(text, pos).value.end)
  {
  }

  lemma ShiftAllCons(m: Match, ms: seq<Match>, d: nat)
    ensures ShiftAll([m] + ms, d) == [ShiftMatch(m, d)] + ShiftAll(ms, d)
  {
  }

  /** Shifted matches in the longer text report the same group texts. */
  lemma GroupsShift(pre: string, s: string, ms: seq<Match>)
    requires forall i :: 0 <= i < |ms| ==> ms[i].groupStart <= ms[i].groupEnd <= |s|
    ensures GroupTexts(pre + s, ShiftAll(ms, |pre|)) == GroupTexts(s, ms)
  {
    var shifted := ShiftAll(ms, |pre|);
    forall i | 0 <= i < |ms|
      ensures (pre + s)[shifted[i].groupStart..shifted[i].groupEnd] == s[ms[i].groupStart..ms[i].groupEnd]
    {
      assert shifted[i].groupStart == |pre| + ms[i].groupStart;
    }
  }

  /** Positions where the matcher fails are skipped without reporting anything. */
  lemma {:induction false} FindAllSkip(matcher: Matcher, text: string, pos: nat, to: nat)
    requires WellBehaved(matcher)
    requires pos <= to
    requires forall q: nat :: pos <= q < to ==> matcher(text, q).None?
    ensures FindAllFrom(matcher, text, pos) == FindAllFrom(matcher, text, to)
    decreases (to as int) - (pos as int)
  {
    if pos < to && pos <= |text| {
      FindAllSkip(matcher, text, pos + 1, to);
    } else if pos < to {
      assert FindAllFrom(matcher, text, to) == [];
    }
  }

  /** A pattern that matches nowhere in the text finds nothing. */
  lemma NowhereNothing(matcher: Matcher, text: string)
    requires WellBehaved(matcher)
    requires forall q: nat :: q < |text| ==> matcher(text, q).None?
    ensures FindAllFrom(matcher, text, 0) == []
  {
    FindAllSkip(matcher, text, 0, |text|);
    NoMatchAtEnd(matcher, text, |text|);
    FindAllStep(matcher, text, |text|);
  }

  /** The `i`-th group `findall` returns and the match it comes from. */
  lemma GroupAt(matcher: Matcher, text: string, i: nat)
    requires WellBehaved(matcher) && i < |FindAllGroups(matcher, text)|
    ensures var m := FindAllFrom(matcher, text, 0)[i];
            && matcher(text, m.start) == Some(m)
            && FindAllGroups(matcher, text)[i] == text[m.groupStart..m.groupEnd]
  {
    FindAllFound(matcher, text, 0);
  }
}
