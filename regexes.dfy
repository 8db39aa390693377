/**
 * The five regular expressions of examples/parse_output.py, each as a hand-written matcher
 * that answers: which match, if any, does Python's `re` engine find when it tries the
 * pattern at exactly this position? Greedy quantifiers and backtracking are spelled out.
 */
module Regexes {
  import opened Wrappers
  import opened Text
  import opened Scan

  // ---------------------------------------------------------------- fenced blocks

  const YamlOpenings: seq<string> := ["```yaml\n"]
  /** `(?:js|javascript)` tries `js` first. */
  const JsOpenings: seq<string> := ["```js\n", "```javascript\n"]

  /**
   * An opening fence at `pos`, then the lazy `[\s\S]*?`: the body ends at the first
   * triple backtick after the opening fence, which also ends the match.
   */
  function FenceAt(openings: seq<string>, text: string, pos: nat): (r: Option<Match>)
    ensures r.Some? ==> Fits(text, pos, r.value)
  {
    match FirstAlt(openings, text, pos)
    case None => None
    case Some(t) =>
      var body := pos + |openings[t]|;
      match Find(text, Fence, body)
      case None => None
      case Some(e) => Some(Match(pos, e + |Fence|, body, e))
  }

  /** The matcher of ```yaml\n([\s\S]*?)``` or ```(?:js|javascript)\n([\s\S]*?)```. */
  function FenceMatcher(openings: seq<string>): (m: Matcher)
    ensures WellBehaved(m)
  {
    (text: string, pos: nat) => FenceAt(openings, text, pos)
  }

  // ---------------------------------------------------------------- page.screenshot(... path: '...')

  const CallPrefix: string := "page.screenshot("
  const PathKey: string := "path"

  /**
   * The text at `k` reads `path`, optional white space, `:`, optional white space, a quote,
   * a non-empty run of non-quotes (the group) and a quote, as the match `m` delimits it.
   */
  ghost predicate PathShape(code: string, k: nat, m: Match) {
    && OccursAt(code, PathKey, k)
    && m.start == k && k + |PathKey| < m.groupStart < m.groupEnd < |code| && m.end == m.groupEnd + 1
    && IsQuote(code[m.groupStart - 1]) && IsQuote(code[m.groupEnd])
    && (forall q :: m.groupStart <= q < m.groupEnd ==> !IsQuote(code[q]))
    && exists colon :: KeyColon(code, m, colon)
  }

  /** Between the key and the opening quote of `m`: white space, the colon at `colon`, white space. */
  predicate KeyColon(code: string, m: Match, colon: int) {
    && m.start + |PathKey| <= colon < m.groupStart - 1 && m.groupStart <= |code| && code[colon] == ':'
    && (forall q :: m.start + |PathKey| <= q < colon ==> IsSpace(code[q]))
    && (forall q :: colon < q < m.groupStart - 1 ==> IsSpace(code[q]))
  }

  /**
   * The tail `path\s*:\s*['"]([^'"]+)['"]` matched at `k`. Each `\s*` and `[^'"]+` is greedy
   * and no shorter choice can let the next item match, so the match is unique.
   */
  function PathTailAt(code: string, k: nat): (r: Option<Match>)
    ensures r.Some? ==> Fits(code, k, r.value) && PathShape(code, k, r.value)
  {
    if !OccursAt(code, PathKey, k) then None
    else
      var colon := RunEnd(code, Space, k + |PathKey|);
      if colon < |code| && code[colon] == ':' then
        var quote := RunEnd(code, Space, colon + 1);
        if quote < |code| && IsQuote(code[quote]) then
          var e := RunEnd(code, NonQuote, quote + 1);
          if quote + 1 < e < |code| then
            assert KeyColon(code, Match(k, e + 1, quote + 1, e), colon);
            Some(Match(k, e + 1, quote + 1, e))
          else None
        else None
      else None
  }

  /** ... and the only match of that shape: the tail matches exactly where the text has it. */
  lemma PathTailExact(code: string, k: nat, m: Match)
    requires PathShape(code, k, m)
    ensures PathTailAt(code, k) == Some(m)
  {
    var colon :| KeyColon(code, m, colon);
    ShapeRuns(code, k, m, colon);
    TailFromRuns(code, k, m, colon);
  }

  /** Once the three runs are known to stop at the colon and the quotes, the tail yields `m`. */
  lemma TailFromRuns(code: string, k: nat, m: Match, colon: nat)
    requires OccursAt(code, PathKey, k) && m.start == k && m.end == m.groupEnd + 1
    requires k + |PathKey| <= colon < m.groupStart - 1 && m.groupStart < m.groupEnd < |code|
    requires code[colon] == ':' && IsQuote(code[m.groupStart - 1])
    requires RunEnd(code, Space, k + |PathKey|) == colon
    requires RunEnd(code, Space, colon + 1) == m.groupStart - 1
    requires RunEnd(code, NonQuote, m.groupStart) == m.groupEnd
    ensures PathTailAt(code, k) == Some(m)
  {
    var quote := m.groupStart - 1;
    assert IsQuote(code[quote]) && quote + 1 < m.groupEnd < |code|;
    assert PathTailAt(code, k) == Some(Match(k, m.groupEnd + 1, quote + 1, m.groupEnd));
  }

  /** The three greedy runs of the tail stop exactly at the colon, the quote and the closing quote. */
  lemma ShapeRuns(code: string, k: nat, m: Match, colon: nat)
    requires PathShape(code, k, m) && KeyColon(code, m, colon)
    ensures RunEnd(code, Space, k + |PathKey|) == colon
    ensures RunEnd(code, Space, colon + 1) == m.groupStart - 1
    ensures RunEnd(code, NonQuote, m.groupStart) == m.groupEnd
  {
    assert !IsSpace(':');
    RunEndExact(code, Space, k + |PathKey|, colon);
    assert !IsSpace('\'') && !IsSpace('"');
    RunEndExact(code, Space, colon + 1, m.groupStart - 1);
    RunEndExact(code, NonQuote, m.groupStart, m.groupEnd);
  }

  /** No `)` in `code[from..to]`: a stretch the greedy `[^\)]*` can consume. */
  predicate ParenFree(code: string, from: nat, to: nat) {
    from <= to <= |code| && forall q :: from <= q < to ==> code[q] != ')'
  }

  /**
   * Where `[^\)]*`, started at `args`, hands over to the tail: the last paren-free split
   * point at which the tail matches, found by giving back one character at a time.
   */
  function PathSplit(code: string, args: nat): (r: Option<nat>)
    requires args <= |code|
    ensures r.Some? ==> ParenFree(code, args, r.value) && PathTailAt(code, r.value).Some?
    ensures forall k: nat :: ParenFree(code, args, k) && (r.None? || r.value < k) ==> PathTailAt(code, k).None?
  {
    ParenFreeWithinRun(code, args);
    var tail := (k: nat) => PathTailAt(code, k);
    assert forall k: nat :: tail(k) == PathTailAt(code, k);
    LastHit(tail, args, RunEnd(code, NonParen, args))
  }

  /** A paren-free stretch from `args` ends no later than the run of non-parens does. */
  lemma ParenFreeWithinRun(code: string, args: nat)
    requires args <= |code|
    ensures forall k: nat :: ParenFree(code, args, k) ==> k <= RunEnd(code, NonParen, args)
  {
    var hi := RunEnd(code, NonParen, args);
    assert hi < |code| ==> code[hi] == ')';
  }

  function ScreenshotCallAt(code: string, pos: nat): (r: Option<Match>)
    ensures r.Some? ==> Fits(code, pos, r.value)
    ensures r.Some? ==> OccursAt(code, CallPrefix, pos)
    ensures r.Some? ==> var k := PathSplit(code, pos + |CallPrefix|);
              k.Some? && PathTailAt(code, k.value) == Some(Match(k.value, r.value.end, r.value.groupStart, r.value.groupEnd))
  {
    if !OccursAt(code, CallPrefix, pos) then None
    else
      match PathSplit(code, pos + |CallPrefix|)
      case None => None
      case Some(k) =>
        var t := PathTailAt(code, k).value;
        Some(Match(pos, t.end, t.groupStart, t.groupEnd))
  }

  /** The matcher of page\.screenshot\([^\)]*path\s*:\s*['"]([^'"]+)['"]. */
  function ScreenshotCallMatcher(): (m: Matcher)
    ensures WellBehaved(m)
  {
    (code: string, pos: nat) => ScreenshotCallAt(code, pos)
  }

  // ---------------------------------------------------------------- generic image file names

  /** `(?:png|jpg|jpeg|gif|webp)`, in the order the alternation tries them. */
  const ImageExts: seq<string> := ["png", "jpg", "jpeg", "gif", "webp"]

  /** The lower-case letters of the extensions. */
  lemma ExtsLowerCase()
    ensures forall x, j :: 0 <= x < |ImageExts| && 0 <= j < |ImageExts[x]| ==> 'a' <= ImageExts[x][j] <= 'z'
  {
    forall x, j | 0 <= x < |ImageExts| && 0 <= j < |ImageExts[x]|
      ensures 'a' <= ImageExts[x][j] <= 'z'
    {
      if x == 0 {} else if x == 1 {} else if x == 2 {} else if x == 3 {} else {}
    }
  }

  /** A `.` at `q` followed by a lower-case image extension: which one, if so. */
  function DotExtAt(text: string, q: nat): (r: Option<nat>)
    ensures r.Some? ==> r.value < |ImageExts| && OccursAt(text, "." + ImageExts[r.value], q)
    ensures r.Some? ==> q < |text| && text[q] == '.'
  {
    if q < |text| && text[q] == '.' then
      match FirstAlt(ImageExts, text, q + 1)
      case None => None
      case Some(x) =>
        var dotted := "." + ImageExts[x];
        assert forall j :: 1 <= j < |dotted| ==> text[q + 1 + (j - 1)] == dotted[j];
        Some(x)
    else None
  }

  function ImageNameAt(text: string, pos: nat): (r: Option<Match>)
    ensures r.Some? ==> Fits(text, pos, r.value)
    ensures r.Some? ==> r.value.groupStart == pos && r.value.groupEnd == r.value.end
    ensures r.Some? ==> forall q :: pos <= q < r.value.end ==> InClass(PathChar, text[q])
    ensures r.Some? ==> exists x :: 0 <= x < |ImageExts| && DotExtEnds(text, pos, r.value.end, ImageExts[x])
  {
    if pos >= |text| then None
    else
      var run := RunEnd(text, PathChar, pos);
      if run == pos then None
      else
        match DotSplit(text, pos + 1, run)
        case None => None
        case Some(q) =>
          var x := DotExtAt(text, q).value;
          var e := q + 1 + |ImageExts[x]|;
          NameEndsInExt(text, pos, q, x);
          Some(Match(pos, e, pos, e))
  }

  /**
   * Where `[\w\-\./]+` hands over to `\.(?:png|...)`: the last position in `[lo, hi]` holding a
   * `.` and an extension, found by giving back one character at a time.
   */
  function DotSplit(text: string, lo: nat, hi: nat): (r: Option<nat>)
    requires lo <= hi
    ensures r.Some? ==> lo <= r.value <= hi && DotExtAt(text, r.value).Some?
    ensures forall q: nat :: lo <= q <= hi && (r.None? || r.value < q) ==> DotExtAt(text, q).None?
  {
    var dot := (q: nat) => DotExtAt(text, q);
    assert forall q: nat :: dot(q) == DotExtAt(text, q);
    LastHit(dot, lo, hi)
  }

  /** `text[pos..e]` is a name the pattern could match: path characters ending in `.` and an extension. */
  predicate NameAt(text: string, pos: nat, e: nat) {
    && e <= |text|
    && (forall q :: pos <= q < e ==> InClass(PathChar, text[q]))
    && exists x :: 0 <= x < |ImageExts| && DotExtEnds(text, pos, e, ImageExts[x])
  }

  /** At most one extension starts at a position: each is fixed by its first three letters. */
  lemma ExtUnique(text: string, k: nat, x: nat, y: nat)
    requires x < |ImageExts| && y < |ImageExts|
    requires OccursAt(text, ImageExts[x], k) && OccursAt(text, ImageExts[y], k)
    ensures x == y
  {
    assert text[k] == ImageExts[x][0] == ImageExts[y][0];
    assert text[k + 1] == ImageExts[x][1] == ImageExts[y][1];
    assert text[k + 2] == ImageExts[x][2] == ImageExts[y][2];
  }

  /** The dot of a candidate name, where `DotExtAt` finds the candidate's extension. */
  lemma NameDot(text: string, pos: nat, e: nat) returns (q: nat)
    requires NameAt(text, pos, e)
    ensures pos < q < e <= |text| && text[q] == '.'
    ensures DotExtAt(text, q).Some? && e == q + 1 + |ImageExts[DotExtAt(text, q).value]|
    ensures forall i :: q < i < e ==> text[i] != '.'
  {
    var x :| 0 <= x < |ImageExts| && DotExtEnds(text, pos, e, ImageExts[x]);
    q := e - 1 - |ImageExts[x]|;
    DottedExt(text, q, x);
    DotExtFound(text, q, x);
  }

  /** Where a `.` and an extension occur, `DotExtAt` finds exactly that extension. */
  lemma DotExtFound(text: string, q: nat, x: nat)
    requires x < |ImageExts| && q < |text| && text[q] == '.' && OccursAt(text, ImageExts[x], q + 1)
    ensures DotExtAt(text, q) == Some(x)
  {
    var y := FirstAlt(ImageExts, text, q + 1).value;
    ExtUnique(text, q + 1, x, y);
  }

  /** A `.` and an extension at `q`: the dot, then extension letters, none of them a dot. */
  lemma DottedExt(text: string, q: nat, x: nat)
    requires x < |ImageExts| && OccursAt(text, "." + ImageExts[x], q)
    ensures text[q] == '.' && OccursAt(text, ImageExts[x], q + 1)
    ensures forall i :: q < i <= q + |ImageExts[x]| ==> text[i] != '.'
  {
    var ext := ImageExts[x];
    var dotted := "." + ext;
    assert text[q] == dotted[0];
    forall j | 0 <= j < |ext|
      ensures text[q + 1 + j] == ext[j]
    {
      assert text[q + (j + 1)] == dotted[j + 1];
    }
    ExtsLowerCase();
    forall i | q < i <= q + |ext|
      ensures text[i] != '.'
    {
      assert text[q + 1 + (i - q - 1)] == ext[i - q - 1];
    }
  }

  /** Path characters from `pos` to `e` lie inside the greedy run from `pos`. */
  lemma WithinRun(text: string, pos: nat, e: nat)
    requires pos <= e <= |text| && forall q :: pos <= q < e ==> InClass(PathChar, text[q])
    ensures e <= RunEnd(text, PathChar, pos)
  {
  }

  /** A match is a candidate name, and no candidate at `pos` is longer. */
  lemma FoundIsLongest(text: string, pos: nat, e: nat)
    requires ImageNameAt(text, pos) == Some(Match(pos, e, pos, e))
    ensures NameAt(text, pos, e)
    ensures forall e' :: e < e' ==> !NameAt(text, pos, e')
  {
    var run := RunEnd(text, PathChar, pos);
    var q := DotSplit(text, pos + 1, run).value;
    var x := DotExtAt(text, q).value;
    assert e == q + 1 + |ImageExts[x]|;
    assert text[q] == ("." + ImageExts[x])[0];
    forall e' | e < e'
      ensures !NameAt(text, pos, e')
    {
      NoLongerName(text, pos, q, e, e');
    }
  }

  /**
   * A longer candidate would need a dot at or before the chosen one (the chosen dot is the
   * last in the run), yet its extension would then have to cover the chosen dot.
   */
  lemma NoLongerName(text: string, pos: nat, q: nat, e: nat, e': nat)
    requires pos < |text| && pos + 1 <= RunEnd(text, PathChar, pos)
    requires DotSplit(text, pos + 1, RunEnd(text, PathChar, pos)) == Some(q)
    requires DotExtAt(text, q).Some? && e == q + 1 + |ImageExts[DotExtAt(text, q).value]|
    requires e < e'
    ensures !NameAt(text, pos, e')
  {
    if NameAt(text, pos, e') {
      NameBound(text, pos, q, e, e');
    }
  }

  /** Every candidate at `pos` ends at or before the chosen one. */
  lemma NameBound(text: string, pos: nat, q: nat, e: nat, e': nat)
    requires pos < |text| && pos + 1 <= RunEnd(text, PathChar, pos)
    requires DotSplit(text, pos + 1, RunEnd(text, PathChar, pos)) == Some(q)
    requires DotExtAt(text, q).Some? && e == q + 1 + |ImageExts[DotExtAt(text, q).value]|
    requires NameAt(text, pos, e')
    ensures e' <= e
  {
    var q' := NameDot(text, pos, e');
    WithinRun(text, pos, e');
    assert q' <= q;
    if q' < q {
      assert text[q] == '.';
    }
  }

  /** Whenever a candidate name starts at `pos`, the pattern matches there. */
  lemma CandidateFound(text: string, pos: nat, e: nat)
    requires NameAt(text, pos, e)
    ensures ImageNameAt(text, pos).Some?
  {
    var q := NameDot(text, pos, e);
    WithinRun(text, pos, e);
    assert InClass(PathChar, text[pos]);
  }

  /**
   * The greedy `+` makes the match at `pos` the longest candidate name there: `e` is the end
   * of the match exactly when `text[pos..e]` is a candidate and no longer one exists.
   */
  lemma ImageNameLongest(text: string, pos: nat, e: nat)
    ensures ImageNameAt(text, pos) == Some(Match(pos, e, pos, e)) <==>
              NameAt(text, pos, e) && forall e' :: e < e' ==> !NameAt(text, pos, e')
  {
    if ImageNameAt(text, pos) == Some(Match(pos, e, pos, e)) {
      FoundIsLongest(text, pos, e);
    }
    if NameAt(text, pos, e) && forall e' :: e < e' ==> !NameAt(text, pos, e') {
      CandidateFound(text, pos, e);
      var m := ImageNameAt(text, pos).value;
      FoundIsLongest(text, pos, m.end);
      assert m.end == e;
    }
  }

  /** The pattern fails at `pos` exactly when no candidate name starts there. */
  lemma ImageNameNone(text: string, pos: nat)
    ensures ImageNameAt(text, pos).None? <==> forall e :: !NameAt(text, pos, e)
  {
    if ImageNameAt(text, pos).Some? {
      var m := ImageNameAt(text, pos).value;
      FoundIsLongest(text, pos, m.end);
    } else {
      forall e
        ensures !NameAt(text, pos, e)
      {
        if NameAt(text, pos, e) {
          CandidateFound(text, pos, e);
        }
      }
    }
  }

  /** Path characters up to a `.` and an extension make a name of path characters ending in it. */
  lemma NameEndsInExt(text: string, pos: nat, q: nat, x: nat)
    requires x < |ImageExts| && pos < q && OccursAt(text, "." + ImageExts[x], q)
    requires forall i :: pos <= i < q ==> InClass(PathChar, text[i])
    ensures var e := q + 1 + |ImageExts[x]|;
            && (forall i :: pos <= i < e ==> InClass(PathChar, text[i]))
            && DotExtEnds(text, pos, e, ImageExts[x])
  {
    var dotted := "." + ImageExts[x];
    var e := q + 1 + |ImageExts[x]|;
    ExtsLowerCase();
    forall i | q <= i < e
      ensures InClass(PathChar, text[i])
    {
      assert text[q + (i - q)] == dotted[i - q];
    }
  }

  /** `text[pos..end]` is at least one character, then `.` and `ext`. */
  predicate DotExtEnds(text: string, pos: nat, end: nat, ext: string) {
    pos + 1 + |ext| < end && OccursAt(text, "." + ext, end - 1 - |ext|)
  }

  /** The matcher of [\w\-\./]+\.(?:png|jpg|jpeg|gif|webp). */
  function ImageNameMatcher(): (m: Matcher)
    ensures WellBehaved(m)
  {
    (text: string, pos: nat) => ImageNameAt(text, pos)
  }

  // ---------------------------------------------------------------- ref= tokens

  const RefMarker: string := "ref="

  function RefTokenAt(text: string, pos: nat): (r: Option<Match>)
    ensures r.Some? ==> Fits(text, pos, r.value)
    ensures r.Some? ==> var m := r.value;
              && OccursAt(text, RefMarker, pos) && m.groupStart == pos + |RefMarker| < m.groupEnd == m.end
              && (forall q :: m.groupStart <= q < m.end ==> InClass(TokenChar, text[q]))
              && (m.end == |text| || !InClass(TokenChar, text[m.end]))
    ensures OccursAt(text, RefMarker, pos) && pos + |RefMarker| < |text| && InClass(TokenChar, text[pos + |RefMarker|]) ==> r.Some?
  {
    if !OccursAt(text, RefMarker, pos) then None
    else
      var e := RunEnd(text, TokenChar, pos + |RefMarker|);
      if e == pos + |RefMarker| then None else Some(Match(pos, e, pos + |RefMarker|, e))
  }

  /** The matcher of ref=([\w\-]+). */
  function RefTokenMatcher(): (m: Matcher)
    ensures WellBehaved(m)
  {
    (text: string, pos: nat) => RefTokenAt(text, pos)
  }
}
