/**
 * What the three reference-mining patterns of examples/parse_output.py find: screenshot paths
 * in JavaScript code, image file names anywhere in the text and `ref=` tokens in YAML blocks.
 */
module Mining {
  import opened Wrappers
  import opened Text
  import opened Scan
  import opened Regexes

  // ---------------------------------------------------------------- screenshot calls

  /** `extract_screenshot_paths_from_js`: the quoted `path` of each screenshot call. */
  function JsPaths(code: string): seq<string> {
    FindAllGroups(ScreenshotCallMatcher(), code)
  }

  /**
   * The text reads `page.screenshot(` at `s`, then no `)` up to a `path: '...'` tail that
   * `m` delimits.
   */
  ghost predicate ScreenshotCall(code: string, s: nat, m: Match) {
    && OccursAt(code, CallPrefix, s)
    && ParenFree(code, s + |CallPrefix|, m.start)
    && PathShape(code, m.start, m)
  }

  /** Of the tails a call at `s` admits, `m` is the last: the greedy `[^\)]*` gives back no more. */
  ghost predicate ChosenCall(code: string, s: nat, m: Match) {
    && ScreenshotCall(code, s, m)
    && forall m': Match :: ScreenshotCall(code, s, m') ==> m'.start <= m.start
  }

  /** The matcher succeeds at `s` exactly when a call is there, and reports its last tail. */
  lemma CallAtIsChosen(code: string, s: nat, r: Match)
    ensures ScreenshotCallAt(code, s) == Some(r) <==>
              exists m :: ChosenCall(code, s, m) && r == Match(s, m.end, m.groupStart, m.groupEnd)
  {
    if ScreenshotCallAt(code, s) == Some(r) {
      CallAtChooses(code, s, r);
    }
    if exists m :: ChosenCall(code, s, m) && r == Match(s, m.end, m.groupStart, m.groupEnd) {
      var m :| ChosenCall(code, s, m) && r == Match(s, m.end, m.groupStart, m.groupEnd);
      ChosenIsFound(code, s, m);
    }
  }

  lemma CallAtChooses(code: string, s: nat, r: Match)
    requires ScreenshotCallAt(code, s) == Some(r)
    ensures ChosenCall(code, s, Match(PathSplit(code, s + |CallPrefix|).value, r.end, r.groupStart, r.groupEnd))
  {
    var args := s + |CallPrefix|;
    var k := PathSplit(code, args).value;
    var m := Match(k, r.end, r.groupStart, r.groupEnd);
    assert PathTailAt(code, k) == Some(m);
    forall m': Match | ScreenshotCall(code, s, m')
      ensures m'.start <= k
    {
      PathTailExact(code, m'.start, m');
    }
  }

  lemma ChosenIsFound(code: string, s: nat, m: Match)
    requires ChosenCall(code, s, m)
    ensures ScreenshotCallAt(code, s) == Some(Match(s, m.end, m.groupStart, m.groupEnd))
  {
    var args := s + |CallPrefix|;
    PathTailExact(code, m.start, m);
    SplitReachesKey(code, args, m);
    var k := PathSplit(code, args).value;
    var t := PathTailAt(code, k).value;
    assert t.start == k && ScreenshotCall(code, s, t);
    assert k == m.start;
  }

  /** The split point is no earlier than any key whose tail matches in the paren-free stretch. */
  lemma SplitReachesKey(code: string, args: nat, m: Match)
    requires args <= |code| && ParenFree(code, args, m.start) && PathTailAt(code, m.start) == Some(m)
    ensures PathSplit(code, args).Some? && m.start <= PathSplit(code, args).value
  {
  }

  /** `p` is the quoted path of a screenshot call in `code`. */
  ghost predicate PathOfCall(code: string, p: string) {
    exists s: nat, m: Match :: ChosenCall(code, s, m) && p == code[m.groupStart..m.groupEnd]
  }

  /** `p` is a path of a screenshot call: at least one character and no quote. */
  ghost predicate ScreenshotPath(code: string, p: string) {
    && PathOfCall(code, p)
    && |p| > 0
    && forall j :: 0 <= j < |p| ==> InClass(NonQuote, p[j])
  }

  /**
   * Each path comes from a screenshot call: it is the text between the quotes of the call's
   * last `path` key, it is not empty and it holds no quote.
   */
  lemma JsPathsFromCalls(code: string, i: nat)
    requires i < |JsPaths(code)|
    ensures ScreenshotPath(code, JsPaths(code)[i])
  {
    GroupAt(ScreenshotCallMatcher(), code, i);
    CallMatched(code, FindAllFrom(ScreenshotCallMatcher(), code, 0)[i]);
  }

  /** A match of the screenshot pattern: its group is a path of a call, between quotes. */
  lemma CallMatched(code: string, r: Match)
    requires ScreenshotCallMatcher()(code, r.start) == Some(r)
    ensures r.groupStart <= r.groupEnd <= |code| && ScreenshotPath(code, code[r.groupStart..r.groupEnd])
  {
    CallMatcherIs(code, r.start);
    CallGroup(code, r);
    SliceInClass(code, NonQuote, r.groupStart, r.groupEnd);
  }

  lemma CallMatcherIs(code: string, pos: nat)
    ensures ScreenshotCallMatcher()(code, pos) == ScreenshotCallAt(code, pos)
  {
  }

  lemma CallGroup(code: string, r: Match)
    requires ScreenshotCallAt(code, r.start) == Some(r)
    ensures r.groupStart < r.groupEnd <= |code|
    ensures PathOfCall(code, code[r.groupStart..r.groupEnd])
    ensures forall q :: r.groupStart <= q < r.groupEnd ==> InClass(NonQuote, code[q])
  {
    CallAtChooses(code, r.start, r);
    var m := Match(PathSplit(code, r.start + |CallPrefix|).value, r.end, r.groupStart, r.groupEnd);
    QuotedPath(code, r.start, m);
  }

  /** The path of a call lies between its quotes: at least one character, none of them a quote. */
  lemma QuotedPath(code: string, s: nat, m: Match)
    requires ChosenCall(code, s, m)
    ensures m.groupStart < m.groupEnd <= |code|
    ensures forall q :: m.groupStart <= q < m.groupEnd ==> !IsQuote(code[q])
    ensures PathOfCall(code, code[m.groupStart..m.groupEnd])
  {
  }

  /** Code without `page.screenshot(` yields no paths. */
  lemma NoCallNoPaths(code: string)
    requires forall s :: !OccursAt(code, CallPrefix, s)
    ensures JsPaths(code) == []
  {
    NowhereNothing(ScreenshotCallMatcher(), code);
  }

  // ---------------------------------------------------------------- generic image names

  /** The generic file-name scan of `extract_screenshots_and_evidence`. */
  function ImageNames(text: string): seq<string> {
    FindAllGroups(ImageNameMatcher(), text)
  }

  /** `name` is at least one character, then `.` and `ext`. */
  predicate EndsInExt(name: string, ext: string) {
    |ext| + 1 < |name| && OccursAt(name, "." + ext, |name| - 1 - |ext|)
  }

  /** `name` is made of path characters and ends in `.` and one of the extensions. */
  ghost predicate ImageName(name: string) {
    && (forall j :: 0 <= j < |name| ==> InClass(PathChar, name[j]))
    && exists x :: 0 <= x < |ImageExts| && EndsInExt(name, ImageExts[x])
  }

  /**
   * Each name found is made of word characters, `-`, `.` and `/` only, and ends in `.` and
   * one of the extensions, in lower case.
   */
  lemma ImageNameShape(text: string, i: nat)
    requires i < |ImageNames(text)|
    ensures ImageName(ImageNames(text)[i])
  {
    GroupAt(ImageNameMatcher(), text, i);
    NameMatched(text, FindAllFrom(ImageNameMatcher(), text, 0)[i]);
  }

  /** A match of the file-name pattern is a name of path characters ending in an extension. */
  lemma NameMatched(text: string, m: Match)
    requires ImageNameMatcher()(text, m.start) == Some(m)
    ensures m.groupStart == m.start <= m.end == m.groupEnd <= |text| && ImageName(text[m.start..m.end])
  {
    NameMatcherIs(text, m.start);
    var x :| 0 <= x < |ImageExts| && DotExtEnds(text, m.start, m.end, ImageExts[x]);
    ExtCopied(text, m.start, m.end, ImageExts[x]);
    SliceInClass(text, PathChar, m.start, m.end);
  }

  lemma NameMatcherIs(text: string, pos: nat)
    ensures ImageNameMatcher()(text, pos) == ImageNameAt(text, pos)
  {
  }

  /** A name that ends in `.ext` inside the text ends in it as a string of its own. */
  lemma ExtCopied(text: string, pos: nat, end: nat, ext: string)
    requires end <= |text| && DotExtEnds(text, pos, end, ext)
    ensures EndsInExt(text[pos..end], ext)
  {
    var name := text[pos..end];
    assert forall j :: 0 <= j < |name| ==> name[j] == text[pos + j];
    OccursInCopy(name, text, pos, "." + ext, |name| - 1 - |ext|);
  }

  /** The scan is case-sensitive: without a lower-case `.png` (or another extension) there is no name. */
  lemma NoLowerExtNoNames(text: string)
    requires forall q, x :: 0 <= x < |ImageExts| ==> !OccursAt(text, "." + ImageExts[x], q)
    ensures ImageNames(text) == []
  {
    NowhereNothing(ImageNameMatcher(), text);
  }

  /** So `shot.PNG` is not picked up. */
  lemma UpperCaseIgnored()
    ensures ImageNames("shot.PNG") == []
  {
    var text := "shot.PNG";
    forall q, x | 0 <= x < |ImageExts|
      ensures !OccursAt(text, "." + ImageExts[x], q)
    {
      ExtsLowerCase();
      var d := "." + ImageExts[x];
      assert d[0] == '.' && d[1] == ImageExts[x][0];
    }
    NoLowerExtNoNames(text);
  }

  // ---------------------------------------------------------------- ref= tokens

  /** `re.findall(r"ref=([\w\-]+)", block)`. */
  function RefTokens(block: string): seq<string> {
    FindAllGroups(RefTokenMatcher(), block)
  }

  /** `tok` is a non-empty run of `[\w\-]` that stands right after a `ref=` in the block. */
  ghost predicate RefToken(block: string, tok: string) {
    && |tok| > 0
    && (forall j :: 0 <= j < |tok| ==> InClass(TokenChar, tok[j]))
    && exists s :: RefAt(block, s, tok)
  }

  /**
   * Each token is a non-empty run of word characters and `-` that directly follows `ref=`
   * and is not followed by another such character.
   */
  lemma RefTokenShape(block: string, i: nat)
    requires i < |RefTokens(block)|
    ensures RefToken(block, RefTokens(block)[i])
  {
    GroupAt(RefTokenMatcher(), block, i);
    TokenMatched(block, FindAllFrom(RefTokenMatcher(), block, 0)[i]);
  }

  /** A match of the `ref=` pattern: the marker, then a maximal run of token characters. */
  lemma TokenMatched(block: string, m: Match)
    requires RefTokenMatcher()(block, m.start) == Some(m)
    ensures m.groupStart <= m.groupEnd <= |block| && RefToken(block, block[m.groupStart..m.groupEnd])
  {
    assert RefTokenAt(block, m.start) == Some(m);
    var tok := block[m.groupStart..m.end];
    assert forall j :: 0 <= j < |tok| ==> block[m.groupStart + j] == tok[j];
    assert RefAt(block, m.start, tok);
    SliceInClass(block, TokenChar, m.groupStart, m.end);
  }

  /** `ref=` at `s`, then exactly `tok`, then the end or a character outside `[\w\-]`. */
  predicate RefAt(block: string, s: nat, tok: string) {
    var e := s + |RefMarker| + |tok|;
    && OccursAt(block, RefMarker, s) && OccursAt(block, tok, s + |RefMarker|)
    && (e == |block| || !InClass(TokenChar, block[e]))
  }

  /** A block without `ref=` has no evidence tokens. */
  lemma NoMarkerNoTokens(block: string)
    requires forall s :: !OccursAt(block, RefMarker, s)
    ensures RefTokens(block) == []
  {
    NowhereNothing(RefTokenMatcher(), block);
  }
}
