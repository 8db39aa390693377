/**
 * `extract_screenshots_and_evidence` and the block-by-block parse loop of
 * `parse_runner_output`. `yaml.safe_load` is the parameter `load`; `None` stands for a call
 * that raised.
 */
module Pipeline {
  import opened Wrappers
  import opened Seqs
  import opened Unique
  import opened Fences
  import opened Mining
  import opened YamlTree
  import opened Messages

  /** `yaml.safe_load`: the parsed value, or `None` where it raises. */
  type Loader = string -> Option<Tree>

  // ---------------------------------------------------------------- screenshots and evidence

  /** The screenshot paths of each JavaScript block (lines 66-67). */
  function PathsPerBlock(codes: seq<string>): (r: seq<seq<string>>)
    ensures |r| == |codes| && forall i :: 0 <= i < |codes| ==> r[i] == JsPaths(codes[i])
  {
    seq(|codes|, i requires 0 <= i < |codes| => JsPaths(codes[i]))
  }

  /** The image references of one YAML block; nothing when it does not parse (line 76). */
  function BlockRefs(block: string, load: Loader): seq<string> {
    match load(block)
    case Some(parsed) => ImageRefs(parsed)
    case None => []
  }

  /** The `ref=` tokens of one YAML block; nothing when it does not parse (line 78). */
  function BlockTokens(block: string, load: Loader): seq<string> {
    if load(block).Some? then RefTokens(block) else []
  }

  function RefsPerBlock(blocks: seq<string>, load: Loader): (r: seq<seq<string>>)
    ensures |r| == |blocks| && forall i :: 0 <= i < |blocks| ==> r[i] == BlockRefs(blocks[i], load)
  {
    seq(|blocks|, i requires 0 <= i < |blocks| => BlockRefs(blocks[i], load))
  }

  function TokensPerBlock(blocks: seq<string>, load: Loader): (r: seq<seq<string>>)
    ensures |r| == |blocks| && forall i :: 0 <= i < |blocks| ==> r[i] == BlockTokens(blocks[i], load)
  {
    seq(|blocks|, i requires 0 <= i < |blocks| => BlockTokens(blocks[i], load))
  }

  /** `shots` before the dedupe: JavaScript paths, then generic names, then YAML references. */
  function RawShots(text: string, load: Loader): seq<string> {
    Flatten(PathsPerBlock(JsBlocks(text))) + ImageNames(text) + Flatten(RefsPerBlock(YamlBlocks(text), load))
  }

  /** `evidence` before the dedupe. */
  function RawEvidence(text: string, load: Loader): seq<string> {
    Flatten(TokensPerBlock(YamlBlocks(text), load))
  }

  /** `extract_screenshots_and_evidence(text)`. */
  method ExtractScreenshotsAndEvidence(text: string, load: Loader) returns (shots: seq<string>, evidence: seq<string>)
    ensures shots == Dedupe(RawShots(text, load))
    ensures evidence == Dedupe(RawEvidence(text, load))
  {
    shots := CollectCallPaths(JsBlocks(text));
    shots := shots + ImageNames(text);
    var images, tokens := CollectYaml(YamlBlocks(text), load);
    shots := shots + images;
    shots := Dedupe(shots);
    evidence := Dedupe(tokens);
  }

  /** Lines 66-67: the screenshot paths of every JavaScript block, block by block. */
  method CollectCallPaths(codes: seq<string>) returns (shots: seq<string>)
    ensures shots == Flatten(PathsPerBlock(codes))
  {
    shots := [];
    ghost var paths := PathsPerBlock(codes);
    var i := 0;
    while i < |codes|
      invariant 0 <= i <= |codes|
      invariant shots == Flatten(paths[..i])
    {
      shots := shots + JsPaths(codes[i]);
      FlattenSnoc(paths, i);
      i := i + 1;
    }
    assert paths[..i] == paths;
  }

  /**
   * Lines 73-80: each YAML block is parsed; one that parses contributes its image references
   * and its `ref=` tokens, one that does not is skipped.
   */
  method CollectYaml(blocks: seq<string>, load: Loader) returns (images: seq<string>, evidence: seq<string>)
    ensures images == Flatten(RefsPerBlock(blocks, load))
    ensures evidence == Flatten(TokensPerBlock(blocks, load))
  {
    images := [];
    evidence := [];
    ghost var refs := RefsPerBlock(blocks, load);
    ghost var tokens := TokensPerBlock(blocks, load);
    var i := 0;
    while i < |blocks|
      invariant 0 <= i <= |blocks|
      invariant images == Flatten(refs[..i])
      invariant evidence == Flatten(tokens[..i])
    {
      match load(blocks[i]) {
        case Some(parsed) =>
          var found := ExtractImageRefs(parsed);
          images := images + found;
          evidence := evidence + RefTokens(blocks[i]);
        case None =>
      }
      FlattenSnoc(refs, i);
      FlattenSnoc(tokens, i);
      i := i + 1;
    }
    assert refs[..i] == refs && tokens[..i] == tokens;
  }

  /**
   * Each screenshot is a quoted path of a `page.screenshot(` call in a JavaScript block, a
   * file name of the generic scan, or a string leaf of a parsed YAML block with an image
   * suffix; and each of those is among the screenshots.
   */
  lemma ShotSources(text: string, load: Loader, x: string)
    ensures x in Dedupe(RawShots(text, load)) <==>
              || (exists i :: 0 <= i < |JsBlocks(text)| && x in JsPaths(JsBlocks(text)[i]))
              || x in ImageNames(text)
              || (exists i :: 0 <= i < |YamlBlocks(text)| && load(YamlBlocks(text)[i]).Some? &&
                                x in ImageRefs(load(YamlBlocks(text)[i]).value))
  {
    var codes := JsBlocks(text);
    var blocks := YamlBlocks(text);
    InFlatten(PathsPerBlock(codes), x);
    InFlatten(RefsPerBlock(blocks, load), x);
  }

  /**
   * Each evidence token follows a `ref=` in a YAML block that parses; a block that does not
   * parse contributes none, whatever it holds.
   */
  lemma EvidenceSources(text: string, load: Loader, x: string)
    ensures x in Dedupe(RawEvidence(text, load)) <==>
              exists i :: 0 <= i < |YamlBlocks(text)| && load(YamlBlocks(text)[i]).Some? && x in RefTokens(YamlBlocks(text)[i])
  {
    InFlatten(TokensPerBlock(YamlBlocks(text), load), x);
  }

  /** ... and so it is a non-empty run of `[\w\-]` right after `ref=` in that block. */
  lemma EvidenceShape(text: string, load: Loader, x: string)
    requires x in Dedupe(RawEvidence(text, load))
    ensures exists i :: 0 <= i < |YamlBlocks(text)| && load(YamlBlocks(text)[i]).Some? && RefToken(YamlBlocks(text)[i], x)
  {
    EvidenceSources(text, load, x);
    var blocks := YamlBlocks(text);
    var i :| 0 <= i < |blocks| && load(blocks[i]).Some? && x in RefTokens(blocks[i]);
    var k :| 0 <= k < |RefTokens(blocks[i])| && RefTokens(blocks[i])[k] == x;
    RefTokenShape(blocks[i], k);
  }

  /** When no YAML block parses there is no evidence, and the screenshots come from the other two scans. */
  lemma AllBlocksFail(text: string, load: Loader)
    requires forall i :: 0 <= i < |YamlBlocks(text)| ==> load(YamlBlocks(text)[i]).None?
    ensures Dedupe(RawEvidence(text, load)) == []
    ensures Dedupe(RawShots(text, load)) == Dedupe(Flatten(PathsPerBlock(JsBlocks(text))) + ImageNames(text))
  {
    var js := Flatten(PathsPerBlock(JsBlocks(text)));
    var names := ImageNames(text);
    var blocks := YamlBlocks(text);
    NoParseNothing(blocks, load);
    assert js + names + Flatten(RefsPerBlock(blocks, load)) == js + names;
  }

  lemma NoParseNothing(blocks: seq<string>, load: Loader)
    requires forall i :: 0 <= i < |blocks| ==> load(blocks[i]).None?
    ensures Flatten(RefsPerBlock(blocks, load)) == [] && Flatten(TokensPerBlock(blocks, load)) == []
  {
    NoneFlatten(TokensPerBlock(blocks, load));
    NoneFlatten(RefsPerBlock(blocks, load));
  }

  lemma {:induction false} NoneFlatten(xss: seq<seq<string>>)
    requires forall i :: 0 <= i < |xss| ==> xss[i] == []
    ensures Flatten(xss) == []
    decreases |xss|
  {
    if xss != [] {
      NoneFlatten(xss[..|xss| - 1]);
    }
  }

  /**
   * The order of line 83: the deduplicated JavaScript paths come first, then what the generic
   * scan adds, then what the YAML blocks add.
   */
  lemma ShotsOrder(text: string, load: Loader)
    ensures var js := Flatten(PathsPerBlock(JsBlocks(text)));
            var named := js + ImageNames(text);
            var all := Dedupe(RawShots(text, load));
            && |Dedupe(js)| <= |Dedupe(named)| <= |all|
            && all[..|Dedupe(js)|] == Dedupe(js)
            && all[..|Dedupe(named)|] == Dedupe(named)
  {
    DedupeLayers(Flatten(PathsPerBlock(JsBlocks(text))), ImageNames(text), Flatten(RefsPerBlock(YamlBlocks(text), load)));
  }

  lemma DedupeLayers(a: seq<string>, b: seq<string>, c: seq<string>)
    ensures && |Dedupe(a)| <= |Dedupe(a + b)| <= |Dedupe(a + b + c)|
            && Dedupe(a + b + c)[..|Dedupe(a)|] == Dedupe(a)
            && Dedupe(a + b + c)[..|Dedupe(a + b)|] == Dedupe(a + b)
  {
    assert a + b + c == a + (b + c);
    DedupePrefix(a, b);
    DedupePrefix(a + b, c);
    DedupePrefix(a, b + c);
  }

  /** Both lists are free of repetitions, so deduplicating again changes nothing. */
  lemma DedupeAgain(text: string, load: Loader)
    ensures Dedupe(Dedupe(RawShots(text, load))) == Dedupe(RawShots(text, load))
    ensures Dedupe(Dedupe(RawEvidence(text, load))) == Dedupe(RawEvidence(text, load))
  {
    DedupeIdempotent(RawShots(text, load));
    DedupeIdempotent(RawEvidence(text, load));
  }

  // ---------------------------------------------------------------- parse_runner_output

  /** The blocks that parse, as parsed, in order. */
  function Parsed(blocks: seq<string>, load: Loader): seq<Tree>
    decreases |blocks|
  {
    if blocks == [] then []
    else
      Parsed(blocks[..|blocks| - 1], load) + Kept(load(blocks[|blocks| - 1]))
  }

  /** The value of a block that parses; nothing for one that does not. */
  function Kept(parsed: Option<Tree>): seq<Tree> {
    match parsed
    case Some(t) => [t]
    case None => []
  }

  /** The YAML blocks of each output text. */
  function BlocksPerText(outputs: seq<string>): (r: seq<seq<string>>)
    ensures |r| == |outputs| && forall i :: 0 <= i < |outputs| ==> r[i] == YamlBlocks(outputs[i])
  {
    seq(|outputs|, i requires 0 <= i < |outputs| => YamlBlocks(outputs[i]))
  }

  /** What `parse_runner_output` returns once the JSON is loaded. */
  function Snapshots(messages: seq<Message>, load: Loader): seq<Tree> {
    Parsed(Flatten(BlocksPerText(OutputTexts(messages))), load)
  }

  /** Lines 92-101, over the decoded messages. */
  method ParseRunnerOutput(messages: seq<Message>, load: Loader) returns (snapshots: seq<Tree>)
    ensures snapshots == Snapshots(messages, load)
  {
    var outputs := ExtractOutputTexts(messages);
    snapshots := ParseOutputs(outputs, load);
  }

  /** The outer loop of lines 94-101: every output text, in order. */
  method ParseOutputs(outputs: seq<string>, load: Loader) returns (snapshots: seq<Tree>)
    ensures snapshots == Parsed(Flatten(BlocksPerText(outputs)), load)
  {
    ghost var perText := BlocksPerText(outputs);
    snapshots := [];
    var i := 0;
    while i < |outputs|
      invariant 0 <= i <= |outputs|
      invariant snapshots == Parsed(Flatten(perText[..i]), load)
    {
      snapshots := AppendParsed(snapshots, YamlBlocks(outputs[i]), load);
      ParsedAppend(Flatten(perText[..i]), perText[i], load);
      FlattenSnoc(perText, i);
      i := i + 1;
    }
    assert perText[..i] == perText;
  }

  /** The inner loop of lines 95-101: each block of one text that parses is appended. */
  method AppendParsed(snapshots: seq<Tree>, blocks: seq<string>, load: Loader) returns (r: seq<Tree>)
    ensures r == snapshots + Parsed(blocks, load)
  {
    r := snapshots;
    var j := 0;
    while j < |blocks|
      invariant 0 <= j <= |blocks|
      invariant r == snapshots + Parsed(blocks[..j], load)
    {
      var parsed := load(blocks[j]);
      if parsed.Some? {
        r := r + [parsed.value];
      }
      ParsedStep(blocks, j, load);
      j := j + 1;
    }
    assert blocks[..j] == blocks;
  }

  lemma ParsedStep(blocks: seq<string>, j: nat, load: Loader)
    requires j < |blocks|
    ensures Parsed(blocks[..j + 1], load) == Parsed(blocks[..j], load) + Kept(load(blocks[j]))
  {
    assert blocks[..j + 1][..j] == blocks[..j];
  }

  lemma {:induction false} ParsedAppend(a: seq<string>, b: seq<string>, load: Loader)
    ensures Parsed(a + b, load) == Parsed(a, load) + Parsed(b, load)
    decreases |b|
  {
    if b == [] {
      assert a + b == a;
    } else {
      var b' := b[..|b| - 1];
      assert (a + b)[..|a + b| - 1] == a + b';
      ParsedAppend(a, b', load);
    }
  }

  /** At most one snapshot per block; exactly one per block when every block parses. */
  lemma {:induction false} ParsedCount(blocks: seq<string>, load: Loader)
    ensures |Parsed(blocks, load)| <= |blocks|
    ensures |Parsed(blocks, load)| == |blocks| <==> forall i :: 0 <= i < |blocks| ==> load(blocks[i]).Some?
    decreases |blocks|
  {
    if blocks != [] {
      var init := blocks[..|blocks| - 1];
      ParsedCount(init, load);
      assert forall i :: 0 <= i < |init| ==> init[i] == blocks[i];
    }
  }

  /** The snapshots are the values the blocks parse to, in order; failed blocks are skipped. */
  lemma {:induction false} ParsedMember(blocks: seq<string>, load: Loader, t: Tree)
    ensures t in Parsed(blocks, load) <==> exists i :: 0 <= i < |blocks| && load(blocks[i]) == Some(t)
    decreases |blocks|
  {
    if blocks != [] {
      var init := blocks[..|blocks| - 1];
      ParsedMember(init, load, t);
      if exists i :: 0 <= i < |blocks| && load(blocks[i]) == Some(t) {
        var i :| 0 <= i < |blocks| && load(blocks[i]) == Some(t);
        if i < |init| {
          assert init[i] == blocks[i];
        }
      }
      if exists i :: 0 <= i < |init| && load(init[i]) == Some(t) {
        var i :| 0 <= i < |init| && load(init[i]) == Some(t);
        assert blocks[i] == init[i];
      }
    }
  }

  /** When every block parses, the `i`-th snapshot is the `i`-th block, parsed. */
  lemma {:induction false} ParsedInOrder(blocks: seq<string>, load: Loader, i: nat)
    requires forall k :: 0 <= k < |blocks| ==> load(blocks[k]).Some?
    requires i < |blocks|
    ensures |Parsed(blocks, load)| == |blocks| && Parsed(blocks, load)[i] == load(blocks[i]).value
    decreases |blocks|
  {
    var init := blocks[..|blocks| - 1];
    ParsedCount(blocks, load);
    ParsedCount(init, load);
    if i < |init| {
      assert forall k :: 0 <= k < |init| ==> init[k] == blocks[k];
      ParsedInOrder(init, load, i);
    }
  }

  /** At most one snapshot per YAML block of the output texts; one for each when every block parses. */
  lemma SnapshotCount(messages: seq<Message>, load: Loader)
    ensures var perText := BlocksPerText(OutputTexts(messages));
            var blocks := Flatten(perText);
            && |Snapshots(messages, load)| <= TotalLength(perText)
            && (|Snapshots(messages, load)| == TotalLength(perText) <==> forall i :: 0 <= i < |blocks| ==> load(blocks[i]).Some?)
  {
    var perText := BlocksPerText(OutputTexts(messages));
    ParsedCount(Flatten(perText), load);
    FlattenLength(perText);
  }

  /** A value is among the snapshots exactly when some YAML block of some output text parses to it. */
  lemma SnapshotSources(messages: seq<Message>, load: Loader, t: Tree)
    ensures t in Snapshots(messages, load) <==>
              exists k, b :: 0 <= k < |OutputTexts(messages)| && b in YamlBlocks(OutputTexts(messages)[k]) && load(b) == Some(t)
  {
    var outputs := OutputTexts(messages);
    var perText := BlocksPerText(outputs);
    var blocks := Flatten(perText);
    ParsedMember(blocks, load, t);
    if t in Snapshots(messages, load) {
      var i :| 0 <= i < |blocks| && load(blocks[i]) == Some(t);
      InFlatten(perText, blocks[i]);
      var k :| 0 <= k < |perText| && blocks[i] in perText[k];
      assert 0 <= k < |outputs| && blocks[i] in YamlBlocks(outputs[k]) && load(blocks[i]) == Some(t);
    }
    if exists k, b :: 0 <= k < |outputs| && b in YamlBlocks(outputs[k]) && load(b) == Some(t) {
      var k, b :| 0 <= k < |outputs| && b in YamlBlocks(outputs[k]) && load(b) == Some(t);
      InFlatten(perText, b);
      var i :| 0 <= i < |blocks| && blocks[i] == b;
    }
  }
}
