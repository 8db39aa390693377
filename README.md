# Runner-output text extraction, in Dafny

This project models the text-extraction pipeline of `examples/parse_output.py`. The pipeline reads the
messages a runner returns and pulls four kinds of findings out of them:

- the `output_text` payloads of the messages;
- the fenced YAML and JavaScript blocks inside those texts;
- the screenshot paths, from three sources: `page.screenshot(... path: '...')` calls in JavaScript
  blocks, a generic file-name scan of the whole text, and image-suffixed string leaves of each parsed
  YAML block;
- the `ref=` evidence tokens of the YAML blocks.

Both finding lists are deduplicated, keeping first occurrences. The parse loop of `parse_runner_output`
collects every YAML block that parses.

Modules, bottom up:

- `Wrappers`: `Option`.
- `Text`: the character classes of the patterns (`\s`, `[^'"]`, `[^\)]`, `[\w\-\./]`, `[\w\-]`),
  substring occurrence, `str.find`, runs of a class, and the first of several alternatives.
- `Scan`: `re.findall` over a per-position matcher, as a leftmost, non-overlapping scan. It is proved
  equal to the unique list of matches that is sound, ordered and covers every position where the pattern
  matches.
- `Regexes`: one matcher per pattern of the source. The lazy fence body stops at the first closing
  fence. The greedy `[^\)]*` before `path` takes the last `path` key that can still complete the match.
- `Fences`, `Mining`: the block scans of lines 22-29 and the three mining scans of lines 32-35, 70 and 78,
  with what each result is.
- `YamlTree`: a parsed YAML value, the leaf test of line 43, and the recursive walk of lines 38-53. The
  walk is a class whose `images` field the walk appends to, as the closure list is in the source.
- `Messages`: `extract_output_texts`.
- `Unique`: `list(dict.fromkeys(xs))`.
- `Pipeline`: `extract_screenshots_and_evidence` and the post-load loop of `parse_runner_output`.

`yaml.safe_load` is a parameter `load: string -> Option<Tree>`. `None` stands for a call that raised.

Two details of the patterns decide what is found:

- The generic file-name scan of line 70 has no IGNORECASE flag, so `shot.PNG` is not found
  (`Mining.UpperCaseIgnored`). Only the YAML leaf test of line 43 ignores case (`YamlTree.UpperCaseLeaf`).
- The class `['\"]` of line 34 accepts either quote, and so does the model.

## Model

| member | source | states |
|---|---|---|
| Messages.OutputTexts | examples/parse_output.py:13-19 | the texts `extract_output_texts` returns, as a function of the messages; what it selects is stated by `OutputTextsSelect` and `OutputTextsOfAllItems`, and `ExtractOutputTexts` computes it |
| Messages.ExtractOutputTexts | examples/parse_output.py:13-19 | the nested loop returns exactly the texts `OutputTexts` collects, message by message and item by item |
| Messages.OutputTextsSelect | examples/parse_output.py:13-19 | the result is `TextOf` of each `output_text` item, in message-then-item order; a missing `text` gives `""`, a missing `content` gives nothing |
| Messages.ItemTextsSelect | examples/parse_output.py:16-18 | within one message: one text per item typed `output_text`, in order, and nothing for the other items |
| Messages.OutputTextsOfAllItems | examples/parse_output.py:15-18 | collecting message by message equals collecting over all content items in one pass |
| Scan.FindAllFrom | examples/parse_output.py:24 | `re.findall`'s scan from a position: every reported match starts at or after that position and lies inside the text; what the list is exactly is stated by `FindAllIsLeftmostScan` and `LeftmostScanUnique` |
| Scan.FindAllGroups | examples/parse_output.py:24 | the strings `re.findall` returns for a pattern with one group: the group text of each match of `FindAllFrom`, in order |
| Scan.FindAllIsLeftmostScan | examples/parse_output.py:24 | the `findall` scan reports only true matches, in order, non-overlapping, and every position where the pattern matches lies inside a reported match |
| Scan.LeftmostScanUnique | examples/parse_output.py:24 | any list of matches with those three properties is the scan's list: the characterisation is exact |
| Scan.FindAllOrdered | examples/parse_output.py:24 | each reported match ends at or before the next one starts |
| Scan.FindAllShift | examples/parse_output.py:24 | scanning a text after a prefix the pattern cannot reach into yields the same matches, shifted by the prefix length |
| Fences.YamlBlocks | examples/parse_output.py:22-24 | `extract_yaml_blocks`: the group texts of `` ```yaml\n([\s\S]*?)``` ``; stated by `YamlBlockFenced`, `NoYamlOpeningNoBlocks` and `DocumentBlocks` |
| Fences.JsBlocks | examples/parse_output.py:27-29 | `extract_js_code_blocks`: the group texts of `` ```(?:js\|javascript)\n([\s\S]*?)``` ``; stated by `JsBlockFenced`, `NoJsOpeningNoBlocks`, `OpeningSelected` and `DocumentBlocks` |
| Fences.FenceShape | examples/parse_output.py:24 | a fence match is an opening tag, the body and "```" in the text, and the body plus "``" holds no "```", so the body stops at the first closing fence |
| Fences.YamlBlockFenced | examples/parse_output.py:22-24 | each YAML block B occurs as "```yaml\n" + B + "```" and B holds no "```" |
| Fences.JsBlockFenced | examples/parse_output.py:27-29 | each JavaScript block B occurs as "```js\n" + B + "```" or "```javascript\n" + B + "```" and B holds no "```" |
| Fences.NoYamlOpeningNoBlocks | examples/parse_output.py:24 | a text without "```yaml\n" has no YAML blocks |
| Fences.NoJsOpeningNoBlocks | examples/parse_output.py:29 | a text without "```js\n" and "```javascript\n" has no JavaScript blocks |
| Fences.FirstMatchOpens | examples/parse_output.py:24 | a text with a fence match holds one of the opening tags |
| Fences.OpeningSelected | examples/parse_output.py:29 | when an opening tag starts the text it is the alternative the scan takes; "```js\n" and "```javascript\n" never both start at one place |
| Fences.DocumentBlocks | examples/parse_output.py:22-29 | a document of N prose-then-block sections, whose prose and tail hold no opening fence of the pattern and whose bodies hold no "```", yields exactly the N bodies in document order |
| Fences.NoFenceInProse | examples/parse_output.py:24 | no match starts inside prose that holds no opening fence, when the prose is followed by a fence or by nothing: an opening cannot run on into the next "```" |
| Regexes.FenceAt | examples/parse_output.py:24 | a fence match starts at the scan position, ends inside the text, and its group lies within it |
| Regexes.PathTailAt | examples/parse_output.py:34 | a `path\s*:\s*['"]([^'"]+)['"]` match at a position has the shape of that pattern: key, spaces, colon, spaces, quote, non-empty quote-free value, quote |
| Regexes.PathTailExact | examples/parse_output.py:34 | every text that has that shape at a position is matched there, with that very match |
| Regexes.PathSplit | examples/parse_output.py:34 | the position the greedy `[^\)]*` leaves for `path` has no `)` before it and starts a match of the rest; no later `)`-free position does |
| Regexes.ScreenshotCallAt | examples/parse_output.py:34 | a screenshot-call match starts with `page.screenshot(` and its group is the path the greedy split picks |
| Mining.JsPaths | examples/parse_output.py:32-35 | `extract_screenshot_paths_from_js`: the group texts of the screenshot-call pattern; stated by `JsPathsFromCalls`, `CallAtIsChosen` and `NoCallNoPaths` |
| Mining.CallAtIsChosen | examples/parse_output.py:34 | the call matcher succeeds exactly when some `path: '...'` tail follows the call with no `)` before it, and it reports the last such tail |
| Mining.JsPathsFromCalls | examples/parse_output.py:32-35 | each path comes from a `page.screenshot(` call with no `)` between the call and its `path` key, is non-empty, and holds no quote |
| Mining.NoCallNoPaths | examples/parse_output.py:34 | code without `page.screenshot(` yields no paths |
| Mining.ImageNames | examples/parse_output.py:70 | the generic scan `re.findall` of line 70; stated by `ImageNameShape`, `Regexes.ImageNameLongest`, `NoLowerExtNoNames` and `UpperCaseIgnored` |
| Regexes.ImageNameAt | examples/parse_output.py:70 | a generic match is a run of `[\w\-\./]` characters ending in "." and a lower-case image extension |
| Regexes.DotExtAt | examples/parse_output.py:70 | a hit at a position is a "." there followed by one of the extensions, the first the alternation `(?:png\|jpg\|jpeg\|gif\|webp)` accepts |
| Regexes.DotExtFound | examples/parse_output.py:70 | wherever "." and an extension occur, `DotExtAt` finds exactly that extension: no two extensions start alike |
| Regexes.DotSplit | examples/parse_output.py:70 | the position the greedy `[\w\-\./]+` hands over at is the last one in the run that holds "." and an extension; no later position in the run does |
| Regexes.ImageNameLongest | examples/parse_output.py:70 | the match at a position ends at `e` exactly when the text from that position to `e` is a candidate name (path characters ending in "." and an extension) and no longer candidate starts there |
| Regexes.ImageNameNone | examples/parse_output.py:70 | the pattern fails at a position exactly when no candidate name starts there |
| Mining.ImageNameShape | examples/parse_output.py:70 | each generic match is non-empty, holds only word characters, `-`, `.` and `/`, and ends in "." plus a lower-case extension |
| Mining.NoLowerExtNoNames | examples/parse_output.py:70 | a text without ".png", ".jpg", ".jpeg", ".gif" or ".webp" yields no generic matches |
| Mining.UpperCaseIgnored | examples/parse_output.py:70 | the case-sensitive scan finds nothing in "shot.PNG" |
| Regexes.RefTokenAt | examples/parse_output.py:78 | a `ref=([\w\-]+)` match is the marker and then a maximal non-empty run of word characters and hyphens, and `ref=` followed by a word character or hyphen always matches |
| Mining.RefTokens | examples/parse_output.py:78 | the token scan of line 78; stated by `RefTokenShape`, `Regexes.RefTokenAt` and `NoMarkerNoTokens` |
| Mining.RefTokenShape | examples/parse_output.py:78 | each token is non-empty, holds only word characters and `-`, and directly follows `ref=` in the block |
| Mining.NoMarkerNoTokens | examples/parse_output.py:78 | a block without `ref=` yields no tokens |
| YamlTree.IsImageRef | examples/parse_output.py:43 | the leaf test `re.search(r"\.(png\|jpg\|jpeg\|gif\|webp)$", value, re.IGNORECASE)`, searching from each position of the string; what it accepts is stated by `ImageRefIsSuffix` and `UpperCaseLeaf` |
| YamlTree.ImageRefIsSuffix | examples/parse_output.py:43 | the leaf test accepts a string exactly when it ends, case-insensitively, in "." and an image extension, optionally followed by one newline |
| YamlTree.UpperCaseLeaf | examples/parse_output.py:43 | a leaf "shot.PNG" is collected, unlike in the generic scan |
| YamlTree.ImageRefs | examples/parse_output.py:41-50 | the list `walk` builds for a value, as a function of the tree; stated by `RefsAreFilteredLeaves`, `ImageRefMember` and `KeysIgnored`, and computed by `ImageWalker.Walk` |
| YamlTree.RefsAreFilteredLeaves | examples/parse_output.py:41-50 | the walk's result is the string leaves, in depth-first order with dict values and list items in order, kept when the leaf test accepts them |
| YamlTree.ImageRefMember | examples/parse_output.py:41-50 | a string is collected exactly when it is a string leaf with an image suffix |
| YamlTree.KeysIgnored | examples/parse_output.py:45-47 | dict keys are not walked: `{"shot.png": null}` yields nothing |
| YamlTree.ImageWalker.constructor | examples/parse_output.py:39 | the walk starts with an empty `images` list |
| YamlTree.ImageWalker.Walk | examples/parse_output.py:41-50 | one call to `walk` appends exactly the image references of its value to `images` |
| YamlTree.ImageWalker.WalkItems | examples/parse_output.py:48-50 | walking a list appends the references of its items in order |
| YamlTree.ImageWalker.WalkValues | examples/parse_output.py:45-47 | walking a dict appends the references of its values in insertion order |
| YamlTree.ExtractImageRefs | examples/parse_output.py:38-53 | the function returns exactly the image references of the parsed value |
| Unique.Dedupe | examples/parse_output.py:83-84 | the deduplicated list has no repetitions and holds exactly the elements of the input |
| Unique.DedupeOrder | examples/parse_output.py:83-84 | kept elements appear in the order of their first occurrences in the input |
| Unique.DedupeDistinct | examples/parse_output.py:83-84 | a list without repetitions is left unchanged |
| Unique.DedupeIdempotent | examples/parse_output.py:83-84 | deduplicating twice gives the same as once |
| Unique.DedupePrefix | examples/parse_output.py:83 | the dedupe of a list is a prefix of the dedupe of any extension of it |
| Pipeline.ExtractScreenshotsAndEvidence | examples/parse_output.py:56-85 | the shots are the deduplicated JavaScript paths, generic names and YAML references, in that order; the evidence is the deduplicated tokens of the parsing blocks |
| Pipeline.CollectCallPaths | examples/parse_output.py:66-67 | the loop collects the paths of every JavaScript block, block by block |
| Pipeline.CollectYaml | examples/parse_output.py:73-80 | the loop collects the references and tokens of each block that parses and skips the others |
| Pipeline.ShotSources | examples/parse_output.py:62-83 | a string is a shot exactly when it is a call path of a JavaScript block, a generic name, or a reference in a parsing YAML block |
| Pipeline.EvidenceSources | examples/parse_output.py:73-84 | a string is evidence exactly when it is a `ref=` token of a YAML block that parses; failed blocks contribute none |
| Pipeline.EvidenceShape | examples/parse_output.py:73-84 | each evidence token is a non-empty `[\w\-]` run right after `ref=` inside a YAML block that parses |
| Pipeline.AllBlocksFail | examples/parse_output.py:73-80 | when no YAML block parses there is no evidence, and the shots come from the JavaScript and generic scans alone |
| Pipeline.ShotsOrder | examples/parse_output.py:66-83 | the deduplicated JavaScript paths come first, then what the generic scan adds, then what the YAML blocks add |
| Pipeline.DedupeAgain | examples/parse_output.py:83-84 | deduplicating either result again changes nothing |
| Pipeline.ParseRunnerOutput | examples/parse_output.py:92-102 | the snapshots are the values of the YAML blocks that parse, over all output texts in order |
| Pipeline.ParseOutputs | examples/parse_output.py:94-101 | the outer loop collects the parsing blocks of every text, text by text |
| Pipeline.AppendParsed | examples/parse_output.py:95-101 | the inner loop appends the value of each block of one text that parses, in order |
| Pipeline.ParsedCount | examples/parse_output.py:95-101 | there are at most as many snapshots as blocks, and exactly as many when every block parses |
| Pipeline.ParsedMember | examples/parse_output.py:95-101 | a value is a snapshot exactly when some block parses to it |
| Pipeline.ParsedInOrder | examples/parse_output.py:95-101 | when every block parses, the i-th snapshot is the i-th block parsed |
| Pipeline.SnapshotCount | examples/parse_output.py:92-102 | the number of snapshots is at most the total number of YAML blocks of all output texts, and equals it exactly when all of them parse |
| Pipeline.SnapshotSources | examples/parse_output.py:92-102 | a value is a snapshot exactly when some YAML block of some output text parses to it |

## Left out

- File and JSON input and output are left out: the `open` and `json.load` of lines 89-90, and the demo
  driver of lines 105-142, which writes and reads JSON files and prints. `parse_runner_output` is modelled
  from the decoded message list on.
- test_harness/run_parse_example.py is left out. It only joins a path, reads JSON and prints.
- `yaml.safe_load` is a parameter. YAML parsing itself, anchors, aliases and cyclic values are not modelled.
  A parsed value is a finite tree of strings, lists, dicts and other scalars.
- Messages.ContentItem: every message and every content item is a dict, `content` is a list or
  missing, and `type` and `text` are strings or missing. A message or item that is not a dict, a
  `content` that is a string or `null`, a non-string field, and the `AttributeError` or `TypeError`
  those raise are not modelled.
- Text.IsWordChar: `\w` is ASCII letters, digits and `_`. Python's `\w` also accepts other Unicode letters
  and digits.
- YamlTree.FoldMatch: IGNORECASE folding covers ASCII letters, plus U+0130 and U+0131 against `i`. The
  extensions have no other letter with a Unicode case partner.
- YamlTree.ImageWalker.Walk: a walk deep enough to exceed Python's recursion limit raises. That exception
  is not modelled; the model always finishes.
- Pipeline.CollectYaml: the `try` block is modelled as failing only in `yaml.safe_load`. Once a block
  parses, the walk and the token scan never raise in the model.
- Regexes.PathSplit: the greedy `[^\)]*` before `path` is modelled by its outcome, the last position
  before the first `)` from which the rest of the pattern matches. Backtracking steps are not modelled.
