/**
 * `extract_yaml_blocks` and `extract_js_code_blocks`: the bodies of the fenced blocks of a
 * text, found by `re.findall` with a lazy body, in text order.
 */
module Fences {
  import opened Wrappers
  import opened Text
  import opened Scan
  import opened Regexes

  /** extract_yaml_blocks: bodies of the blocks opened by "```yaml\n". */
  function YamlBlocks(text: string): seq<string> {
    FindAllGroups(FenceMatcher(YamlOpenings), text)
  }

  /** extract_js_code_blocks: bodies of the blocks opened by "```js\n" or "```javascript\n". */
  function JsBlocks(text: string): seq<string> {
    FindAllGroups(FenceMatcher(JsOpenings), text)
  }

  /** The two fence patterns of the source. */
  predicate IsFence(openings: seq<string>) {
    openings == YamlOpenings || openings == JsOpenings
  }

  // ---------------------------------------------------------------- what a reported block is

  /**
   * A fence match at `pos` is an opening fence, the body and the closing fence, in that order,
   * and the body runs to the first triple backtick: `body + "``"` holds none.
   */
  lemma FenceShape(openings: seq<string>, text: string, pos: nat)
    requires FenceAt(openings, text, pos).Some?
    ensures var m := FenceAt(openings, text, pos).value;
            var body := text[m.groupStart..m.groupEnd];
            && OccursAt(text, openings[FirstAlt(openings, text, pos).value] + body + Fence, pos)
            && Absent(body + "``", Fence)
  {
    var t := FirstAlt(openings, text, pos).value;
    var op := openings[t];
    var b := pos + |op|;
    var e := Find(text, Fence, b).value;
    assert FenceAt(openings, text, pos).value == Match(pos, e + 3, b, e);
    var body := text[b..e];
    assert OccursAt(text, body, b);
    OccursConcat(text, op, body, pos);
    OccursConcat(text, op + body, Fence, pos);
    var padded := body + "``";
    assert text[e] == Fence[0] && text[e + 1] == Fence[1];
    assert forall x :: 0 <= x < |padded| ==> padded[x] == text[b + x];
    forall k
      ensures !OccursAt(padded, Fence, k)
    {
      if 0 <= k && k + 3 <= |padded| {
        OccursInCopy(padded, text, b, Fence, k);
      }
    }
  }

  /** Each YAML block B stands in the text as "```yaml\n" + B + "```", and B holds no "```". */
  lemma YamlBlockFenced(text: string, i: nat)
    requires i < |YamlBlocks(text)|
    ensures var b := YamlBlocks(text)[i];
            && (exists s :: OccursAt(text, "```yaml\n" + b + "```", s))
            && Absent(b, Fence) && Absent(b + "``", Fence)
  {
    FindAllFound(FenceMatcher(YamlOpenings), text, 0);
    var m := FindAllFrom(FenceMatcher(YamlOpenings), text, 0)[i];
    assert FenceAt(YamlOpenings, text, m.start) == Some(m);
    FenceShape(YamlOpenings, text, m.start);
    AbsentPrefix(YamlBlocks(text)[i], "``");
  }

  /** Each JS block B stands in the text as "```js\n" + B + "```" or "```javascript\n" + B + "```". */
  lemma JsBlockFenced(text: string, i: nat)
    requires i < |JsBlocks(text)|
    ensures var b := JsBlocks(text)[i];
            && (exists s :: OccursAt(text, "```js\n" + b + "```", s) || OccursAt(text, "```javascript\n" + b + "```", s))
            && Absent(b, Fence) && Absent(b + "``", Fence)
  {
    FindAllFound(FenceMatcher(JsOpenings), text, 0);
    var m := FindAllFrom(FenceMatcher(JsOpenings), text, 0)[i];
    assert FenceAt(JsOpenings, text, m.start) == Some(m);
    FenceShape(JsOpenings, text, m.start);
    AbsentPrefix(JsBlocks(text)[i], "``");
  }

  lemma AbsentPrefix(s: string, more: string)
    requires Absent(s + more, Fence)
    ensures Absent(s, Fence)
  {
    forall k
      ensures OccursAt(s, Fence, k) ==> OccursAt(s + more, Fence, k)
    {
      if OccursAt(s, Fence, k) {
        assert forall j :: 0 <= j < 3 ==> ((s + more)[k + j] == Fence[j] <==> s[k + j] == Fence[j]);
      }
    }
  }

  /** A text without "```yaml\n" has no YAML blocks. */
  lemma NoYamlOpeningNoBlocks(text: string)
    requires forall s :: !OccursAt(text, "```yaml\n", s)
    ensures YamlBlocks(text) == []
  {
    if |FindAllFrom(FenceMatcher(YamlOpenings), text, 0)| > 0 {
      FirstMatchOpens(YamlOpenings, text);
    }
  }

  /** A text without "```js\n" and "```javascript\n" has no JS blocks. */
  lemma NoJsOpeningNoBlocks(text: string)
    requires forall s :: !OccursAt(text, "```js\n", s) && !OccursAt(text, "```javascript\n", s)
    ensures JsBlocks(text) == []
  {
    if |FindAllFrom(FenceMatcher(JsOpenings), text, 0)| > 0 {
      FirstMatchOpens(JsOpenings, text);
    }
  }

  /** A reported block starts with one of the pattern's opening fences. */
  lemma FirstMatchOpens(openings: seq<string>, text: string)
    requires |FindAllFrom(FenceMatcher(openings), text, 0)| > 0
    ensures exists s, t :: 0 <= t < |openings| && OccursAt(text, openings[t], s)
  {
    FindAllFound(FenceMatcher(openings), text, 0);
    var m := FindAllFrom(FenceMatcher(openings), text, 0)[0];
    assert FenceAt(openings, text, m.start) == Some(m);
    var t := FirstAlt(openings, text, m.start).value;
    assert OccursAt(text, openings[t], m.start);
  }

  // ---------------------------------------------------------------- texts with well-formed blocks

  lemma FenceShift(openings: seq<string>, pre: string, s: string, q: nat)
    ensures FenceAt(openings, pre + s, |pre| + q) == ShiftOption(FenceAt(openings, s, q), |pre|)
  {
    FirstAltShift(openings, pre, s, q, 0);
    match FirstAlt(openings, s, q)
    case None =>
    case Some(t) =>
      var b := q + |openings[t]|;
      assert |pre| + q + |openings[t]| == |pre| + b;
      FindShift(pre, s, Fence, b);
      match Find(s, Fence, b)
      case None =>
      case Some(e) =>
        assert Find(pre + s, Fence, |pre| + b) == Some(|pre| + e);
        assert FenceAt(openings, s, q) == Some(Match(q, e + |Fence|, b, e));
  }

  lemma FenceMatcherShift(openings: seq<string>, pre: string, s: string, q: nat)
    ensures FenceMatcher(openings)(pre + s, |pre| + q) == ShiftOption(FenceMatcher(openings)(s, q), |pre|)
  {
    FenceShift(openings, pre, s, q);
    FenceMatcherIs(openings, pre + s, |pre| + q);
    FenceMatcherIs(openings, s, q);
  }

  lemma FenceMatcherIs(openings: seq<string>, text: string, pos: nat)
    ensures FenceMatcher(openings)(text, pos) == FenceAt(openings, text, pos)
  {
  }

  /** The fence matcher looks only forward: a prefix shifts its matches. */
  lemma FencePrefixShifts(openings: seq<string>, pre: string, s: string)
    ensures PrefixShifts(FenceMatcher(openings), pre, s)
  {
    forall q: nat
      ensures FenceMatcher(openings)(pre + s, |pre| + q) == ShiftOption(FenceMatcher(openings)(s, q), |pre|)
    {
      FenceMatcherShift(openings, pre, s, q);
    }
  }

  /** No opening fence of the pattern occurs anywhere in `s`. */
  predicate NoOpening(openings: seq<string>, s: string) {
    forall k, t :: 0 <= k < |s| && 0 <= t < |openings| ==> !OccursAt(s, openings[t], k)
  }

  /** Each opening fence is "```" followed by characters none of which is a backtick. */
  lemma OpeningShape(openings: seq<string>, t: nat)
    requires IsFence(openings) && t < |openings|
    ensures OccursAt(openings[t], Fence, 0) && |openings[t]| > 3
    ensures forall k :: 3 <= k < |openings[t]| ==> openings[t][k] != '`'
  {
  }

  /**
   * An opening fence that starts before position `p`, where a closing fence or the end of the
   * text stands, ends by `p`: past its first three characters an opening holds no backtick.
   */
  lemma OpeningEndsBefore(openings: seq<string>, t: nat, text: string, q: nat, p: nat)
    requires IsFence(openings) && t < |openings| && OccursAt(text, openings[t], q) && q < p
    requires p == |text| || OccursAt(text, Fence, p)
    ensures q + |openings[t]| <= p
  {
    OpeningShape(openings, t);
    if p < |text| && p - q < |openings[t]| {
      BacktickInside(openings[t], text, q, p);
    }
  }

  /** A pattern `op` overlapping a fence that starts inside it holds a backtick past its third character. */
  lemma BacktickInside(op: string, text: string, q: nat, p: nat)
    requires 3 < |op| && OccursAt(text, op, q) && OccursAt(text, Fence, p) && q < p < q + |op|
    ensures op[if p - q < 3 then 3 else p - q] == '`'
  {
    if p - q < 3 {
      var j := q + 3 - p;
      assert op[3] == text[p + j] == Fence[j];
    } else {
      assert op[p - q] == text[p + 0] == Fence[0];
    }
  }

  /** Prose holding no opening fence cannot start a fenced block, whatever block follows it. */
  lemma NoFenceInProse(openings: seq<string>, prose: string, rest: string, q: nat)
    requires IsFence(openings) && NoOpening(openings, prose) && q < |prose|
    requires rest == [] || OccursAt(rest, Fence, 0)
    ensures FenceMatcher(openings)(prose + rest, q).None?
  {
    var text := prose + rest;
    assert rest != [] ==> OccursAt(text, Fence, |prose|);
    forall t | 0 <= t < |openings|
      ensures !OccursAt(text, openings[t], q)
    {
      if OccursAt(text, openings[t], q) {
        OpeningEndsBefore(openings, t, text, q, |prose|);
        forall j | 0 <= j < |openings[t]|
          ensures prose[q + j] == openings[t][j]
        {
          assert text[q + j] == prose[q + j];
        }
        assert OccursAt(prose, openings[t], q);
      }
    }
  }

  /** The opening fence a block is written with is the alternative the engine picks. */
  lemma OpeningSelected(openings: seq<string>, t: nat, text: string)
    requires IsFence(openings) && t < |openings| && OccursAt(text, openings[t], 0)
    ensures FirstAlt(openings, text, 0) == Some(t)
  {
    if openings == JsOpenings && t == 1 {
      assert text[4] == openings[1][4] == 'a';
      assert openings[0][4] == 's';
    }
  }

  /** A text that starts with a block whose body is followed by its closing fence. */
  lemma LeadingBlock(openings: seq<string>, t: nat, body: string, rest: string)
    requires IsFence(openings) && t < |openings| && Absent(body + "``", Fence)
    ensures var op := openings[t];
            FenceMatcher(openings)(op + body + Fence + rest, 0) == Some(Match(0, |op| + |body| + 3, |op|, |op| + |body|))
  {
    var op := openings[t];
    LaidOut(op, body, Fence, rest);
    BlockAtStart(openings, t, body, op + body + Fence + rest);
  }

  /** The three parts of a block as they lie in the text. */
  lemma LaidOut(op: string, body: string, close: string, rest: string)
    ensures var text := op + body + close + rest;
            && OccursAt(text, op, 0)
            && (forall x :: 0 <= x < |body| ==> text[|op| + x] == body[x])
            && OccursAt(text, close, |op| + |body|)
  {
    var text := op + body + close + rest;
    assert forall j :: 0 <= j < |close| ==> text[|op| + |body| + j] == close[j];
  }

  lemma BlockAtStart(openings: seq<string>, t: nat, body: string, text: string)
    requires IsFence(openings) && t < |openings| && Absent(body + "``", Fence)
    requires OccursAt(text, openings[t], 0) && OccursAt(text, Fence, |openings[t]| + |body|)
    requires forall x :: 0 <= x < |body| ==> text[|openings[t]| + x] == body[x]
    ensures FenceMatcher(openings)(text, 0) == Some(Match(0, |openings[t]| + |body| + 3, |openings[t]|, |openings[t]| + |body|))
  {
    OpeningSelected(openings, t, text);
    BodyClosed(body, text, |openings[t]|);
    FenceAtLeading(openings, t, text, |openings[t]| + |body|);
    FenceMatcherIs(openings, text, 0);
  }

  /** A body copied into the text at `start` and closed by a fence there runs to that fence. */
  lemma BodyClosed(body: string, text: string, start: nat)
    requires Absent(body + "``", Fence)
    requires start + |body| + 3 <= |text|
    requires forall x :: 0 <= x < |body| ==> text[start + x] == body[x]
    requires OccursAt(text, Fence, start + |body|)
    ensures Find(text, Fence, start) == Some(start + |body|)
  {
    var e := start + |body|;
    var padded := body + "``";
    assert text[e] == Fence[0] && text[e + 1] == Fence[1];
    assert forall x :: 0 <= x < |padded| ==> padded[x] == text[start + x];
    forall k | start <= k < e
      ensures !OccursAt(text, Fence, k)
    {
      OccursInCopy(padded, text, start, Fence, k - start);
    }
    FindFirst(text, Fence, start, e);
  }

  lemma FenceAtLeading(openings: seq<string>, t: nat, text: string, e: nat)
    requires t < |openings| && FirstAlt(openings, text, 0) == Some(t)
    requires Find(text, Fence, |openings[t]|) == Some(e)
    ensures FenceAt(openings, text, 0) == Some(Match(0, e + 3, |openings[t]|, e))
  {
  }

  /** A stretch of prose, then a block opened by the `opening`-th alternative. */
  datatype Section = Section(prose: string, opening: nat, body: string)

  /** The text made of the sections, in order, followed by `tail`. */
  function Document(openings: seq<string>, sections: seq<Section>, tail: string): string
    requires forall i :: 0 <= i < |sections| ==> sections[i].opening < |openings|
  {
    if sections == [] then tail
    else
      var sc := sections[0];
      sc.prose + ((openings[sc.opening] + sc.body + Fence) + Document(openings, sections[1..], tail))
  }

  /** Prose and tail hold no opening fence, and each body is followed by its closing fence. */
  ghost predicate WellFormedDocument(openings: seq<string>, sections: seq<Section>, tail: string) {
    && NoOpening(openings, tail)
    && forall i :: 0 <= i < |sections| ==>
         sections[i].opening < |openings| && NoOpening(openings, sections[i].prose)
         && Absent(sections[i].body + "``", Fence)
  }

  function Bodies(sections: seq<Section>): (r: seq<string>)
    ensures |r| == |sections| && forall i :: 0 <= i < |sections| ==> r[i] == sections[i].body
  {
    seq(|sections|, i requires 0 <= i < |sections| => sections[i].body)
  }

  /** A text holding N well-formed blocks yields exactly their N bodies, in order. */
  lemma {:induction false} DocumentBlocks(openings: seq<string>, sections: seq<Section>, tail: string)
    requires IsFence(openings) && WellFormedDocument(openings, sections, tail)
    ensures FindAllGroups(FenceMatcher(openings), Document(openings, sections, tail)) == Bodies(sections)
    decreases |sections|
  {
    var M := FenceMatcher(openings);
    if sections == [] {
      forall q: nat | q < |tail| + 1
        ensures M(tail, q).None?
      {
        if q < |tail| {
          NoFenceInProse(openings, tail, "", q);
          assert tail + "" == tail;
        } else {
          NoMatchAtEnd(M, tail, q);
        }
      }
      FindAllSkip(M, tail, 0, |tail| + 1);
    } else {
      var sc := sections[0];
      var restDoc := Document(openings, sections[1..], tail);
      DocumentBlocks(openings, sections[1..], tail);
      var R := FindAllFrom(M, restDoc, 0);
      DocumentStep(openings, sc, restDoc, R);
      assert Bodies(sections) == [sc.body] + Bodies(sections[1..]);
    }
  }

  lemma DocumentStep(openings: seq<string>, sc: Section, restDoc: string, R: seq<Match>)
    requires IsFence(openings) && sc.opening < |openings|
    requires NoOpening(openings, sc.prose) && Absent(sc.body + "``", Fence)
    requires R == FindAllFrom(FenceMatcher(openings), restDoc, 0)
    ensures var doc := sc.prose + ((openings[sc.opening] + sc.body + Fence) + restDoc);
            GroupTexts(doc, FindAllFrom(FenceMatcher(openings), doc, 0)) == [sc.body] + GroupTexts(restDoc, R)
  {
    var x := (openings[sc.opening] + sc.body + Fence) + restDoc;
    OpeningShape(openings, sc.opening);
    assert x[..3] == openings[sc.opening][..3];
    SkipProse(openings, sc.prose, x);
    BlockThenRest(openings, sc.opening, sc.body, restDoc, R);
  }

  /** Leading prose without an opening fence, before a fence, changes nothing in the blocks found. */
  lemma SkipProse(openings: seq<string>, prose: string, x: string)
    requires IsFence(openings) && NoOpening(openings, prose) && OccursAt(x, Fence, 0)
    ensures GroupTexts(prose + x, FindAllFrom(FenceMatcher(openings), prose + x, 0))
         == GroupTexts(x, FindAllFrom(FenceMatcher(openings), x, 0))
  {
    var M := FenceMatcher(openings);
    var doc := prose + x;
    forall q: nat | q < |prose|
      ensures M(doc, q).None?
    {
      NoFenceInProse(openings, prose, x, q);
    }
    FindAllSkip(M, doc, 0, |prose|);
    FencePrefixShifts(openings, prose, x);
    FindAllShift(M, prose, x, 0);
    GroupsShift(prose, x, FindAllFrom(M, x, 0));
  }

  /** A text opening with a well-formed block yields its body, then what follows yields. */
  lemma BlockThenRest(openings: seq<string>, t: nat, body: string, restDoc: string, R: seq<Match>)
    requires IsFence(openings) && t < |openings| && Absent(body + "``", Fence)
    requires R == FindAllFrom(FenceMatcher(openings), restDoc, 0)
    ensures var x := (openings[t] + body + Fence) + restDoc;
            GroupTexts(x, FindAllFrom(FenceMatcher(openings), x, 0)) == [body] + GroupTexts(restDoc, R)
  {
    var op := openings[t];
    var block := op + body + Fence;
    var x := block + restDoc;
    var m0 := Match(0, |block|, |op|, |op| + |body|);
    BlockMatches(openings, t, body, restDoc, R);
    GroupsShift(block, restDoc, R);
    GroupTextsCons(x, m0, ShiftAll(R, |block|));
    MiddleSlice(op, body, Fence, restDoc);
  }

  lemma BlockMatches(openings: seq<string>, t: nat, body: string, restDoc: string, R: seq<Match>)
    requires IsFence(openings) && t < |openings| && Absent(body + "``", Fence)
    requires R == FindAllFrom(FenceMatcher(openings), restDoc, 0)
    ensures var block := openings[t] + body + Fence;
            FindAllFrom(FenceMatcher(openings), block + restDoc, 0)
              == [Match(0, |block|, |openings[t]|, |openings[t]| + |body|)] + ShiftAll(R, |block|)
  {
    var block := openings[t] + body + Fence;
    LeadingBlock(openings, t, body, restDoc);
    FindAllStep(FenceMatcher(openings), block + restDoc, 0);
    AfterBlock(openings, block, restDoc);
  }

  /** Past a leading block, the scan finds what it finds in the rest, shifted. */
  lemma AfterBlock(openings: seq<string>, block: string, restDoc: string)
    ensures FindAllFrom(FenceMatcher(openings), block + restDoc, |block|)
         == ShiftAll(FindAllFrom(FenceMatcher(openings), restDoc, 0), |block|)
  {
    FencePrefixShifts(openings, block, restDoc);
    FindAllShift(FenceMatcher(openings), block, restDoc, 0);
  }
}
