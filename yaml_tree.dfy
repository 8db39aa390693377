/**
 * `extract_image_refs_from_yaml`: a walk over a parsed YAML value that collects every string
 * leaf which `re.search(r"\.(png|jpg|jpeg|gif|webp)$", value, re.IGNORECASE)` accepts.
 */
module YamlTree {
  import opened Seqs
  import opened Regexes

  /**
   * A value as `yaml.safe_load` returns it: a string, a list, a dict (its entries in
   * insertion order, as key and value) or any other scalar.
   */
  datatype Tree =
    | Str(s: string)
    | List(items: seq<Tree>)
    | Dict(entries: seq<(Tree, Tree)>)
    | Scalar

  // ---------------------------------------------------------------- the leaf test of line 43

  /**
   * A text character matches the lower-case pattern character `p` under IGNORECASE: itself,
   * its ASCII upper case, and for `i` also U+0130 and U+0131, whose simple lower case is
   * `i` and `ı` (Python's `re` treats `i` and `ı` as one letter).
   */
  predicate FoldMatch(c: char, p: char) {
    || c == p
    || ('a' <= p <= 'z' && c as int == p as int - 32)
    || (p == 'i' && (c == '\U{0130}' || c == '\U{0131}'))
  }

  /** `pat` occurs at `k`, each character compared under IGNORECASE. */
  predicate FoldOccursAt(s: string, pat: string, k: nat) {
    k + |pat| <= |s| && forall j :: 0 <= j < |pat| ==> FoldMatch(s[k + j], pat[j])
  }

  /** Python's `$` without MULTILINE: the end of the string, or just before a final newline. */
  predicate AtEnd(s: string, k: nat) {
    k == |s| || (k == |s| - 1 && s[k] == '\n')
  }

  /** The group `(png|jpg|jpeg|gif|webp)` followed by `$` at `k`, trying alternatives from `x` on. */
  predicate ExtThenEnd(s: string, k: nat, x: nat)
    decreases |ImageExts| - x
  {
    if x >= |ImageExts| then false
    else (FoldOccursAt(s, ImageExts[x], k) && AtEnd(s, k + |ImageExts[x]|)) || ExtThenEnd(s, k, x + 1)
  }

  /** `re.search` tries the pattern at every position from `p` on. */
  predicate SearchFrom(s: string, p: nat)
    decreases |s| - p
  {
    if p >= |s| then false
    else (s[p] == '.' && ExtThenEnd(s, p + 1, 0)) || SearchFrom(s, p + 1)
  }

  /** The test of line 43. */
  predicate IsImageRef(s: string) {
    SearchFrom(s, 0)
  }

  /** `s` ends in `t`, compared under IGNORECASE. */
  predicate FoldSuffix(s: string, t: string) {
    |t| <= |s| && FoldOccursAt(s, t, |s| - |t|)
  }

  /**
   * The declarative reading: the string ends, case-insensitively, in `.` and an extension,
   * or in that and one newline.
   */
  ghost predicate HasImageSuffix(s: string) {
    exists x :: 0 <= x < |ImageExts| && (FoldSuffix(s, "." + ImageExts[x]) || FoldSuffix(s, "." + ImageExts[x] + "\n"))
  }

  /** The search succeeds exactly on the strings with such a suffix. */
  lemma ImageRefIsSuffix(s: string)
    ensures IsImageRef(s) <==> HasImageSuffix(s)
  {
    if IsImageRef(s) {
      SearchSuffix(s);
    }
    if HasImageSuffix(s) {
      SuffixSearch(s);
    }
  }

  lemma SearchSuffix(s: string)
    requires IsImageRef(s)
    ensures HasImageSuffix(s)
  {
    var p := SearchHit(s, 0);
    var x := ExtHit(s, p + 1, 0);
    DotExtSuffix(s, p, x);
  }

  lemma SuffixSearch(s: string)
    requires HasImageSuffix(s)
    ensures IsImageRef(s)
  {
    var x :| 0 <= x < |ImageExts| && (FoldSuffix(s, "." + ImageExts[x]) || FoldSuffix(s, "." + ImageExts[x] + "\n"));
    var ext := ImageExts[x];
    var p := if FoldSuffix(s, "." + ext) then |s| - |ext| - 1 else |s| - |ext| - 2;
    SuffixDotExt(s, p, x);
    ExtFound(s, p + 1, 0, x);
    SearchFound(s, 0, p);
  }

  /** A position where the search succeeds. */
  lemma {:induction false} SearchHit(s: string, p: nat) returns (q: nat)
    requires SearchFrom(s, p)
    ensures p <= q < |s| && s[q] == '.' && ExtThenEnd(s, q + 1, 0)
    decreases |s| - p
  {
    if s[p] == '.' && ExtThenEnd(s, p + 1, 0) {
      q := p;
    } else {
      q := SearchHit(s, p + 1);
    }
  }

  /** An alternative that matches and is followed by the end. */
  lemma {:induction false} ExtHit(s: string, k: nat, x: nat) returns (y: nat)
    requires ExtThenEnd(s, k, x)
    ensures x <= y < |ImageExts| && FoldOccursAt(s, ImageExts[y], k) && AtEnd(s, k + |ImageExts[y]|)
    decreases |ImageExts| - x
  {
    if FoldOccursAt(s, ImageExts[x], k) && AtEnd(s, k + |ImageExts[x]|) {
      y := x;
    } else {
      y := ExtHit(s, k, x + 1);
    }
  }

  /** The search succeeds from `p` on when it succeeds at some later `q`. */
  lemma {:induction false} SearchFound(s: string, p: nat, q: nat)
    requires p <= q < |s| && s[q] == '.' && ExtThenEnd(s, q + 1, 0)
    ensures SearchFrom(s, p)
    decreases q - p
  {
    if p < q {
      SearchFound(s, p + 1, q);
    }
  }

  /** The group matches from alternative `x` on when alternative `y` does. */
  lemma {:induction false} ExtFound(s: string, k: nat, x: nat, y: nat)
    requires x <= y < |ImageExts| && FoldOccursAt(s, ImageExts[y], k) && AtEnd(s, k + |ImageExts[y]|)
    ensures ExtThenEnd(s, k, x)
    decreases y - x
  {
    if x < y {
      ExtFound(s, k, x + 1, y);
    }
  }

  /** A `.` at `p` and extension `x` up to the end make a suffix. */
  lemma DotExtSuffix(s: string, p: nat, x: nat)
    requires p < |s| && s[p] == '.' && x < |ImageExts|
    requires FoldOccursAt(s, ImageExts[x], p + 1) && AtEnd(s, p + 1 + |ImageExts[x]|)
    ensures HasImageSuffix(s)
  {
    var ext := ImageExts[x];
    var t := "." + ext;
    assert FoldOccursAt(s, t, p) by {
      forall j | 0 <= j < |t|
        ensures FoldMatch(s[p + j], t[j])
      {
        if j > 0 {
          assert t[j] == ext[j - 1] && s[p + j] == s[(p + 1) + (j - 1)];
        }
      }
    }
    if p + 1 + |ext| == |s| {
      assert FoldSuffix(s, t);
    } else {
      var t' := t + "\n";
      assert FoldOccursAt(s, t', p) by {
        forall j | 0 <= j < |t'|
          ensures FoldMatch(s[p + j], t'[j])
        {
          if j < |t| {
            assert t'[j] == t[j];
          }
        }
      }
      assert FoldSuffix(s, t');
    }
  }

  /** ... and a suffix has its `.` at `p` followed by extension `x` up to the end. */
  lemma SuffixDotExt(s: string, p: int, x: nat)
    requires x < |ImageExts|
    requires var t := "." + ImageExts[x];
             (FoldSuffix(s, t) && p == |s| - |t|) || (FoldSuffix(s, t + "\n") && p == |s| - |t| - 1)
    ensures 0 <= p < |s| && s[p] == '.'
    ensures FoldOccursAt(s, ImageExts[x], p + 1) && AtEnd(s, p + 1 + |ImageExts[x]|)
  {
    var ext := ImageExts[x];
    var t := "." + ext;
    var u := if FoldSuffix(s, t) && p == |s| - |t| then t else t + "\n";
    assert FoldOccursAt(s, u, p);
    assert u[0] == '.' && FoldMatch(s[p + 0], u[0]);
    forall j | 0 <= j < |ext|
      ensures FoldMatch(s[(p + 1) + j], ext[j])
    {
      assert u[j + 1] == ext[j] && FoldMatch(s[p + (j + 1)], u[j + 1]);
    }
    if u != t {
      assert u[|t|] == '\n' && FoldMatch(s[p + |t|], u[|t|]);
    }
  }

  // ---------------------------------------------------------------- the walk of lines 41-51

  /**
   * The string leaves of `t` in the order the walk visits them: depth first, list items in
   * order, dict values in insertion order, keys never.
   */
  function Leaves(t: Tree): seq<string>
    decreases t, 1
  {
    match t
    case Str(s) => [s]
    case Scalar => []
    case _ => Flatten(ChildLeaves(t))
  }

  /** The leaves of each child the walk descends into. */
  function ChildLeaves(t: Tree): (r: seq<seq<string>>)
    ensures |r| == |Children(t)|
    decreases t, 0
  {
    match t
    case List(items) => seq(|items|, i requires 0 <= i < |items| => Leaves(items[i]))
    case Dict(entries) => seq(|entries|, i requires 0 <= i < |entries| => Leaves(entries[i].1))
    case _ => []
  }

  /** The values the walk descends into: the items of a list, the values of a dict. */
  function Children(t: Tree): (r: seq<Tree>)
  {
    match t
    case List(items) => items
    case Dict(entries) => seq(|entries|, i requires 0 <= i < |entries| => entries[i].1)
    case _ => []
  }

  /** What the walk appends to `images` for `t`. */
  function ImageRefs(t: Tree): seq<string>
    decreases t, 1
  {
    match t
    case Str(s) => if IsImageRef(s) then [s] else []
    case Scalar => []
    case _ => Flatten(ChildRefs(t))
  }

  function ChildRefs(t: Tree): (r: seq<seq<string>>)
    ensures |r| == |Children(t)|
    decreases t, 0
  {
    match t
    case List(items) => seq(|items|, i requires 0 <= i < |items| => ImageRefs(items[i]))
    case Dict(entries) => seq(|entries|, i requires 0 <= i < |entries| => ImageRefs(entries[i].1))
    case _ => []
  }

  /** The references are exactly the leaves that pass the test, in walk order. */
  lemma {:induction false} RefsAreFilteredLeaves(t: Tree)
    ensures ImageRefs(t) == Filter(IsImageRef, Leaves(t))
    decreases t
  {
    match t
    case Str(s) =>
      assert [s] == [] + [s];
    case Scalar =>
    case List(items) =>
      forall i | 0 <= i < |items|
        ensures ChildRefs(t)[i] == Filter(IsImageRef, ChildLeaves(t)[i])
      {
        RefsAreFilteredLeaves(items[i]);
      }
      FilterFlatten(IsImageRef, ChildLeaves(t), ChildRefs(t));
    case Dict(entries) =>
      forall i | 0 <= i < |entries|
        ensures ChildRefs(t)[i] == Filter(IsImageRef, ChildLeaves(t)[i])
      {
        RefsAreFilteredLeaves(entries[i].1);
      }
      FilterFlatten(IsImageRef, ChildLeaves(t), ChildRefs(t));
  }

  /**
   * A string is reported exactly when it is a value leaf of the tree and ends, case-insensitively,
   * in an image extension (before at most one final newline).
   */
  lemma ImageRefMember(t: Tree, x: string)
    ensures x in ImageRefs(t) <==> x in Leaves(t) && HasImageSuffix(x)
  {
    RefsAreFilteredLeaves(t);
    InFilter(IsImageRef, Leaves(t), x);
    ImageRefIsSuffix(x);
  }

  /** Dict keys are not visited: a key that looks like a file name is not reported. */
  lemma KeysIgnored()
    ensures ImageRefs(Dict([(Str("shot.png"), Scalar)])) == []
  {
    var t := Dict([(Str("shot.png"), Scalar)]);
    assert ChildRefs(t) == [[]];
  }

  /** Unlike the generic file-name scan, the leaf test ignores case. */
  lemma UpperCaseLeaf()
    ensures ImageRefs(Str("shot.PNG")) == ["shot.PNG"]
  {
    var s := "shot.PNG";
    var t := "." + ImageExts[0];
    assert FoldOccursAt(s, t, |s| - |t|) by {
      assert t == ".png";
    }
    ImageRefIsSuffix(s);
  }

  // ---------------------------------------------------------------- the walker

  /** The closure of `extract_image_refs_from_yaml`: the list `images` that `walk` appends to. */
  class ImageWalker {
    var images: seq<string>

    constructor ()
      ensures images == []
    {
      images := [];
    }

    /** `walk(value)`: appends the references under `value`, in walk order. */
    method Walk(value: Tree)
      modifies this
      ensures images == old(images) + ImageRefs(value)
      decreases value, 1
    {
      match value
      case Str(s) =>
        if IsImageRef(s) {
          images := images + [s];
        }
      case List(items) =>
        WalkItems(value, items);
      case Dict(entries) =>
        WalkValues(value, entries);
      case Scalar =>
    }

    /** `for v in value: walk(v)`. */
    method WalkItems(value: Tree, items: seq<Tree>)
      requires value == List(items)
      modifies this
      ensures images == old(images) + Flatten(ChildRefs(value))
      decreases value, 0
    {
      ghost var refs := ChildRefs(value);
      assert forall i :: 0 <= i < |items| ==> refs[i] == ImageRefs(items[i]);
      var i := 0;
      while i < |items|
        invariant 0 <= i <= |items|
        invariant images == old(images) + Flatten(refs[..i])
      {
        Walk(items[i]);
        FlattenSnoc(refs, i);
        i := i + 1;
      }
      assert refs[..i] == refs;
    }

    /** `for v in value.values(): walk(v)`. */
    method WalkValues(value: Tree, entries: seq<(Tree, Tree)>)
      requires value == Dict(entries)
      modifies this
      ensures images == old(images) + Flatten(ChildRefs(value))
      decreases value, 0
    {
      ghost var refs := ChildRefs(value);
      assert forall i :: 0 <= i < |entries| ==> refs[i] == ImageRefs(entries[i].1);
      var i := 0;
      while i < |entries|
        invariant 0 <= i <= |entries|
        invariant images == old(images) + Flatten(refs[..i])
      {
        Walk(entries[i].1);
        FlattenSnoc(refs, i);
        i := i + 1;
      }
      assert refs[..i] == refs;
    }
  }

  /** `extract_image_refs_from_yaml(parsed)`. */
  method ExtractImageRefs(parsed: Tree) returns (images: seq<string>)
    ensures images == ImageRefs(parsed)
  {
    var walker := new ImageWalker();
    walker.Walk(parsed);
    images := walker.images;
  }
}
