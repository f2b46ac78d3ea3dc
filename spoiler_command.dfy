/**
 * The spoiler command: wraps the selected blocks in spoilers, merging
 * spoilers that end up side by side, or lifts the blocks out of the
 * spoilers they are in. Blocks are addressed by their paths in the model
 * tree (as the engine's positions are) and, where the source keeps element
 * objects across changes, by element ids.
 */
module SpoilerCommand {
  import opened Wrappers
  import opened Js
  import opened ModelTree
  import opened SpoilerEditing

  // ---------------------------------------------------------------------------
  // Ancestors and the schema

  /** A strict prefix of `p` other than `Parent(p)` is a strict prefix of `Parent(p)`. */
  lemma PrefixOfParent(q: Path, p: Path)
    requires q < p && |p| > 0 && q != Parent(p)
    ensures q < Parent(p)
  {
    assert q == p[..|q|];
    assert |q| < |p| - 1;
    assert Parent(p)[..|q|] == p[..|q|];
  }

  /**
   * The nearest ancestor of the node at `p` named `spoilerContent`, going up
   * through the parents; `None` once the root has been passed.
   */
  function FindSpoilerContent(root: Node, p: Path): (r: Option<Path>)
    ensures r.Some? ==> r.value < p && NameAt(root, r.value) == Some("spoilerContent")
    ensures r.Some? ==> forall q :: r.value < q < p ==> NameAt(root, q) != Some("spoilerContent")
    ensures r.None? <==> forall q :: q < p ==> NameAt(root, q) != Some("spoilerContent")
    decreases |p|
  {
    if |p| == 0 then None
    else if NameAt(root, Parent(p)) == Some("spoilerContent") then Some(Parent(p))
    else
      var up := FindSpoilerContent(root, Parent(p));
      forall q | q < p && q != Parent(p) && NameAt(root, q) == Some("spoilerContent")
        ensures q < Parent(p)
      {
        PrefixOfParent(q, p);
      }
      up
  }

  /** The schema context of the element at `q`: the names from the root down to it. */
  function ContextOf(root: Node, q: Path): (r: seq<string>)
    ensures |r| == |q| + 1
    ensures forall i :: 0 <= i <= |q| ==> r[i] == NameAt(root, q[..i]).GetOr("")
  {
    seq(|q| + 1, i requires 0 <= i <= |q| => NameAt(root, q[..i]).GetOr(""))
  }

  /**
   * `#canBeSpoiler`: a spoiler may stand in the block's parent and the block
   * may stand in a `spoilerContent`. `base` is the rest of the schema.
   */
  predicate CanBeSpoiler(root: Node, p: Path, base: (seq<string>, string) -> bool)
    requires |p| > 0
  {
    CheckChild(ContextOf(root, Parent(p)), "spoiler", base)
    && CheckChild(["spoilerContent"], NameAt(root, p).GetOr(""), base)
  }

  /** A block with a spoiler among its ancestors can never be wrapped in another spoiler. */
  lemma InsideSpoilerCannotBeSpoiler(root: Node, p: Path, q: Path, base: (seq<string>, string) -> bool)
    requires q < p && NameAt(root, q) == Some("spoiler")
    ensures !CanBeSpoiler(root, p, base)
  {
    var context := ContextOf(root, Parent(p));
    assert q == Parent(p)[..|q|];
    assert context[|q|] == "spoiler";
    NoNestedSpoiler(context, |q|, base);
  }

  // ---------------------------------------------------------------------------
  // Groups of adjacent blocks

  /** A range of sibling positions, from the position before its first block to the position after its last. */
  datatype Range = Range(start: Path, end: Path)

  /** Block `j` closes a group: it is the last block or the next block is not its next sibling. */
  predicate EndsGroup(blocks: seq<Path>, j: nat)
    requires j < |blocks|
  {
    j + 1 == |blocks| || !Adjacent(blocks[j], blocks[j + 1])
  }

  /** How many of the first `i` blocks close a group. */
  function CountEnds(blocks: seq<Path>, i: nat): nat
    requires i <= |blocks|
  {
    if i == 0 then 0 else CountEnds(blocks, i - 1) + (if EndsGroup(blocks, i - 1) then 1 else 0)
  }

  /**
   * `bounds` cuts the blocks into maximal runs of consecutive siblings:
   * group `k` is the blocks `bounds[k] .. bounds[k + 1] - 1`, each followed
   * by its next sibling inside the group, and no group can be extended by
   * the first block of the next.
   */
  predicate IsGroups(blocks: seq<Path>, bounds: seq<nat>) {
    && |bounds| >= 1 && bounds[0] == 0 && bounds[|bounds| - 1] == |blocks|
    && (forall k :: 0 <= k < |bounds| ==> bounds[k] <= |blocks|)
    && (forall k :: 0 <= k < |bounds| - 1 ==> bounds[k] < bounds[k + 1])
    && (forall k :: 0 <= k < |bounds| - 1 ==> bounds[k] < |blocks|)
    && (forall k, j :: 0 <= k < |bounds| - 1 && bounds[k] <= j && j + 1 < bounds[k + 1] ==> !EndsGroup(blocks, j))
    && (forall k :: 0 < k < |bounds| ==> 0 < bounds[k] && EndsGroup(blocks, bounds[k] - 1))
  }

  predicate NonRoot(blocks: seq<Path>) {
    forall i :: 0 <= i < |blocks| ==> |blocks[i]| > 0
  }

  /** The range of the group from block `lo` to block `hi - 1`. */
  function GroupRange(blocks: seq<Path>, lo: nat, hi: nat): Range
    requires NonRoot(blocks) && lo < hi <= |blocks|
  {
    Range(blocks[lo], NextSibling(blocks[hi - 1]))
  }

  /** The group bounds among the first `i` blocks: `0`, then one past every block that closes a group. */
  function Bounds(blocks: seq<Path>, i: nat): (b: seq<nat>)
    requires i <= |blocks|
    ensures |b| == CountEnds(blocks, i) + 1 && b[0] == 0
    ensures forall k :: 0 <= k < |b| ==> b[k] <= i
    ensures forall k :: 0 <= k < |b| - 1 ==> b[k] < b[k + 1]
  {
    if i == 0 then [0]
    else Bounds(blocks, i - 1) + (if EndsGroup(blocks, i - 1) then [i] else [])
  }

  /** Range `k` is the range of group `k`. */
  predicate RangesOf(blocks: seq<Path>, bounds: seq<nat>, ranges: seq<Range>)
    requires NonRoot(blocks)
  {
    && |bounds| == |ranges| + 1
    && (forall k :: 0 <= k < |bounds| - 1 ==> bounds[k] < bounds[k + 1])
    && (forall k :: 0 <= k < |bounds| ==> bounds[k] <= |blocks|)
    && (forall k :: 0 <= k < |ranges| ==> ranges[k] == GroupRange(blocks, bounds[k], bounds[k + 1]))
  }

  /**
   * `#getRangesOfBlockGroups`: one range per maximal run of consecutive
   * sibling blocks, in order (see `BoundsAreGroups`); the range runs from
   * before the run's first block to after its last. There is one range per
   * block that closes a group, so none for no blocks.
   */
  method GetRangesOfBlockGroups(blocks: seq<Path>) returns (ranges: seq<Range>, ghost bounds: seq<nat>)
    requires NonRoot(blocks)
    ensures bounds == Bounds(blocks, |blocks|) && IsGroups(blocks, bounds) && |ranges| == |bounds| - 1
    ensures RangesOf(blocks, bounds, ranges)
    ensures |ranges| == CountEnds(blocks, |blocks|)
  {
    var startPosition: Option<Path> := None;
    var i := 0;
    ranges := [];
    bounds := [0];
    while i < |blocks|
      invariant i <= |blocks| && Scanned(blocks, i, startPosition, ranges, bounds)
    {
      startPosition, ranges, bounds := ScanBlock(blocks, i, startPosition, ranges, bounds);
      i := i + 1;
    }
    BoundsAreGroups(blocks);
  }

  /**
   * What the loop of `#getRangesOfBlockGroups` knows after the first `i`
   * blocks: the bounds and ranges of the groups closed so far, and the
   * start of the open group, if any.
   */
  predicate Scanned(blocks: seq<Path>, i: nat, startPosition: Option<Path>, ranges: seq<Range>, bounds: seq<nat>)
    requires NonRoot(blocks) && i <= |blocks|
  {
    && bounds == Bounds(blocks, i) && |bounds| == |ranges| + 1
    && (startPosition.None? <==> bounds[|bounds| - 1] == i)
    && (startPosition.Some? ==> startPosition.value == blocks[bounds[|bounds| - 1]])
    && RangesOf(blocks, bounds, ranges)
  }

  /** One iteration of the loop of `#getRangesOfBlockGroups`: block `i` opens a group, closes one, or both. */
  method ScanBlock(blocks: seq<Path>, i: nat, startPosition: Option<Path>, ranges: seq<Range>, ghost bounds: seq<nat>)
    returns (startPosition': Option<Path>, ranges': seq<Range>, ghost bounds': seq<nat>)
    requires NonRoot(blocks) && i < |blocks| && Scanned(blocks, i, startPosition, ranges, bounds)
    ensures Scanned(blocks, i + 1, startPosition', ranges', bounds')
  {
    var block := blocks[i];
    startPosition' := startPosition;
    if startPosition'.None? {
      startPosition' := Some(block);
    }
    if i + 1 == |blocks| || !Adjacent(block, blocks[i + 1]) {
      assert EndsGroup(blocks, i);
      assert Range(startPosition'.value, NextSibling(block)) == GroupRange(blocks, bounds[|bounds| - 1], i + 1);
      RangesGrow(blocks, i, bounds, ranges);
      ranges' := ranges + [Range(startPosition'.value, NextSibling(block))];
      bounds' := bounds + [i + 1];
      startPosition' := None;
    } else {
      BoundsContinue(blocks, i);
      ranges', bounds' := ranges, bounds;
    }
  }

  /** A block that does not close a group adds no bound. */
  lemma BoundsContinue(blocks: seq<Path>, i: nat)
    requires i + 1 < |blocks| && Adjacent(blocks[i], blocks[i + 1])
    ensures !EndsGroup(blocks, i) && Bounds(blocks, i + 1) == Bounds(blocks, i)
  {
    assert Bounds(blocks, i) + [] == Bounds(blocks, i);
  }

  /** Ranges that are the ranges of the groups `Bounds` cuts are `GroupRanges`. */
  lemma RangesAreGroupRanges(blocks: seq<Path>, bounds: seq<nat>, ranges: seq<Range>)
    requires NonRoot(blocks) && bounds == Bounds(blocks, |blocks|) && RangesOf(blocks, bounds, ranges)
    ensures ranges == GroupRanges(blocks)
  {
  }

  /** Closing a group at block `i` appends its range and keeps the earlier ones. */
  lemma RangesGrow(blocks: seq<Path>, i: nat, bounds: seq<nat>, ranges: seq<Range>)
    requires NonRoot(blocks) && i < |blocks| && EndsGroup(blocks, i)
    requires bounds == Bounds(blocks, i) && |bounds| == |ranges| + 1
    requires RangesOf(blocks, bounds, ranges)
    requires bounds[|bounds| - 1] < i + 1
    ensures Bounds(blocks, i + 1) == bounds + [i + 1]
    ensures RangesOf(blocks, bounds + [i + 1], ranges + [GroupRange(blocks, bounds[|bounds| - 1], i + 1)])
  {
    assert Bounds(blocks, i + 1) == Bounds(blocks, i) + [i + 1];
    var r := ranges + [GroupRange(blocks, bounds[|bounds| - 1], i + 1)];
    var b := bounds + [i + 1];
    forall k | 0 <= k < |r|
      ensures r[k] == GroupRange(blocks, b[k], b[k + 1])
    {
      if k < |ranges| {
        assert r[k] == ranges[k] && b[k] == bounds[k] && b[k + 1] == bounds[k + 1];
      }
    }
  }

  /** After the last bound among the first `i` blocks, no block closes a group. */
  lemma {:induction false} BoundsTail(blocks: seq<Path>, i: nat)
    requires i <= |blocks|
    ensures forall j :: Bounds(blocks, i)[|Bounds(blocks, i)| - 1] <= j < i ==> !EndsGroup(blocks, j)
  {
    if i > 0 {
      BoundsTail(blocks, i - 1);
      if !EndsGroup(blocks, i - 1) {
        assert Bounds(blocks, i) == Bounds(blocks, i - 1);
      }
    }
  }

  /** Inside the first `i` blocks, a block followed by its sibling never closes a group. */
  lemma {:induction false} BoundsInside(blocks: seq<Path>, i: nat)
    requires i <= |blocks|
    ensures forall k, j ::
      0 <= k < |Bounds(blocks, i)| - 1 && Bounds(blocks, i)[k] <= j && j + 1 < Bounds(blocks, i)[k + 1] ==>
        !EndsGroup(blocks, j)
  {
    if i > 0 {
      BoundsInside(blocks, i - 1);
      var b := Bounds(blocks, i - 1);
      var b' := Bounds(blocks, i);
      if EndsGroup(blocks, i - 1) {
        assert b' == b + [i];
        BoundsTail(blocks, i - 1);
        forall k, j | 0 <= k < |b'| - 1 && b'[k] <= j && j + 1 < b'[k + 1]
          ensures !EndsGroup(blocks, j)
        {
          if k < |b| - 1 {
            assert b'[k] == b[k] && b'[k + 1] == b[k + 1];
          } else {
            assert b'[k] == b[|b| - 1];
          }
        }
      } else {
        assert b' == b;
      }
    }
  }

  /** Every bound after the first follows a block that closes a group. */
  lemma {:induction false} BoundsCut(blocks: seq<Path>, i: nat)
    requires i <= |blocks|
    ensures forall k :: 0 < k < |Bounds(blocks, i)| ==>
      0 < Bounds(blocks, i)[k] && EndsGroup(blocks, Bounds(blocks, i)[k] - 1)
  {
    if i > 0 {
      BoundsCut(blocks, i - 1);
      var b := Bounds(blocks, i - 1);
      var b' := Bounds(blocks, i);
      if EndsGroup(blocks, i - 1) {
        assert b' == b + [i];
        forall k | 0 < k < |b'|
          ensures 0 < b'[k] && EndsGroup(blocks, b'[k] - 1)
        {
          if k < |b| {
            assert b'[k] == b[k];
          }
        }
      } else {
        assert b' == b;
      }
    }
  }

  /** The bounds `#getRangesOfBlockGroups` follows cut all the blocks into maximal sibling runs. */
  lemma BoundsAreGroups(blocks: seq<Path>)
    ensures IsGroups(blocks, Bounds(blocks, |blocks|))
  {
    var b := Bounds(blocks, |blocks|);
    BoundsInside(blocks, |blocks|);
    BoundsCut(blocks, |blocks|);
    assert b[|b| - 1] == |blocks| by {
      if |blocks| > 0 {
        assert EndsGroup(blocks, |blocks| - 1);
        assert b == Bounds(blocks, |blocks| - 1) + [|blocks|];
      }
    }
    assert forall k :: 0 <= k < |b| - 1 ==> b[k] < |blocks| by {
      forall k | 0 <= k < |b| - 1 ensures b[k] < |blocks| {
        assert b[k] < b[k + 1];
      }
    }
  }

  /** Inside a group, block `j` is the `(j - lo)`-th next sibling of the group's first block. */
  lemma {:induction false} GroupIsSiblingRun(blocks: seq<Path>, bounds: seq<nat>, k: nat, j: nat)
    requires NonRoot(blocks) && IsGroups(blocks, bounds) && k < |bounds| - 1
    requires bounds[k] <= j < bounds[k + 1]
    ensures blocks[j] == Parent(blocks[bounds[k]]) + [Last(blocks[bounds[k]]) + (j - bounds[k])]
    decreases j
  {
    var lo := bounds[k];
    if j == lo {
      assert blocks[j] == Parent(blocks[j]) + [Last(blocks[j])];
    } else {
      GroupIsSiblingRun(blocks, bounds, k, j - 1);
      assert !EndsGroup(blocks, j - 1);
      assert Adjacent(blocks[j - 1], blocks[j]);
    }
  }

  /** There are no groups exactly when there are no blocks. */
  lemma NoGroupsIffNoBlocks(blocks: seq<Path>, bounds: seq<nat>)
    requires IsGroups(blocks, bounds)
    ensures |bounds| == 1 <==> |blocks| == 0
  {
    if |bounds| > 1 {
      assert bounds[0] < bounds[1] <= bounds[|bounds| - 1] by {
        BoundsIncrease(bounds, 1, |bounds| - 1);
      }
    }
  }

  lemma {:induction false} BoundsIncrease(bounds: seq<nat>, a: nat, b: nat)
    requires a <= b < |bounds|
    requires forall k :: 0 <= k < |bounds| - 1 ==> bounds[k] < bounds[k + 1]
    ensures bounds[a] <= bounds[b]
    decreases b - a
  {
    if a < b {
      BoundsIncrease(bounds, a + 1, b);
    }
  }

  // ---------------------------------------------------------------------------
  // The writer steps: wrap, merge, unwrap

  /**
   * The children of an element once its children `s .. e - 1` are wrapped:
   * `spoiler[spoilerTitle, spoilerContent(those children)]` stands in their place.
   */
  function Wrapped(ch: seq<Node>, s: nat, e: nat, contentId: nat, spoilerId: nat, titleId: nat): (r: seq<Node>)
    requires s < e <= |ch|
    ensures |r| == |ch| - (e - s) + 1
    ensures r[..s] == ch[..s] && r[s + 1..] == ch[e..]
    ensures IsSpoiler(r[s]) && r[s].id == spoilerId
    ensures r[s].children[0] == Element(titleId, "spoilerTitle", [])
    ensures r[s].children[1] == Element(contentId, "spoilerContent", ch[s..e])
  {
    var spoiler := Element(spoilerId, "spoiler", [Element(titleId, "spoilerTitle", []), Element(contentId, "spoilerContent", ch[s..e])]);
    assert (ch[..s] + [spoiler] + ch[e..])[s + 1..] == ch[e..];
    ch[..s] + [spoiler] + ch[e..]
  }

  /** The content of three runs of siblings, one after the other. */
  lemma {:induction false} FlatThree(a: seq<Node>, b: seq<Node>, c: seq<Node>)
    ensures Flat(a + b + c) == Flat(a) + Flat(b) + Flat(c)
  {
    FlatConcat(a + b, c);
    FlatConcat(a, b);
  }

  /** The content of five runs of siblings, with the middle three grouped. */
  lemma {:induction false} FlatFive(a: seq<Node>, b: seq<Node>, c: seq<Node>, d: seq<Node>, e: seq<Node>)
    ensures Flat(a + b + c + d + e) == Flat(a) + (Flat(b) + Flat(c) + Flat(d)) + Flat(e)
  {
    var x := a + b + c;
    var y := x + d;
    FlatThree(a, b, c);
    FlatConcat(x, d);
    FlatConcat(y, e);
    Regroup(Flat(a), Flat(b), Flat(c), Flat(d), Flat(e));
  }

  /** Concatenation regrouped around the middle three parts. */
  lemma Regroup<T>(p: seq<T>, q: seq<T>, r: seq<T>, s: seq<T>, t: seq<T>)
    ensures p + q + r + s + t == p + (q + r + s) + t
  {
  }

  /** The content of a sibling list is the content of its three parts around `s .. e - 1`. */
  lemma {:induction false} FlatSplit(ch: seq<Node>, s: nat, e: nat)
    requires s <= e <= |ch|
    ensures Flat(ch) == Flat(ch[..s]) + Flat(ch[s..e]) + Flat(ch[e..])
  {
    var a, b, c := ch[..s], ch[s..e], ch[e..];
    assert ch == a + b + c;
    FlatThree(a, b, c);
  }

  /** Wrapping keeps the content: the new title is empty and the content is the wrapped children. */
  lemma {:induction false} WrappedKeepsContent(ch: seq<Node>, s: nat, e: nat, contentId: nat, spoilerId: nat, titleId: nat)
    requires s < e <= |ch|
    ensures Flat(Wrapped(ch, s, e, contentId, spoilerId, titleId)) == Flat(ch)
  {
    var r := Wrapped(ch, s, e, contentId, spoilerId, titleId);
    SpoilerContent(r[s]);
    FlatSplit(r, s, s + 1);
    assert r[s..s + 1] == [r[s]];
    FlatSplit(ch, s, e);
  }

  /**
   * `#wrapInSpoiler`: wraps the sibling range `s .. e - 1` of the element at
   * `parent` in a new `spoilerContent`, wraps that in a new `spoiler` and
   * inserts a new empty `spoilerTitle` before the content. Returns the
   * spoiler (the source returns its content, whose parent it is).
   */
  method WrapInSpoiler(doc: Document, parent: Path, s: nat, e: nat) returns (spoilerId: nat)
    requires doc.Valid() && IsElementAt(doc.root, parent) && s < e <= |At(doc.root, parent).value.children|
    modifies doc
    ensures doc.Valid() && doc.nextId == old(doc.nextId) + 3 && spoilerId == old(doc.nextId) + 1
    ensures doc.root == Replace(old(doc.root), parent,
      Wrapped(At(old(doc.root), parent).value.children, s, e, old(doc.nextId), old(doc.nextId) + 1, old(doc.nextId) + 2))
  {
    var original := At(doc.root, parent).value.children;
    var ch := original;
    var contentId := doc.CreateId();
    // writer.wrap(range, spoilerContent)
    var content := Element(contentId, "spoilerContent", ch[s..e]);
    ch := ch[..s] + [content] + ch[e..];
    assert ch[..s] == original[..s] && ch[s] == content && ch[s + 1..] == original[e..];
    spoilerId := doc.CreateId();
    // writer.wrap(range on spoilerContent, spoiler)
    ch := ch[..s] + [Element(spoilerId, "spoiler", [ch[s]])] + ch[s + 1..];
    assert ch[..s] == original[..s] && ch[s + 1..] == original[e..];
    var titleId := doc.CreateId();
    // writer.insert(spoilerTitle, spoiler, 0)
    ch := ch[s := ch[s].(children := [Element(titleId, "spoilerTitle", [])] + ch[s].children)];
    assert ch[s].children == [Element(titleId, "spoilerTitle", []), content];
    assert ch[..s] == original[..s] && ch[s + 1..] == original[e..];
    assert ch == Wrapped(original, s, e, contentId, spoilerId, titleId);
    doc.SetChildren(parent, ch);
  }

  /** A spoiler after merging the next one into it: the next content's children are appended to its content. */
  function Merged(current: Node, next: Node): (r: Node)
    requires IsSpoiler(current) && IsSpoiler(next)
    ensures IsSpoiler(r) && r.id == current.id && r.children[0] == current.children[0]
    ensures r.children[1].id == current.children[1].id
    ensures r.children[1].children == current.children[1].children + next.children[1].children
  {
    var content := current.children[1];
    current.(children := [current.children[0], content.(children := content.children + next.children[1].children)])
  }

  /** The children of an element once the spoiler at `a + 1` is merged into the spoiler at `a`. */
  function MergedChildren(ch: seq<Node>, a: nat): (r: seq<Node>)
    requires a + 1 < |ch| && IsSpoiler(ch[a]) && IsSpoiler(ch[a + 1])
    ensures |r| == |ch| - 1 && r[..a] == ch[..a] && r[a + 1..] == ch[a + 2..]
    ensures r[a] == Merged(ch[a], ch[a + 1])
  {
    assert (ch[..a] + [Merged(ch[a], ch[a + 1])] + ch[a + 2..])[a + 1..] == ch[a + 2..];
    ch[..a] + [Merged(ch[a], ch[a + 1])] + ch[a + 2..]
  }

  /** Merging keeps the content: only the later spoiler's title disappears. */
  lemma {:induction false} MergedKeepsContent(ch: seq<Node>, a: nat)
    requires a + 1 < |ch| && IsSpoiler(ch[a]) && IsSpoiler(ch[a + 1])
    ensures Flat(MergedChildren(ch, a)) == Flat(ch)
  {
    var cur, next := ch[a], ch[a + 1];
    var m := Merged(cur, next);
    SpoilerContent(cur);
    SpoilerContent(next);
    SpoilerContent(m);
    FlatConcat(cur.children[1].children, next.children[1].children);
    FlatSplit(ch, a, a + 2);
    assert ch[a..a + 2] == [cur] + [next];
    FlatConcat([cur], [next]);
    var r := MergedChildren(ch, a);
    FlatSplit(r, a, a + 1);
    assert r[a..a + 1] == [m];
  }

  /** The content of a well-formed spoiler is the content of its `spoilerContent`. */
  lemma {:induction false} SpoilerContent(n: Node)
    requires IsSpoiler(n)
    ensures Flat([n]) == Flat(n.children[1].children)
  {
    var title, content := n.children[0], n.children[1];
    FlatDissolved(n);
    assert n.children == [title] + [content];
    FlatConcat([title], [content]);
    FlatDropped(title);
    FlatDissolved(content);
  }

  /**
   * The body of the `reduce` callback when `currentSpoiler.nextSibling ===
   * nextSpoiler`: moves the children of the next spoiler's content to the
   * end of the current spoiler's content, then removes the next spoiler.
   */
  method MergeSpoilers(doc: Document, current: Path)
    requires doc.Valid() && |current| > 0
    requires At(doc.root, current).Some? && IsSpoiler(At(doc.root, current).value)
    requires At(doc.root, NextSibling(current)).Some? && IsSpoiler(At(doc.root, NextSibling(current)).value)
    modifies doc
    ensures doc.Valid() && doc.nextId == old(doc.nextId)
    ensures IsElementAt(old(doc.root), Parent(current))
    ensures var ch := At(old(doc.root), Parent(current)).value.children;
      && Last(current) + 1 < |ch| && IsSpoiler(ch[Last(current)]) && IsSpoiler(ch[Last(current) + 1])
      && doc.root == Replace(old(doc.root), Parent(current), MergedChildren(ch, Last(current)))
  {
    var parent, a := Parent(current), Last(current);
    assert current == parent + [a];
    AtChild(doc.root, parent, a);
    AtChild(doc.root, parent, a + 1);
    var original := At(doc.root, parent).value.children;
    var ch := original;
    var cur, next := ch[a], ch[a + 1];
    // writer.move(range in the next content, end of the current content)
    ch := ch[a := cur.(children := [cur.children[0], cur.children[1].(children := cur.children[1].children + next.children[1].children)])];
    ch := ch[a + 1 := next.(children := [next.children[0], next.children[1].(children := [])])];
    // writer.remove(nextSpoiler)
    ch := ch[..a + 1] + ch[a + 2..];
    assert ch == MergedChildren(original, a);
    doc.SetChildren(parent, ch);
  }

  /**
   * The children of an element once its child `k` (a spoiler) loses the
   * title at `t - 1` and both it and the content at `t` are unwrapped: the
   * spoiler's other children and the content's children stand in its place.
   */
  function Lifted(gc: seq<Node>, k: nat, t: nat): (r: seq<Node>)
    requires k < |gc| && gc[k].Element? && 0 < t < |gc[k].children| && gc[k].children[t].Element?
    ensures |r| == |gc| - 1 + (|gc[k].children| - 2) + |gc[k].children[t].children|
  {
    var sch := gc[k].children;
    gc[..k] + sch[..t - 1] + sch[t].children + sch[t + 1..] + gc[k + 1..]
  }

  /** Lifting keeps the content: the spoiler and its content were only wrappers, and the title is dropped. */
  lemma {:induction false} LiftedKeepsContent(gc: seq<Node>, k: nat, t: nat)
    requires k < |gc| && gc[k].Element? && gc[k].name == "spoiler" && 0 < t < |gc[k].children|
    requires gc[k].children[t - 1].Element? && gc[k].children[t - 1].name == "spoilerTitle"
    requires gc[k].children[t].Element? && gc[k].children[t].name == "spoilerContent"
    ensures Flat(Lifted(gc, k, t)) == Flat(gc)
  {
    var sch := gc[k].children;
    var before, after := sch[..t - 1], sch[t + 1..];
    var inner := sch[t].children;
    SpoilerInner(gc[k], t);
    FlatSplit(gc, k, k + 1);
    assert gc[k..k + 1] == [gc[k]];
    FlatFive(gc[..k], before, inner, after, gc[k + 1..]);
  }

  /** The content of a spoiler whose child `t` is its content and child `t - 1` a title. */
  lemma {:induction false} SpoilerInner(sp: Node, t: nat)
    requires sp.Element? && sp.name == "spoiler" && 0 < t < |sp.children|
    requires sp.children[t - 1].Element? && sp.children[t - 1].name == "spoilerTitle"
    requires sp.children[t].Element? && sp.children[t].name == "spoilerContent"
    ensures Flat([sp]) == Flat(sp.children[..t - 1]) + Flat(sp.children[t].children) + Flat(sp.children[t + 1..])
  {
    var sch := sp.children;
    var title, content := sch[t - 1], sch[t];
    FlatDissolved(sp);
    FlatDropped(title);
    FlatDissolved(content);
    FlatSplit(sch, t - 1, t + 1);
    assert sch[t - 1..t + 1] == [title] + [content];
    FlatConcat([title], [content]);
    assert Flat(sch[t - 1..t + 1]) == Flat(content.children);
  }

  /** Removing the title, then unwrapping the spoiler, then the content (found at `k + t - 1`) gives `Lifted`. */
  lemma {:induction false} LiftedSteps(gc: seq<Node>, k: nat, t: nat)
    requires k < |gc| && gc[k].Element? && 0 < t < |gc[k].children| && gc[k].children[t].Element?
    ensures
      var g1 := gc[..k] + (gc[k].children[..t - 1] + gc[k].children[t..]) + gc[k + 1..];
      && k + t - 1 < |g1| && g1[k + t - 1] == gc[k].children[t]
      && g1[..k + t - 1] + g1[k + t - 1].children + g1[k + t..] == Lifted(gc, k, t)
  {
    var sch := gc[k].children;
    var g1 := gc[..k] + (sch[..t - 1] + sch[t..]) + gc[k + 1..];
    assert g1[k + t - 1] == sch[t];
    assert g1[..k + t - 1] == gc[..k] + sch[..t - 1];
    assert g1[k + t..] == sch[t + 1..] + gc[k + 1..];
  }

  const MissingTitle := "Invalid structure, expected a `<spoilerTitle>` adjacent to `<spoilerContent>`"
  const MissingSpoiler := "Invalid structure, expected a `<spoiler>` as the parent of a `<spoilerContent>`"

  /** Whether the content at `content` is preceded by a `spoilerTitle` element (`spoilerContent.previousSibling`). */
  predicate HasTitleBefore(root: Node, content: Path)
    requires |content| > 0
  {
    Last(content) > 0 && NameAt(root, Parent(content) + [Last(content) - 1]) == Some("spoilerTitle")
  }

  /**
   * What one pass of `#removeSpoiler`'s loop does to the document for the
   * content at `content`: the first structural error, or the document with
   * the title removed and the spoiler and the content unwrapped.
   */
  function Unwrapped(root: Node, content: Path): (r: Result<Node, Exception>)
    requires root.Element? && root.name == "$root" && NameAt(root, content) == Some("spoilerContent")
    ensures |content| > 0
    ensures r == Err(Error(MissingTitle)) <==> !HasTitleBefore(root, content)
    ensures r == Err(Error(MissingSpoiler)) <==>
      HasTitleBefore(root, content) && NameAt(root, Parent(content)) != Some("spoiler")
    ensures r.Ok? ==> r.value.Element? && r.value.name == "$root" && Content(r.value) == Content(root)
  {
    if !HasTitleBefore(root, content) then Err(Error(MissingTitle))
    else if NameAt(root, Parent(content)) != Some("spoiler") then Err(Error(MissingSpoiler))
    else
      var spoiler := Parent(content);
      var g, k, t := Parent(spoiler), Last(spoiler), Last(content);
      assert spoiler == g + [k] && content == spoiler + [t];
      AtChild(root, g, k);
      AtChild(root, spoiler, t);
      AtChild(root, spoiler, t - 1);
      var gc := At(root, g).value.children;
      LiftedKeepsContent(gc, k, t);
      ReplaceKeepsContent(root, g, Lifted(gc, k, t));
      Ok(Replace(root, g, Lifted(gc, k, t)))
  }

  /**
   * One pass of `#removeSpoiler`'s loop for the content found above a block:
   * fails with the first structural error, else removes the title and
   * unwraps the spoiler and the content, lifting the content's children
   * into the spoiler's parent.
   */
  method UnwrapSpoiler(doc: Document, content: Path) returns (r: Result<(), Exception>)
    requires doc.Valid() && NameAt(doc.root, content) == Some("spoilerContent")
    modifies doc
    ensures doc.Valid() && doc.nextId == old(doc.nextId) && |content| > 0
    ensures r == Err(Error(MissingTitle)) <==> !HasTitleBefore(old(doc.root), content)
    ensures r == Err(Error(MissingSpoiler)) <==>
      HasTitleBefore(old(doc.root), content) && NameAt(old(doc.root), Parent(content)) != Some("spoiler")
    ensures r.Ok? <==> HasTitleBefore(old(doc.root), content) && NameAt(old(doc.root), Parent(content)) == Some("spoiler")
    ensures r.Err? ==> doc.root == old(doc.root)
    ensures r.Ok? ==> |Parent(content)| > 0 && IsElementAt(old(doc.root), Parent(Parent(content)))
    ensures Content(doc.root) == old(Content(doc.root))
    ensures r.Err? ==> Unwrapped(old(doc.root), content) == Err(r.error)
    ensures r.Ok? ==> Unwrapped(old(doc.root), content) == Ok(doc.root)
  {
    assert |content| > 0;
    if !HasTitleBefore(doc.root, content) {
      return Err(Error(MissingTitle));
    }
    var spoiler := Parent(content);
    if NameAt(doc.root, spoiler) != Some("spoiler") {
      return Err(Error(MissingSpoiler));
    }
    assert |spoiler| > 0;
    var g, k, t := Parent(spoiler), Last(spoiler), Last(content);
    assert spoiler == g + [k] && content == spoiler + [t];
    AtChild(doc.root, g, k);
    AtChild(doc.root, spoiler, t);
    AtChild(doc.root, spoiler, t - 1);
    var original := At(doc.root, g).value.children;
    var gc := original;
    var sch := gc[k].children;
    // writer.remove(spoilerTitle)
    sch := sch[..t - 1] + sch[t..];
    // writer.unwrap(spoiler)
    gc := gc[..k] + sch + gc[k + 1..];
    // writer.unwrap(spoilerContent), which now stands at k + t - 1
    LiftedSteps(original, k, t);
    gc := gc[..k + t - 1] + gc[k + t - 1].children + gc[k + t..];
    LiftedKeepsContent(original, k, t);
    ReplaceKeepsContent(doc.root, g, gc);
    doc.SetChildren(g, gc);
    return Ok(());
  }

  // ---------------------------------------------------------------------------
  // Applying a spoiler

  /** Blocks in document order, none inside another, as `getSelectedBlocks` yields them. */
  predicate Ordered(blocks: seq<Path>) {
    forall i, j :: 0 <= i < j < |blocks| ==> Before(blocks[i], blocks[j])
  }

  predicate InDocument(root: Node, blocks: seq<Path>) {
    forall i :: 0 <= i < |blocks| ==> At(root, blocks[i]).Some?
  }

  /** `Array.prototype.reverse`. */
  function Reverse(s: seq<nat>): (r: seq<nat>)
    ensures |r| == |s| && forall i :: 0 <= i < |s| ==> r[i] == s[|s| - 1 - i]
  {
    if |s| == 0 then [] else [s[|s| - 1]] + Reverse(s[..|s| - 1])
  }

  /** Whatever lies before the first block of a group lies before the first block of every later group. */
  lemma {:induction false} EarlierGroup(blocks: seq<Path>, bounds: seq<nat>, k: nat, q: Path)
    requires IsGroups(blocks, bounds) && Ordered(blocks) && k + 2 < |bounds|
    requires Before(q, blocks[bounds[k]])
    ensures Before(q, blocks[bounds[k + 1]])
  {
    BeforeTransitive(q, blocks[bounds[k]], blocks[bounds[k + 1]]);
  }

  /**
   * Group `k` can still be wrapped in a document that agrees with the
   * original before the first block of the next group: its blocks are the
   * children `s .. e - 1` of one element.
   */
  lemma {:induction false} GroupWrappable(orig: Node, cur: Node, blocks: seq<Path>, bounds: seq<nat>, k: nat)
    requires NonRoot(blocks) && InDocument(orig, blocks) && Ordered(blocks)
    requires IsGroups(blocks, bounds) && k + 1 < |bounds|
    requires k + 2 == |bounds| ==> cur == orig
    requires k + 2 < |bounds| ==> forall q :: Before(q, blocks[bounds[k + 1]]) ==> At(cur, q) == At(orig, q)
    ensures var g := GroupRange(blocks, bounds[k], bounds[k + 1]);
      && |g.start| > 0 && |g.end| > 0 && Parent(g.end) == Parent(g.start) && Last(g.start) < Last(g.end)
      && IsElementAt(cur, Parent(g.start)) && Last(g.end) <= |At(cur, Parent(g.start)).value.children|
  {
    var lo, hi := bounds[k], bounds[k + 1];
    var p, s := Parent(blocks[lo]), Last(blocks[lo]);
    GroupIsSiblingRun(blocks, bounds, k, hi - 1);
    var x := s + (hi - 1 - lo);
    assert blocks[hi - 1] == p + [x];
    assert Parent(blocks[hi - 1]) == p && Last(blocks[hi - 1]) == x;
    if k + 2 < |bounds| {
      assert Before(blocks[hi - 1], blocks[hi]);
    }
    assert At(cur, p + [x]).Some?;
    AtChild(cur, p, x);
  }

  /** The unchanged part before group `k` stays unchanged after wrapping group `k`. */
  lemma {:induction false} WrapKeepsBefore(orig: Node, before: Node, p: Path, ch: seq<Node>, s: nat,
                        blocks: seq<Path>, bounds: seq<nat>, k: nat)
    requires IsElementAt(before, p) && s <= |ch| && s <= |At(before, p).value.children|
    requires ch[..s] == At(before, p).value.children[..s]
    requires IsGroups(blocks, bounds) && Ordered(blocks) && k + 1 < |bounds| && blocks[bounds[k]] == p + [s]
    requires k + 2 == |bounds| ==> before == orig
    requires k + 2 < |bounds| ==> forall q :: Before(q, blocks[bounds[k + 1]]) ==> At(before, q) == At(orig, q)
    ensures forall q :: Before(q, blocks[bounds[k]]) ==> At(Replace(before, p, ch), q) == At(orig, q)
  {
    forall q | Before(q, blocks[bounds[k]])
      ensures At(Replace(before, p, ch), q) == At(orig, q)
    {
      ReplaceKeepsBefore(before, p, ch, s, q);
      if k + 2 < |bounds| {
        EarlierGroup(blocks, bounds, k, q);
      }
    }
  }

  /** The spoiler with this id, if the document holds a well-formed one. */
  function FindSpoiler(root: Node, id: nat): (r: Option<Path>)
    ensures r.Some? ==> At(root, r.value).Some? && IsSpoiler(At(root, r.value).value) && At(root, r.value).value.id == id
    ensures r.None? <==> Find(root, id).None? || !IsSpoiler(At(root, Find(root, id).value).value)
  {
    var p := Find(root, id);
    if p.Some? && IsSpoiler(At(root, p.value).value) then p else None
  }

  /**
   * What the reverse pass keeps while it works back to group `k`: the
   * content of the original document and, before the first block of group
   * `k`, its very nodes (all of them before any group is handled).
   */
  ghost predicate Untouched(orig: Node, root: Node, blocks: seq<Path>, bounds: seq<nat>, k: nat)
    requires IsGroups(blocks, bounds) && k < |bounds|
  {
    && Content(root) == Content(orig)
    && (k + 1 == |bounds| ==> root == orig)
    && (k + 1 < |bounds| ==> forall q :: Before(q, blocks[bounds[k]]) ==> At(root, q) == At(orig, q))
  }

  /** The group's blocks are the children `s .. e - 1` of one element of `root`, so the group can be wrapped. */
  predicate Wrappable(root: Node, range: Range) {
    && |range.start| > 0 && |range.end| > 0 && Parent(range.end) == Parent(range.start)
    && IsElementAt(root, Parent(range.start)) && Last(range.start) < Last(range.end)
    && Last(range.end) <= |At(root, Parent(range.start)).value.children|
  }

  /** The document, the next free id and the spoiler pushed, after one group. */
  datatype Step = Step(root: Node, nextId: nat, spoiler: nat)

  /**
   * What the `forEach` callback of `#applySpoiler` does for one group: the
   * spoiler around the content the group starts in, or else a new spoiler
   * at the group's start whose content holds the group. (A group that is
   * neither cannot reach the callback, see `SpoilerForGroup`; the function
   * leaves the document as it is for one.)
   */
  function GroupStep(root: Node, nextId: nat, range: Range): (r: Step)
    requires root.Element? && root.name == "$root"
    ensures r.root.Element? && r.root.name == "$root" && Content(r.root) == Content(root)
    ensures FindSpoilerContent(root, range.start).Some? ==> r.root == root && r.nextId == nextId
    ensures FindSpoilerContent(root, range.start).None? && Wrappable(root, range) ==>
      r.nextId == nextId + 3 && r.spoiler == nextId + 1
  {
    var c := FindSpoilerContent(root, range.start);
    if c.Some? then
      assert c.value != [];
      assert c.value == Parent(c.value) + [Last(c.value)];
      AtChild(root, Parent(c.value), Last(c.value));
      Step(root, nextId, At(root, Parent(c.value)).value.id)
    else if Wrappable(root, range) then
      var p, s, e := Parent(range.start), Last(range.start), Last(range.end);
      var ch := At(root, p).value.children;
      var w := Wrapped(ch, s, e, nextId, nextId + 1, nextId + 2);
      WrappedKeepsContent(ch, s, e, nextId, nextId + 1, nextId + 2);
      ReplaceKeepsContent(root, p, w);
      Step(Replace(root, p, w), nextId + 3, nextId + 1)
    else Step(root, nextId, 0)
  }

  /**
   * A group in no spoiler content that can be wrapped ends up as the
   * content of a new spoiler at the group's first block: an empty title,
   * then a content holding exactly the group's blocks.
   */
  lemma GroupStepWraps(root: Node, nextId: nat, range: Range)
    requires root.Element? && root.name == "$root"
    requires FindSpoilerContent(root, range.start).None? && Wrappable(root, range)
    ensures At(GroupStep(root, nextId, range).root, range.start) == Some(Element(nextId + 1, "spoiler", [
        Element(nextId + 2, "spoilerTitle", []),
        Element(nextId, "spoilerContent", At(root, Parent(range.start)).value.children[Last(range.start)..Last(range.end)])]))
  {
    var p, s := Parent(range.start), Last(range.start);
    WrappedAt(root, p, s, Last(range.end), nextId);
    assert range.start == p + [s];
  }

  /** After wrapping the children `s .. e - 1` of the element at `p`, the new spoiler is its child `s`. */
  lemma {:induction false} WrappedAt(root: Node, p: Path, s: nat, e: nat, nextId: nat)
    requires IsElementAt(root, p) && s < e <= |At(root, p).value.children|
    ensures var ch := At(root, p).value.children;
      At(Replace(root, p, Wrapped(ch, s, e, nextId, nextId + 1, nextId + 2)), p + [s]) == Some(Element(nextId + 1, "spoiler", [
        Element(nextId + 2, "spoilerTitle", []), Element(nextId, "spoilerContent", ch[s..e])]))
  {
    var ch := At(root, p).value.children;
    var w := Wrapped(ch, s, e, nextId, nextId + 1, nextId + 2);
    ReplaceAt(root, p, w);
    AtExtend(Replace(root, p, w), p, s);
    assert w[s].children == [w[s].children[0], w[s].children[1]];
  }

  /** The document, the next free id and `spoilersToMerge`, after the groups. */
  datatype Pass = Pass(root: Node, nextId: nat, spoilers: seq<nat>)

  /** The `forEach` over the reversed group ranges: one step per group, last group first. */
  function Grouped(root: Node, nextId: nat, ranges: seq<Range>): (r: Pass)
    requires root.Element? && root.name == "$root"
    ensures r.root.Element? && r.root.name == "$root" && Content(r.root) == Content(root)
    ensures |r.spoilers| == |ranges| && r.nextId >= nextId
    decreases |ranges|
  {
    if |ranges| == 0 then Pass(root, nextId, [])
    else
      var step := GroupStep(root, nextId, ranges[|ranges| - 1]);
      var rest := Grouped(step.root, step.nextId, ranges[..|ranges| - 1]);
      Pass(rest.root, rest.nextId, [step.spoiler] + rest.spoilers)
  }

  /** What `#getRangesOfBlockGroups` returns: the range of every group that `Bounds` cuts. */
  function GroupRanges(blocks: seq<Path>): (r: seq<Range>)
    requires NonRoot(blocks)
    ensures |r| == CountEnds(blocks, |blocks|)
    ensures |r| == 0 <==> |blocks| == 0
  {
    var b := Bounds(blocks, |blocks|);
    BoundsAreGroups(blocks);
    NoGroupsIffNoBlocks(blocks, b);
    seq(|b| - 1, k requires 0 <= k < |b| - 1 => GroupRange(blocks, b[k], b[k + 1]))
  }

  /**
   * What `#applySpoiler` does to the document and the next free id: the
   * groups are handled last first, then the spoilers pushed are merged in
   * document order; without blocks the `reduce` has no initial value.
   */
  function Applied(root: Node, nextId: nat, blocks: seq<Path>): (r: Result<(Node, nat), Exception>)
    requires root.Element? && root.name == "$root" && NonRoot(blocks)
    ensures r.Err? <==> |blocks| == 0
    ensures r.Err? ==> r.error == TypeError
    ensures r.Ok? ==> r.value.0.Element? && r.value.0.name == "$root" && Content(r.value.0) == Content(root)
  {
    var pass := Grouped(root, nextId, GroupRanges(blocks));
    var order := Reverse(pass.spoilers);
    if |order| == 0 then Err(TypeError)
    else Ok((MergedRun(pass.root, order[0], order[1..]), pass.nextId))
  }

  /**
   * The `forEach` callback of `#applySpoiler` for group `k`: the spoiler of
   * the content the group is already in, or else a new spoiler around the group.
   */
  method SpoilerForGroup(doc: Document, ghost orig: Node, blocks: seq<Path>, ghost bounds: seq<nat>, range: Range, k: nat)
    returns (spoiler: nat)
    requires doc.Valid() && NonRoot(blocks) && InDocument(orig, blocks) && Ordered(blocks)
    requires IsGroups(blocks, bounds) && k + 1 < |bounds| && range == GroupRange(blocks, bounds[k], bounds[k + 1])
    requires Untouched(orig, doc.root, blocks, bounds, k + 1)
    modifies doc
    ensures doc.Valid() && Untouched(orig, doc.root, blocks, bounds, k)
    ensures Step(doc.root, doc.nextId, spoiler) == GroupStep(old(doc.root), old(doc.nextId), range)
  {
    var content := FindSpoilerContent(doc.root, range.start);
    if content.Some? {
      var c := content.value;
      assert c != [];
      assert c == Parent(c) + [Last(c)];
      AtChild(doc.root, Parent(c), Last(c));
      spoiler := At(doc.root, Parent(c)).value.id;
      UntouchedEarlier(orig, doc.root, blocks, bounds, k);
    } else {
      GroupWrappable(orig, doc.root, blocks, bounds, k);
      assert Wrappable(doc.root, range);
      var p, s, e := Parent(range.start), Last(range.start), Last(range.end);
      ghost var before := doc.root;
      ghost var ids := doc.nextId;
      spoiler := WrapInSpoiler(doc, p, s, e);
      UntouchedAfterWrap(orig, before, p, s, e, ids, blocks, bounds, k);
    }
  }

  /** Handling group `k` without a change keeps what handling group `k + 1` kept. */
  lemma UntouchedEarlier(orig: Node, root: Node, blocks: seq<Path>, bounds: seq<nat>, k: nat)
    requires IsGroups(blocks, bounds) && Ordered(blocks) && k + 1 < |bounds|
    requires Untouched(orig, root, blocks, bounds, k + 1)
    ensures Untouched(orig, root, blocks, bounds, k)
  {
    if k + 2 < |bounds| {
      forall q | Before(q, blocks[bounds[k]])
        ensures At(root, q) == At(orig, q)
      {
        EarlierGroup(blocks, bounds, k, q);
      }
    }
  }

  /** Wrapping group `k` keeps the content, and the nodes before the group. */
  lemma UntouchedAfterWrap(orig: Node, before: Node, p: Path, s: nat, e: nat, ids: nat,
                           blocks: seq<Path>, bounds: seq<nat>, k: nat)
    requires IsGroups(blocks, bounds) && Ordered(blocks) && k + 1 < |bounds|
    requires Untouched(orig, before, blocks, bounds, k + 1)
    requires blocks[bounds[k]] == p + [s]
    requires IsElementAt(before, p) && s < e <= |At(before, p).value.children|
    ensures Untouched(orig, Replace(before, p, Wrapped(At(before, p).value.children, s, e, ids, ids + 1, ids + 2)),
      blocks, bounds, k)
  {
    var ch := At(before, p).value.children;
    var wrapped := Wrapped(ch, s, e, ids, ids + 1, ids + 2);
    WrappedKeepsContent(ch, s, e, ids, ids + 1, ids + 2);
    ReplaceKeepsContent(before, p, wrapped);
    WrapKeepsBefore(orig, before, p, wrapped, s, blocks, bounds, k);
  }

  /** The document and the spoiler the `reduce` carries on. */
  datatype Carry = Carry(root: Node, current: nat)

  /**
   * One call of the `reduce` callback: a spoiler that is the next sibling
   * of the current one is merged into it and the current one is carried
   * on; otherwise the next spoiler becomes the current one.
   */
  function MergeStep(root: Node, current: nat, next: nat): (r: Carry)
    requires root.Element? && root.name == "$root"
    ensures r.root.Element? && r.root.name == "$root" && Content(r.root) == Content(root)
    ensures r.current == current || r.current == next
    ensures r.current == next ==> r.root == root
    ensures (FindSpoiler(root, current).Some? && FindSpoiler(root, next).Some? &&
             Adjacent(FindSpoiler(root, current).value, FindSpoiler(root, next).value)) ==> r.current == current
    ensures (r.current == current && current != next) ==>
      (FindSpoiler(root, current).Some? && FindSpoiler(root, next).Some? &&
       Adjacent(FindSpoiler(root, current).value, FindSpoiler(root, next).value))
  {
    var a, b := FindSpoiler(root, current), FindSpoiler(root, next);
    if a.Some? && b.Some? && Adjacent(a.value, b.value) then
      assert a.value == Parent(a.value) + [Last(a.value)];
      assert b.value == Parent(a.value) + [Last(a.value) + 1];
      AtChild(root, Parent(a.value), Last(a.value));
      AtChild(root, Parent(a.value), Last(a.value) + 1);
      var ch := At(root, Parent(a.value)).value.children;
      MergedKeepsContent(ch, Last(a.value));
      ReplaceKeepsContent(root, Parent(a.value), MergedChildren(ch, Last(a.value)));
      Carry(Replace(root, Parent(a.value), MergedChildren(ch, Last(a.value))), current)
    else Carry(root, next)
  }

  /**
   * When the next spoiler is the next sibling of the current one, the step
   * merges them: the current spoiler's place holds `Merged` of the two, and
   * the parent has one child less, the later spoiler being gone.
   */
  lemma MergeStepMerges(root: Node, current: nat, next: nat)
    requires root.Element? && root.name == "$root"
    requires FindSpoiler(root, current).Some? && FindSpoiler(root, next).Some?
    requires Adjacent(FindSpoiler(root, current).value, FindSpoiler(root, next).value)
    ensures var a, b := FindSpoiler(root, current).value, FindSpoiler(root, next).value;
      var r := MergeStep(root, current, next).root;
      IsElementAt(root, Parent(a)) && IsElementAt(r, Parent(a)) &&
      |At(r, Parent(a)).value.children| + 1 == |At(root, Parent(a)).value.children| &&
      At(r, a) == Some(Merged(At(root, a).value, At(root, b).value))
  {
    var a, b := FindSpoiler(root, current).value, FindSpoiler(root, next).value;
    assert a == Parent(a) + [Last(a)];
    assert b == Parent(a) + [Last(a) + 1];
    AtChild(root, Parent(a), Last(a));
    AtChild(root, Parent(a), Last(a) + 1);
    MergedAt(root, Parent(a), Last(a));
  }

  /** After merging the spoiler child `x + 1` of the element at `p` into child `x`, child `x` is the merged spoiler. */
  lemma {:induction false} MergedAt(root: Node, p: Path, x: nat)
    requires IsElementAt(root, p) && x + 1 < |At(root, p).value.children|
    requires IsSpoiler(At(root, p).value.children[x]) && IsSpoiler(At(root, p).value.children[x + 1])
    ensures var ch := At(root, p).value.children;
      var r := Replace(root, p, MergedChildren(ch, x));
      && IsElementAt(r, p) && |At(r, p).value.children| + 1 == |ch|
      && At(r, p + [x]) == Some(Merged(ch[x], ch[x + 1]))
  {
    var ch := At(root, p).value.children;
    var m := MergedChildren(ch, x);
    ReplaceAt(root, p, m);
    AtExtend(Replace(root, p, m), p, x);
  }

  /** What the `reduce` over the spoilers does to the document, `current` being the spoiler it carries. */
  function MergedRun(root: Node, current: nat, order: seq<nat>): (r: Node)
    requires root.Element? && root.name == "$root"
    ensures r.Element? && r.name == "$root" && Content(r) == Content(root)
    decreases |order|
  {
    if |order| == 0 then root
    else
      var step := MergeStep(root, current, order[0]);
      MergedRun(step.root, step.current, order[1..])
  }

  /** The body of the `reduce` callback. */
  method MergeNext(doc: Document, current: nat, next: nat) returns (carried: nat)
    requires doc.Valid()
    modifies doc
    ensures doc.Valid() && doc.nextId == old(doc.nextId)
    ensures Carry(doc.root, carried) == MergeStep(old(doc.root), current, next)
  {
    var a := FindSpoiler(doc.root, current);
    var b := FindSpoiler(doc.root, next);
    if a.Some? && b.Some? && Adjacent(a.value, b.value) {
      MergeSpoilers(doc, a.value);
      carried := current;
    } else {
      carried := next;
    }
  }

  /**
   * The `reduce` over the spoilers in document order: each spoiler is
   * merged into the current one when it is its next sibling, and otherwise
   * becomes the current one.
   */
  method MergeRun(doc: Document, order: seq<nat>)
    requires doc.Valid() && |order| > 0
    modifies doc
    ensures doc.Valid() && Content(doc.root) == old(Content(doc.root))
    ensures doc.root == MergedRun(old(doc.root), order[0], order[1..]) && doc.nextId == old(doc.nextId)
  {
    var current := order[0];
    var i := 1;
    while i < |order|
      invariant 1 <= i <= |order|
      invariant doc.Valid() && doc.nextId == old(doc.nextId)
      invariant MergedRun(old(doc.root), order[0], order[1..]) == MergedRun(doc.root, current, order[i..])
    {
      assert order[i..][1..] == order[i + 1..];
      current := MergeNext(doc, current, order[i]);
      i := i + 1;
    }
    assert order[i..] == [];
  }

  /** The `forEach` over the reversed group ranges, collecting `spoilersToMerge`. */
  method HandleGroups(doc: Document, blocks: seq<Path>, ranges: seq<Range>, ghost bounds: seq<nat>)
    returns (spoilersToMerge: seq<nat>)
    requires doc.Valid() && NonRoot(blocks) && InDocument(doc.root, blocks) && Ordered(blocks)
    requires IsGroups(blocks, bounds) && RangesOf(blocks, bounds, ranges)
    modifies doc
    ensures doc.Valid() && Content(doc.root) == old(Content(doc.root))
    ensures Pass(doc.root, doc.nextId, spoilersToMerge) == Grouped(old(doc.root), old(doc.nextId), ranges)
  {
    ghost var orig := doc.root;
    ghost var ids := doc.nextId;
    spoilersToMerge := [];
    var k := |ranges|;
    assert ranges[..k] == ranges;
    while k > 0
      invariant 0 <= k <= |ranges| && |spoilersToMerge| == |ranges| - k
      invariant doc.Valid() && Untouched(orig, doc.root, blocks, bounds, k)
      invariant var g := Grouped(doc.root, doc.nextId, ranges[..k]);
        Grouped(orig, ids, ranges) == Pass(g.root, g.nextId, spoilersToMerge + g.spoilers)
    {
      ghost var before, beforeIds := doc.root, doc.nextId;
      k := k - 1;
      var spoiler := SpoilerForGroup(doc, orig, blocks, bounds, ranges[k], k);
      GroupedPush(orig, ids, ranges, k + 1, before, beforeIds, spoilersToMerge, doc.root, doc.nextId, spoiler);
      spoilersToMerge := spoilersToMerge + [spoiler];
    }
  }

  /** Handling range `k - 1` pushes its spoiler and leaves the ranges before it to the rest of the `forEach`. */
  lemma GroupedPush(orig: Node, ids: nat, ranges: seq<Range>, k: nat, before: Node, beforeIds: nat,
                    pushed: seq<nat>, after: Node, afterIds: nat, spoiler: nat)
    requires orig.Element? && orig.name == "$root" && before.Element? && before.name == "$root" && 0 < k <= |ranges|
    requires var g := Grouped(before, beforeIds, ranges[..k]);
      Grouped(orig, ids, ranges) == Pass(g.root, g.nextId, pushed + g.spoilers)
    requires Step(after, afterIds, spoiler) == GroupStep(before, beforeIds, ranges[k - 1])
    ensures after.Element? && after.name == "$root"
    ensures var g := Grouped(after, afterIds, ranges[..k - 1]);
      Grouped(orig, ids, ranges) == Pass(g.root, g.nextId, (pushed + [spoiler]) + g.spoilers)
  {
    GroupedLast(before, beforeIds, ranges, k);
    var rest := Grouped(after, afterIds, ranges[..k - 1]);
    assert pushed + ([spoiler] + rest.spoilers) == (pushed + [spoiler]) + rest.spoilers;
  }

  /** The `forEach` over the first `k` ranges handles range `k - 1` first, then the ones before it. */
  lemma GroupedLast(root: Node, nextId: nat, ranges: seq<Range>, k: nat)
    requires root.Element? && root.name == "$root" && 0 < k <= |ranges|
    ensures var step := GroupStep(root, nextId, ranges[k - 1]);
      var rest := Grouped(step.root, step.nextId, ranges[..k - 1]);
      Grouped(root, nextId, ranges[..k]) == Pass(rest.root, rest.nextId, [step.spoiler] + rest.spoilers)
  {
    assert ranges[..k][..k - 1] == ranges[..k - 1];
  }

  /**
   * `#applySpoiler`: handles the groups of adjacent blocks last group first,
   * each getting the spoiler it is in or a new one around it, then merges
   * adjacent spoilers in document order. The document content is
   * unchanged; an empty block list makes the `reduce` without initial value fail.
   */
  method ApplySpoiler(doc: Document, blocks: seq<Path>) returns (r: Result<(), Exception>)
    requires doc.Valid() && NonRoot(blocks) && InDocument(doc.root, blocks) && Ordered(blocks)
    modifies doc
    ensures doc.Valid() && Content(doc.root) == old(Content(doc.root))
    ensures r.Err? <==> |blocks| == 0
    ensures r.Err? ==> r.error == TypeError && doc.root == old(doc.root)
    ensures r.Err? ==> Applied(old(doc.root), old(doc.nextId), blocks) == Err(r.error)
    ensures r.Ok? ==> Applied(old(doc.root), old(doc.nextId), blocks) == Ok((doc.root, doc.nextId))
  {
    var ranges, bounds := GetRangesOfBlockGroups(blocks);
    RangesAreGroupRanges(blocks, bounds, ranges);
    var spoilersToMerge := HandleGroups(doc, blocks, ranges, bounds);
    NoGroupsIffNoBlocks(blocks, bounds);
    var order := Reverse(spoilersToMerge);
    if |order| == 0 {
      return Err(TypeError);
    }
    MergeRun(doc, order);
    return Ok(());
  }

  // ---------------------------------------------------------------------------
  // Removing a spoiler

  /** Whether the block with this id is in the document inside a spoiler content. */
  predicate InSpoilerContent(root: Node, block: nat) {
    Find(root, block).Some? && FindSpoilerContent(root, Find(root, block).value).Some?
  }

  /**
   * One pass of `#removeSpoiler`'s loop for a block: a block in no spoiler
   * content (or no longer in the document) is skipped, otherwise the
   * spoiler around its content is unwrapped as `Unwrapped` says.
   */
  function RemoveStep(root: Node, block: nat): (r: Result<Node, Exception>)
    requires root.Element? && root.name == "$root"
    ensures !InSpoilerContent(root, block) ==> r == Ok(root)
    ensures r.Err? ==> r.error == Error(MissingTitle) || r.error == Error(MissingSpoiler)
    ensures r.Ok? ==> r.value.Element? && r.value.name == "$root" && Content(r.value) == Content(root)
  {
    if !InSpoilerContent(root, block) then Ok(root)
    else Unwrapped(root, FindSpoilerContent(root, Find(root, block).value).value)
  }

  /**
   * What `#removeSpoiler` does to the document: the blocks are taken in
   * turn, and the first structural error stops the loop.
   */
  function Removed(root: Node, blocks: seq<nat>): (r: Result<Node, Exception>)
    requires root.Element? && root.name == "$root"
    ensures r.Err? ==> r.error == Error(MissingTitle) || r.error == Error(MissingSpoiler)
    ensures r.Ok? ==> r.value.Element? && r.value.name == "$root" && Content(r.value) == Content(root)
    ensures (forall i :: 0 <= i < |blocks| ==> !InSpoilerContent(root, blocks[i])) ==> r == Ok(root)
    decreases |blocks|
  {
    if |blocks| == 0 then Ok(root)
    else
      match RemoveStep(root, blocks[0])
      case Err(e) => Err(e)
      case Ok(next) =>
        assert forall i :: 0 <= i < |blocks| - 1 ==> blocks[1..][i] == blocks[i + 1];
        Removed(next, blocks[1..])
  }

  /** The body of `#removeSpoiler`'s loop. */
  method RemoveOne(doc: Document, block: nat) returns (r: Result<(), Exception>)
    requires doc.Valid()
    modifies doc
    ensures doc.Valid()
    ensures r.Err? ==> RemoveStep(old(doc.root), block) == Err(r.error) && doc.root == old(doc.root)
    ensures r.Ok? ==> RemoveStep(old(doc.root), block) == Ok(doc.root)
  {
    var p := Find(doc.root, block);
    var content := if p.Some? then FindSpoilerContent(doc.root, p.value) else None;
    if content.Some? {
      r := UnwrapSpoiler(doc, content.value);
    } else {
      r := Ok(());
    }
  }

  /**
   * `#removeSpoiler`: for each block inside a spoiler content, in turn,
   * removes the title and unwraps the spoiler and the content; a block in
   * no content (or no longer in the document) is skipped, and a content
   * without a title before it or a spoiler around it stops with an error.
   */
  method RemoveSpoiler(doc: Document, blocks: seq<nat>) returns (r: Result<(), Exception>)
    requires doc.Valid()
    modifies doc
    ensures doc.Valid() && Content(doc.root) == old(Content(doc.root))
    ensures r.Err? ==> r.error == Error(MissingTitle) || r.error == Error(MissingSpoiler)
    ensures (forall i :: 0 <= i < |blocks| ==> !InSpoilerContent(old(doc.root), blocks[i])) ==>
      r.Ok? && doc.root == old(doc.root)
    ensures r.Err? ==> Removed(old(doc.root), blocks) == Err(r.error)
    ensures r.Ok? ==> Removed(old(doc.root), blocks) == Ok(doc.root)
  {
    var i := 0;
    while i < |blocks|
      invariant 0 <= i <= |blocks| && doc.Valid() && Content(doc.root) == old(Content(doc.root))
      invariant Removed(old(doc.root), blocks) == Removed(doc.root, blocks[i..])
    {
      assert blocks[i..][1..] == blocks[i + 1..];
      ghost var before := doc.root;
      var step := RemoveOne(doc, blocks[i]);
      if step.Err? {
        assert Removed(before, blocks[i..]) == Err(step.error);
        return step;
      }
      assert Removed(before, blocks[i..]) == Removed(doc.root, blocks[i + 1..]);
      i := i + 1;
    }
    assert blocks[i..] == [];
    assert Removed(old(doc.root), blocks) == Ok(doc.root);
    return Ok(());
  }

  // ---------------------------------------------------------------------------
  // The command

  /** Every selected block (by id) is an element of the document other than the root. */
  predicate Found(root: Node, blocks: seq<nat>) {
    forall i :: 0 <= i < |blocks| ==> Find(root, blocks[i]).Some? && |Find(root, blocks[i]).value| > 0
  }

  function PathsOf(root: Node, blocks: seq<nat>): (r: seq<Path>)
    requires Found(root, blocks)
    ensures |r| == |blocks| && NonRoot(r) && InDocument(root, r)
    ensures forall i :: 0 <= i < |r| ==> Find(root, blocks[i]) == Some(r[i])
  {
    seq(|blocks|, i requires 0 <= i < |blocks| => Find(root, blocks[i]).value)
  }

  /** What `selection.getSelectedBlocks()` yields: blocks of the document, in document order, none inside another. */
  predicate SelectedBlocks(root: Node, blocks: seq<nat>) {
    Found(root, blocks) && Ordered(PathsOf(root, blocks))
  }

  /** `#getValue`: the first selected block is inside a spoiler content. */
  function GetValue(root: Node, blocks: seq<nat>): (r: bool)
    ensures r <==>
      && |blocks| > 0 && Find(root, blocks[0]).Some?
      && exists q :: q < Find(root, blocks[0]).value && NameAt(root, q) == Some("spoilerContent")
  {
    |blocks| > 0 && InSpoilerContent(root, blocks[0])
  }

  /** `#getIsEnabled`: always inside a spoiler, never without a block, else when the first block can be wrapped. */
  function GetIsEnabled(root: Node, blocks: seq<nat>, base: (seq<string>, string) -> bool): (r: bool)
    requires Found(root, blocks)
    ensures GetValue(root, blocks) ==> r
    ensures |blocks| == 0 ==> !r
    ensures !GetValue(root, blocks) && |blocks| > 0 ==> (r <==> CanBeSpoiler(root, Find(root, blocks[0]).value, base))
  {
    if GetValue(root, blocks) then true
    else if |blocks| == 0 then false
    else CanBeSpoiler(root, Find(root, blocks[0]).value, base)
  }

  /** A block stays in the `filter` of `execute`: it is already in a spoiler content or can be wrapped. */
  predicate IsCandidate(root: Node, p: Path, base: (seq<string>, string) -> bool)
    requires |p| > 0
  {
    FindSpoilerContent(root, p).Some? || CanBeSpoiler(root, p, base)
  }

  /** The `filter` of `execute`. */
  function Candidates(root: Node, ps: seq<Path>, base: (seq<string>, string) -> bool): (r: seq<Path>)
    requires NonRoot(ps)
    ensures NonRoot(r) && |r| <= |ps|
    ensures forall x :: x in r ==> x in ps
  {
    if |ps| == 0 then []
    else (if IsCandidate(root, ps[0], base) then [ps[0]] else []) + Candidates(root, ps[1..], base)
  }

  /** The filter keeps exactly the blocks that are candidates. */
  lemma {:induction false} CandidatesKept(root: Node, ps: seq<Path>, base: (seq<string>, string) -> bool)
    requires NonRoot(ps)
    ensures forall x :: x in Candidates(root, ps, base) <==> x in ps && |x| > 0 && IsCandidate(root, x, base)
    decreases |ps|
  {
    if |ps| > 0 {
      CandidatesKept(root, ps[1..], base);
      assert forall x :: x in ps <==> x == ps[0] || x in ps[1..];
    }
  }

  /** The filter keeps the document order of the blocks it keeps. */
  lemma {:induction false} CandidatesOrdered(root: Node, ps: seq<Path>, base: (seq<string>, string) -> bool)
    requires NonRoot(ps) && Ordered(ps)
    ensures Ordered(Candidates(root, ps, base))
    decreases |ps|
  {
    if |ps| > 0 {
      OrderedTail(ps);
      CandidatesOrdered(root, ps[1..], base);
      var rt := Candidates(root, ps[1..], base);
      if IsCandidate(root, ps[0], base) {
        forall y | y in rt ensures Before(ps[0], y) {
          HeadBefore(ps, y);
        }
        PrependOrdered(ps[0], rt);
        assert Candidates(root, ps, base) == [ps[0]] + rt;
      } else {
        assert Candidates(root, ps, base) == [] + rt == rt;
      }
    }
  }

  /** The blocks after the first of an ordered list are ordered. */
  lemma OrderedTail(ps: seq<Path>)
    requires |ps| > 0 && Ordered(ps)
    ensures Ordered(ps[1..])
  {
    var tail := ps[1..];
    forall i, j | 0 <= i < j < |tail| ensures Before(tail[i], tail[j]) {
      assert tail[i] == ps[i + 1] && tail[j] == ps[j + 1];
    }
  }

  /** The first block of an ordered list comes before every later one. */
  lemma HeadBefore(ps: seq<Path>, y: Path)
    requires |ps| > 0 && Ordered(ps) && y in ps[1..]
    ensures Before(ps[0], y)
  {
    var m :| 0 <= m < |ps| - 1 && ps[1..][m] == y;
    assert ps[m + 1] == y;
  }

  lemma {:induction false} PrependOrdered(x: Path, s: seq<Path>)
    requires Ordered(s) && forall y :: y in s ==> Before(x, y)
    ensures Ordered([x] + s)
  {
    var r := [x] + s;
    forall i, j | 0 <= i < j < |r| ensures Before(r[i], r[j]) {
      if i == 0 {
        assert r[j] in s;
      } else {
        assert r[i] == s[i - 1] && r[j] == s[j - 1];
      }
    }
  }

  /** Blocks the filter keeps are blocks of the document. */
  lemma {:induction false} CandidatesInDocument(root: Node, ps: seq<Path>, base: (seq<string>, string) -> bool)
    requires NonRoot(ps) && InDocument(root, ps)
    ensures InDocument(root, Candidates(root, ps, base))
  {
    var r := Candidates(root, ps, base);
    forall i | 0 <= i < |r| ensures At(root, r[i]).Some? {
      assert r[i] in ps;
    }
  }

  /** The spoiler command: whether the selection starts in a spoiler, and whether the command can run. */
  class Command {
    var value: bool
    var isEnabled: bool

    constructor ()
      ensures !value && !isEnabled
    {
      value := false;
      isEnabled := false;
    }

    /** `refresh`. */
    method Refresh(root: Node, blocks: seq<nat>, base: (seq<string>, string) -> bool)
      requires Found(root, blocks)
      modifies this
      ensures value == GetValue(root, blocks) && isEnabled == GetIsEnabled(root, blocks, base)
    {
      value := GetValue(root, blocks);
      isEnabled := GetIsEnabled(root, blocks, base);
    }

    /**
     * `execute`: removes the spoiler when the selection starts in one,
     * and otherwise applies it to the blocks that are in a spoiler content
     * or can be wrapped. The document content is unchanged either way.
     */
    method Execute(doc: Document, blocks: seq<nat>, base: (seq<string>, string) -> bool) returns (r: Result<(), Exception>)
      requires doc.Valid() && SelectedBlocks(doc.root, blocks)
      modifies doc
      ensures doc.Valid() && Content(doc.root) == old(Content(doc.root))
      ensures value && r.Err? ==> r.error == Error(MissingTitle) || r.error == Error(MissingSpoiler)
      ensures !value && r.Err? ==> r.error == TypeError && doc.root == old(doc.root)
      ensures !value && GetIsEnabled(old(doc.root), blocks, base) ==> r.Ok?
      ensures value && r.Err? ==> Removed(old(doc.root), blocks) == Err(r.error)
      ensures value && r.Ok? ==> Removed(old(doc.root), blocks) == Ok(doc.root)
      ensures !value ==> var candidates := Candidates(old(doc.root), PathsOf(old(doc.root), blocks), base);
        && (r.Err? ==> Applied(old(doc.root), old(doc.nextId), candidates) == Err(r.error))
        && (r.Ok? ==> Applied(old(doc.root), old(doc.nextId), candidates) == Ok((doc.root, doc.nextId)))
    {
      if value {
        r := RemoveSpoiler(doc, blocks);
      } else {
        var paths := PathsOf(doc.root, blocks);
        var candidates := Candidates(doc.root, paths, base);
        CandidatesOrdered(doc.root, paths, base);
        CandidatesInDocument(doc.root, paths, base);
        if GetIsEnabled(doc.root, blocks, base) {
          CandidatesKept(doc.root, paths, base);
          assert paths[0] in paths;
          assert paths[0] in candidates;
        }
        r := ApplySpoiler(doc, candidates);
      }
    }
  }
}
