/**
 * The "magic paragraph": a click into the top or bottom margin of a block
 * quote, code block, spoiler or table puts the caret into a paragraph right
 * before or after that block, reusing an adjacent paragraph or inserting a
 * new, empty one. Layout (element boxes and margins) is an input, in whole
 * pixels.
 */
module MagicParagraph {
  import opened Wrappers
  import opened ModelTree

  /** The model elements whose margins are watched. */
  const BlockModels: seq<string> := ["blockQuote", "codeBlock", "spoiler", "table"]

  /**
   * A node of the editing view: an element with its name, whether it is a
   * container element and the path of the model element the mapper maps
   * it to (`None` for view-only elements such as `<ul>`), or a text.
   */
  datatype ViewNode = ViewElement(name: string, isContainer: bool, model: Option<Path>, children: seq<ViewNode>) | ViewText(data: string)

  function ViewAt(n: ViewNode, p: Path): (r: Option<ViewNode>)
    ensures |p| == 0 ==> r == Some(n)
    decreases |p|
  {
    if |p| == 0 then Some(n)
    else if n.ViewElement? && p[0] < |n.children| then ViewAt(n.children[p[0]], p[1..])
    else None
  }

  predicate IsViewElementAt(n: ViewNode, p: Path) {
    ViewAt(n, p).Some? && ViewAt(n, p).value.ViewElement?
  }

  /** The paths, relative to their parent, of the elements among `ch[i..]` and below them, in document order. */
  function WalkFrom(ch: seq<ViewNode>, i: nat): (r: seq<Path>)
    decreases ch, if i <= |ch| then |ch| - i else 0
  {
    if i >= |ch| then []
    else (if ch[i].ViewElement? then [[i]] + Under(i, WalkFrom(ch[i].children, 0)) else []) + WalkFrom(ch, i + 1)
  }

  function Under(i: nat, ps: seq<Path>): (r: seq<Path>)
    ensures |r| == |ps| && forall k :: 0 <= k < |ps| ==> r[k] == [i] + ps[k]
  {
    seq(|ps|, k requires 0 <= k < |ps| => [i] + ps[k])
  }

  /** The elements a walker over the range inside the view root meets, at their starts, in document order. */
  function Walk(root: ViewNode): seq<Path> {
    if root.ViewElement? then WalkFrom(root.children, 0) else []
  }

  /** The walk meets every element below the root, and nothing else. */
  lemma {:induction false} WalkIff(root: ViewNode, p: Path)
    ensures p in Walk(root) <==> |p| > 0 && IsViewElementAt(root, p)
  {
    if root.ViewElement? {
      WalkFromIff(root.children, 0, p);
      if |p| > 0 && p[0] < |root.children| {
        assert ViewAt(root, p) == ViewAt(root.children[p[0]], p[1..]);
      }
    }
  }

  lemma {:induction false} WalkFromIff(ch: seq<ViewNode>, i: nat, p: Path)
    ensures p in WalkFrom(ch, i) <==> |p| > 0 && i <= p[0] < |ch| && IsViewElementAt(ch[p[0]], p[1..])
    decreases ch, if i <= |ch| then |ch| - i else 0
  {
    if i < |ch| {
      WalkFromIff(ch, i + 1, p);
      if ch[i].ViewElement? {
        var head := [[i]] + Under(i, WalkFrom(ch[i].children, 0));
        assert WalkFrom(ch, i) == head + WalkFrom(ch, i + 1);
        if |p| > 0 {
          WalkFromIff(ch[i].children, 0, p[1..]);
        }
        HeadIff(ch[i], i, p);
      } else {
        assert WalkFrom(ch, i) == WalkFrom(ch, i + 1);
        if |p| > 0 && p[0] == i && |p| > 1 {
          assert ViewAt(ch[i], p[1..]) == None;
        }
      }
    }
  }

  /** The part of the walk that an element at index `i` contributes: itself, then the walk below it. */
  lemma {:induction false} HeadIff(e: ViewNode, i: nat, p: Path)
    requires e.ViewElement?
    requires |p| > 0 ==> (p[1..] in WalkFrom(e.children, 0) <==> |p| > 1 && p[1] < |e.children| && IsViewElementAt(e.children[p[1]], p[2..]))
    ensures p in [[i]] + Under(i, WalkFrom(e.children, 0)) <==> |p| > 0 && p[0] == i && IsViewElementAt(e, p[1..])
  {
    var sub := WalkFrom(e.children, 0);
    UnderIff(i, sub, p);
    assert p in [[i]] + Under(i, sub) <==> p == [i] || p in Under(i, sub);
    if |p| > 1 {
      if p[1] < |e.children| {
        assert ViewAt(e, p[1..]) == ViewAt(e.children[p[1]], p[2..]);
      } else {
        assert ViewAt(e, p[1..]) == None;
      }
    }
  }

  /** The paths below the child at index `i`: those of `ps`, prefixed with `i`. */
  lemma {:induction false} UnderIff(i: nat, ps: seq<Path>, p: Path)
    ensures p in Under(i, ps) <==> |p| > 0 && p[0] == i && p[1..] in ps
  {
    var r := Under(i, ps);
    if p in r {
      var k :| 0 <= k < |r| && r[k] == p;
      assert p[1..] == ps[k];
    }
    if |p| > 0 && p[0] == i && p[1..] in ps {
      var k :| 0 <= k < |ps| && ps[k] == p[1..];
      assert r[k] == p;
    }
  }

  /** A block whose margins are watched: a container element mapped to a model element named in `BlockModels`. */
  predicate IsCandidate(view: ViewNode, root: Node, p: Path) {
    && IsViewElementAt(view, p)
    && var v := ViewAt(view, p).value;
    && v.isContainer && v.model.Some?
    && NameAt(root, v.model.value).Some? && NameAt(root, v.model.value).value in BlockModels
  }

  /** The watched blocks among `paths`, in their order. */
  function Candidates(view: ViewNode, root: Node, paths: seq<Path>): (r: seq<Path>)
    ensures forall p :: p in r <==> p in paths && IsCandidate(view, root, p)
  {
    if |paths| == 0 then []
    else
      var init := Candidates(view, root, paths[..|paths| - 1]);
      var last := paths[|paths| - 1];
      assert paths == paths[..|paths| - 1] + [last];
      if IsCandidate(view, root, last) then init + [last] else init
  }

  /** The watched blocks of the whole view in document order. */
  function PossibleBlocks(view: ViewNode, root: Node): seq<Path> {
    Candidates(view, root, Walk(view))
  }

  /** The possible blocks are exactly the watched blocks below the view root. */
  lemma PossibleBlocksIff(view: ViewNode, root: Node, p: Path)
    ensures p in PossibleBlocks(view, root) <==> |p| > 0 && IsCandidate(view, root, p)
  {
    WalkIff(view, p);
  }

  /**
   * `#findPossibleBlocks`: the walk skips what is not a container element,
   * what the mapper does not map and what maps to another model element.
   */
  method FindPossibleBlocks(view: ViewNode, root: Node) returns (blocks: seq<Path>)
    ensures blocks == PossibleBlocks(view, root)
  {
    var walk := Walk(view);
    blocks := [];
    var k := 0;
    while k < |walk|
      invariant k <= |walk| && blocks == Candidates(view, root, walk[..k])
    {
      CandidatesSnoc(view, root, walk, k);
      blocks := VisitNode(view, root, walk[k], blocks);
      k := k + 1;
    }
    assert walk[..k] == walk;
  }

  /** The walker's callback for the node at `p`: a watched block is appended to `blocks`. */
  method VisitNode(view: ViewNode, root: Node, p: Path, blocks: seq<Path>) returns (blocks': seq<Path>)
    ensures blocks' == blocks + (if IsCandidate(view, root, p) then [p] else [])
  {
    blocks' := blocks;
    var node := ViewAt(view, p);
    if node.Some? && node.value.ViewElement? && node.value.isContainer && node.value.model.Some? {
      var name := NameAt(root, node.value.model.value);
      if name.Some? && name.value in BlockModels {
        blocks' := blocks + [p];
      }
    }
    assert blocks + [] == blocks;
  }

  /** Looking at one more path adds it to the watched blocks exactly when it is one. */
  lemma CandidatesSnoc(view: ViewNode, root: Node, paths: seq<Path>, k: nat)
    requires k < |paths|
    ensures Candidates(view, root, paths[..k + 1]) ==
      Candidates(view, root, paths[..k]) + (if IsCandidate(view, root, paths[k]) then [paths[k]] else [])
  {
    assert paths[..k + 1][..k] == paths[..k];
    assert Candidates(view, root, paths[..k]) + [] == Candidates(view, root, paths[..k]);
  }

  /** The paragraph is wanted before or after the block. */
  datatype Side = InsertBefore | InsertAfter

  /** The border box of a block and its computed margins, in whole pixels. */
  datatype Box = Box(top: int, bottom: int, marginTop: int, marginBottom: int)

  /**
   * The margin a vertical click position falls into: within the top margin
   * (bounds included) the paragraph goes before, otherwise within the
   * bottom margin it goes after.
   */
  function HitSide(box: Box, clientY: int): (r: Option<Side>)
    ensures r == Some(InsertBefore) <==> box.top - box.marginTop <= clientY && clientY <= box.top
    ensures r == Some(InsertAfter) <==> !(box.top - box.marginTop <= clientY && clientY <= box.top) && box.bottom <= clientY && clientY <= box.bottom + box.marginBottom
  {
    if box.top - box.marginTop <= clientY <= box.top then Some(InsertBefore)
    else if box.bottom <= clientY <= box.bottom + box.marginBottom then Some(InsertAfter)
    else None
  }

  /** The index of the first block from `i` on whose margin is hit. */
  function FirstHit(blocks: seq<Path>, layout: Path -> Box, clientY: int, i: nat): (r: Option<nat>)
    ensures r.Some? ==> i <= r.value < |blocks| && HitSide(layout(blocks[r.value]), clientY).Some?
    ensures r.Some? ==> forall j :: i <= j < r.value ==> HitSide(layout(blocks[j]), clientY).None?
    ensures r.None? ==> forall j :: i <= j < |blocks| ==> HitSide(layout(blocks[j]), clientY).None?
    decreases |blocks| - i
  {
    if i >= |blocks| then None
    else if HitSide(layout(blocks[i]), clientY).Some? then Some(i)
    else FirstHit(blocks, layout, clientY, i + 1)
  }

  /** Whether a click on the node at `p` is on a paragraph or a list item. */
  predicate IsParagraphOrItem(view: ViewNode, p: Path) {
    && IsViewElementAt(view, p)
    && (ViewAt(view, p).value.name == "p" || ViewAt(view, p).value.name == "li")
  }

  /** The click target or one of its ancestors is a paragraph or a list item. */
  predicate InParagraphOrItem(view: ViewNode, target: Path) {
    exists k :: 0 <= k <= |target| && IsParagraphOrItem(view, target[..k])
  }

  /**
   * The model element of the view sibling next to the block on the given
   * side, when that sibling is a view `<p>` the mapper maps; a sibling `<p>`
   * the mapper does not map counts as none, as `undefined` does.
   */
  function AdjacentParagraph(view: ViewNode, c: Path, side: Side): (r: Option<Path>)
    requires |c| > 0
    ensures r.Some? ==> exists j: nat ::
      && IsViewElementAt(view, Parent(c) + [j]) && ViewAt(view, Parent(c) + [j]).value.name == "p"
      && ViewAt(view, Parent(c) + [j]).value.model == r
      && (if side == InsertBefore then j + 1 == Last(c) else j == Last(c) + 1)
  {
    var j: int := if side == InsertBefore then Last(c) - 1 else Last(c) + 1;
    if j < 0 then None
    else
      var sibling := ViewAt(view, Parent(c) + [j]);
      if sibling.Some? && sibling.value.ViewElement? && sibling.value.name == "p" then sibling.value.model else None
  }

  /** The children `ch` with `x` inserted at index `i`. */
  function Inserted(ch: seq<Node>, i: nat, x: Node): (r: seq<Node>)
    requires i <= |ch|
    ensures |r| == |ch| + 1 && r[i] == x && r[..i] == ch[..i] && r[i + 1..] == ch[i..]
  {
    ch[..i] + [x] + ch[i..]
  }

  /**
   * The outcome of `#insertParagraphBefore` / `#insertParagraphAfter` for the
   * block `c`, from the document `root0` with next id `next0` to `root1`,
   * `next1` with the selection at the end of the paragraph at `selection`:
   * an adjacent mapped paragraph is reused and nothing changes; otherwise
   * one new empty paragraph is inserted right before or after the block's
   * model element.
   */
  predicate Placed(root0: Node, next0: nat, root1: Node, next1: nat, view: ViewNode, c: Path, side: Side, selection: Path)
    requires |c| > 0 && IsCandidate(view, root0, c)
  {
    var reuse := AdjacentParagraph(view, c, side);
    if reuse.Some? then root1 == root0 && next1 == next0 && selection == reuse.value
    else
      var q := ViewAt(view, c).value.model.value;
      && |q| > 0 && IsElementAt(root0, Parent(q))
      && var i := if side == InsertBefore then Last(q) else Last(q) + 1;
      && i <= |At(root0, Parent(q)).value.children|
      && next1 == next0 + 1
      && root1 == Replace(root0, Parent(q), Inserted(At(root0, Parent(q)).value.children, i, Element(next0, "paragraph", [])))
      && selection == Parent(q) + [i]
  }

  /**
   * A new paragraph is the only new node: it is empty, it sits at the
   * selection, and the block's model element is its next sibling (before) or
   * its previous sibling (after), unchanged.
   */
  lemma {:induction false} InsertedParagraphAdjacent(root0: Node, next0: nat, root1: Node, next1: nat, view: ViewNode, c: Path, side: Side, selection: Path)
    requires |c| > 0 && IsCandidate(view, root0, c)
    requires Placed(root0, next0, root1, next1, view, c, side, selection)
    requires AdjacentParagraph(view, c, side).None?
    ensures At(root1, selection) == Some(Element(next0, "paragraph", []))
    ensures var q := ViewAt(view, c).value.model.value;
      && |q| > 0 && |selection| == |q| && Parent(selection) == Parent(q)
      && (side == InsertBefore ==> selection == q && At(root1, NextSibling(q)) == At(root0, q))
      && (side == InsertAfter ==> selection == NextSibling(q) && At(root1, q) == At(root0, q))
      && IsElementAt(root0, Parent(q)) && IsElementAt(root1, Parent(q))
      && |At(root1, Parent(q)).value.children| == |At(root0, Parent(q)).value.children| + 1
  {
    var q := ViewAt(view, c).value.model.value;
    InsertedBeside(root0, root1, q, side, Element(next0, "paragraph", []), selection);
  }

  /** `InsertedParagraphAdjacent` for the model element `q` of the block, once the insertion is known. */
  lemma {:induction false} InsertedBeside(root0: Node, root1: Node, q: Path, side: Side, x: Node, selection: Path)
    requires |q| > 0 && IsElementAt(root0, Parent(q)) && At(root0, q).Some?
    requires var i := if side == InsertBefore then Last(q) else Last(q) + 1;
      && i <= |At(root0, Parent(q)).value.children|
      && root1 == Replace(root0, Parent(q), Inserted(At(root0, Parent(q)).value.children, i, x))
      && selection == Parent(q) + [i]
    ensures At(root1, selection) == Some(x)
    ensures |selection| == |q| && Parent(selection) == Parent(q)
    ensures side == InsertBefore ==> selection == q && At(root1, NextSibling(q)) == At(root0, q)
    ensures side == InsertAfter ==> selection == NextSibling(q) && At(root1, q) == At(root0, q)
    ensures IsElementAt(root1, Parent(q))
    ensures |At(root1, Parent(q)).value.children| == |At(root0, Parent(q)).value.children| + 1
  {
    var p := Parent(q);
    assert q == p + [Last(q)];
    AtChild(root0, p, Last(q));
    var i := if side == InsertBefore then Last(q) else Last(q) + 1;
    InsertedChildAt(root0, p, i, x);
    if side == InsertBefore {
      assert NextSibling(q) == p + [i + 1];
    } else {
      assert q == p + [i - 1] && NextSibling(q) == selection;
    }
  }

  /** After `x` is inserted at index `i` of the children at `p`, it is found at `p + [i]`, between the former neighbours. */
  lemma {:induction false} InsertedChildAt(root0: Node, p: Path, i: nat, x: Node)
    requires IsElementAt(root0, p) && i <= |At(root0, p).value.children|
    ensures var ch := At(root0, p).value.children;
      var root1 := Replace(root0, p, Inserted(ch, i, x));
      && IsElementAt(root1, p) && |At(root1, p).value.children| == |ch| + 1
      && At(root1, p + [i]) == Some(x)
      && (0 < i ==> At(root1, p + [i - 1]) == Some(ch[i - 1]))
      && (i < |ch| ==> At(root1, p + [i + 1]) == Some(ch[i]))
  {
    var ch := At(root0, p).value.children;
    var ins := Inserted(ch, i, x);
    var root1 := Replace(root0, p, ins);
    ReplaceAt(root0, p, ins);
    AtExtend(root1, p, i);
    if 0 < i {
      AtExtend(root1, p, i - 1);
      assert ins[i - 1] == ins[..i][i - 1];
    }
    if i < |ch| {
      AtExtend(root1, p, i + 1);
      assert ins[i + 1] == ins[i + 1..][0];
    }
  }

  /** `#insertParagraphBefore` and `#insertParagraphAfter`, which differ only in the side. */
  method InsertParagraph(doc: Document, view: ViewNode, c: Path, side: Side) returns (selection: Path)
    requires doc.Valid() && |c| > 0 && IsCandidate(view, doc.root, c)
    modifies doc
    ensures doc.Valid()
    ensures Placed(old(doc.root), old(doc.nextId), doc.root, doc.nextId, view, c, side, selection)
  {
    var paragraph := AdjacentParagraph(view, c, side);
    if paragraph.Some? {
      selection := paragraph.value;
    } else {
      var q := ViewAt(view, c).value.model.value;
      if |q| == 0 {
        assert false;
      }
      var p := Parent(q);
      assert q == p + [Last(q)];
      AtChild(doc.root, p, Last(q));
      var i := if side == InsertBefore then Last(q) else Last(q) + 1;
      var id := doc.CreateId();
      var ch := At(doc.root, p).value.children;
      doc.SetChildren(p, Inserted(ch, i, Element(id, "paragraph", [])));
      selection := p + [i];
    }
  }

  /** The loop over the click target and its ancestors: does one of them name a paragraph or a list item? */
  method HitsParagraphOrItem(view: ViewNode, target: Path) returns (inside: bool)
    ensures inside <==> InParagraphOrItem(view, target)
  {
    var k := 0;
    while k <= |target|
      invariant k <= |target| + 1
      invariant forall j :: 0 <= j < k ==> !IsParagraphOrItem(view, target[..j])
    {
      var element := ViewAt(view, target[..k]);
      if element.Some? && element.value.ViewElement? && (element.value.name == "p" || element.value.name == "li") {
        assert IsParagraphOrItem(view, target[..k]);
        return true;
      }
      k := k + 1;
    }
    return false;
  }

  /**
   * The loop over the possible blocks: the first one whose top margin
   * (then, failing that, bottom margin) holds `clientY`, and the side.
   */
  method FindHit(blocks: seq<Path>, layout: Path -> Box, clientY: int) returns (hit: Option<(nat, Side)>)
    ensures var k := FirstHit(blocks, layout, clientY, 0);
      && (k.None? <==> hit.None?)
      && (k.Some? ==> hit == Some((k.value, HitSide(layout(blocks[k.value]), clientY).value)))
  {
    var i := 0;
    while i < |blocks|
      invariant i <= |blocks|
      invariant FirstHit(blocks, layout, clientY, i) == FirstHit(blocks, layout, clientY, 0)
    {
      var box := layout(blocks[i]);
      var topBoundary := box.top - box.marginTop;
      var bottomBoundary := box.bottom + box.marginBottom;
      if clientY >= topBoundary && clientY <= box.top {
        return Some((i, InsertBefore));
      } else if clientY >= box.bottom && clientY <= bottomBoundary {
        return Some((i, InsertAfter));
      }
      i := i + 1;
    }
    return None;
  }

  /**
   * The click handler. A click within a paragraph or list item changes
   * nothing; otherwise the first watched block, in document order, whose
   * top or bottom margin holds `clientY` gets its paragraph, and the
   * selection is returned. At most one paragraph is placed per click.
   */
  method OnClick(doc: Document, view: ViewNode, target: Path, clientY: int, layout: Path -> Box) returns (selection: Option<Path>)
    requires doc.Valid() && ViewAt(view, target).Some?
    modifies doc
    ensures doc.Valid()
    ensures InParagraphOrItem(view, target) ==> selection.None? && doc.root == old(doc.root) && doc.nextId == old(doc.nextId)
    ensures !InParagraphOrItem(view, target) ==>
      var blocks := PossibleBlocks(view, old(doc.root));
      var k := FirstHit(blocks, layout, clientY, 0);
      && (k.None? ==> selection.None? && doc.root == old(doc.root) && doc.nextId == old(doc.nextId))
      && (k.Some? ==>
           && selection.Some? && |blocks[k.value]| > 0 && IsCandidate(view, old(doc.root), blocks[k.value])
           && Placed(old(doc.root), old(doc.nextId), doc.root, doc.nextId, view, blocks[k.value], HitSide(layout(blocks[k.value]), clientY).value, selection.value))
  {
    var inside := HitsParagraphOrItem(view, target);
    if inside {
      return None;
    }
    var blocks := FindPossibleBlocks(view, doc.root);
    var hit := FindHit(blocks, layout, clientY);
    if hit.None? {
      return None;
    }
    var (k, side) := hit.value;
    PossibleBlocksIff(view, doc.root, blocks[k]);
    var s := InsertParagraph(doc, view, blocks[k], side);
    return Some(s);
  }
}
