/**
 * The CKEditor model tree as the spoiler command sees it: elements with a
 * name and children, and text nodes. A node is addressed by its path, the
 * child indices from the root, which is how the engine represents positions;
 * a position before the child at path `p` has the path `p` itself.
 * Element identity (the engine compares element objects) is modelled by ids.
 */
module ModelTree {
  import opened Wrappers

  datatype Node = Element(id: nat, name: string, children: seq<Node>) | Text(data: string)

  type Path = seq<nat>

  /** The node at `p`, if the path leads to one. */
  function At(n: Node, p: Path): (r: Option<Node>)
    ensures |p| == 0 ==> r == Some(n)
    decreases |p|
  {
    if |p| == 0 then Some(n)
    else if n.Element? && p[0] < |n.children| then At(n.children[p[0]], p[1..])
    else None
  }

  predicate IsElementAt(n: Node, p: Path) {
    At(n, p).Some? && At(n, p).value.Element?
  }

  /** The name of the element at `p`; `None` when there is no element there. */
  function NameAt(n: Node, p: Path): (r: Option<string>)
    ensures r.Some? <==> IsElementAt(n, p)
  {
    if IsElementAt(n, p) then Some(At(n, p).value.name) else None
  }

  function Parent(p: Path): Path
    requires |p| > 0
  {
    p[..|p| - 1]
  }

  function Last(p: Path): nat
    requires |p| > 0
  {
    p[|p| - 1]
  }

  /** The path of the next sibling of the node at `p`. */
  function NextSibling(p: Path): (r: Path)
    requires |p| > 0
    ensures |r| == |p| && Parent(r) == Parent(p) && Last(r) == Last(p) + 1
  {
    Parent(p) + [Last(p) + 1]
  }

  /** Whether the node at `q` is the next sibling of the node at `p` (`p.nextSibling === q`). */
  predicate Adjacent(p: Path, q: Path) {
    |p| > 0 && q == NextSibling(p)
  }

  /** A node at `p + [x]` exists only inside an element at `p` with more than `x` children. */
  lemma {:induction false} AtChild(n: Node, p: Path, x: nat)
    requires At(n, p + [x]).Some?
    ensures IsElementAt(n, p) && x < |At(n, p).value.children|
    ensures At(n, p + [x]) == Some(At(n, p).value.children[x])
    decreases |p|
  {
    if |p| > 0 {
      assert (p + [x])[1..] == p[1..] + [x];
      AtChild(n.children[p[0]], p[1..], x);
    }
  }

  /** The child `x` of the element at `p` is the node at `p + [x]`. */
  lemma {:induction false} AtExtend(n: Node, p: Path, x: nat)
    requires IsElementAt(n, p) && x < |At(n, p).value.children|
    ensures At(n, p + [x]) == Some(At(n, p).value.children[x])
    decreases |p|
  {
    if |p| > 0 {
      assert (p + [x])[1..] == p[1..] + [x];
      AtExtend(n.children[p[0]], p[1..], x);
    } else {
      assert p + [x] == [x] && [x][1..] == [];
    }
  }

  /** The element at `p` with its children replaced by `ch`; everything else is kept. */
  function Replace(n: Node, p: Path, ch: seq<Node>): (r: Node)
    requires IsElementAt(n, p)
    ensures r.Element? && r.id == n.id && r.name == n.name
    ensures |p| > 0 ==> |r.children| == |n.children|
    decreases |p|
  {
    if |p| == 0 then n.(children := ch)
    else n.(children := n.children[p[0] := Replace(n.children[p[0]], p[1..], ch)])
  }

  lemma {:induction false} ReplaceAt(n: Node, p: Path, ch: seq<Node>)
    requires IsElementAt(n, p)
    ensures At(Replace(n, p, ch), p) == Some(At(n, p).value.(children := ch))
    decreases |p|
  {
    if |p| > 0 {
      ReplaceAt(n.children[p[0]], p[1..], ch);
    }
  }

  /**
   * `q` lies strictly before `r` in document order and neither contains the
   * other: at the first index where they differ, `q` has the smaller child.
   */
  predicate Before(q: Path, r: Path)
    decreases |q|
  {
    |q| > 0 && |r| > 0 && (q[0] < r[0] || (q[0] == r[0] && Before(q[1..], r[1..])))
  }

  lemma {:induction false} BeforeTransitive(a: Path, b: Path, c: Path)
    requires Before(a, b) && Before(b, c)
    ensures Before(a, c)
    decreases |a|
  {
    if a[0] == b[0] && b[0] == c[0] {
      BeforeTransitive(a[1..], b[1..], c[1..]);
    }
  }

  /**
   * Replacing the children of the element at `p` by children that keep the
   * first `s` of them leaves every node before position `p + [s]` as it was.
   */
  lemma {:induction false} ReplaceKeepsBefore(n: Node, p: Path, ch: seq<Node>, s: nat, q: Path)
    requires IsElementAt(n, p)
    requires s <= |ch| && s <= |At(n, p).value.children|
    requires ch[..s] == At(n, p).value.children[..s]
    requires Before(q, p + [s])
    ensures At(Replace(n, p, ch), q) == At(n, q)
    decreases |p|
  {
    var r := Replace(n, p, ch);
    if |p| == 0 {
      assert q[0] < s;
      assert ch[q[0]] == ch[..s][q[0]];
      assert r.children[q[0]] == n.children[q[0]];
    } else if q[0] != p[0] {
      assert r.children[q[0]] == n.children[q[0]];
    } else {
      assert (p + [s])[1..] == p[1..] + [s];
      ReplaceKeepsBefore(n.children[p[0]], p[1..], ch, s, q[1..]);
    }
  }

  /**
   * The document content as the spoiler plugin leaves it: `spoiler` and
   * `spoilerContent` wrappers are dissolved into their children and
   * `spoilerTitle` elements (whose text is only a caption) are dropped.
   */
  function Flat(ns: seq<Node>): seq<Node>
  {
    if |ns| == 0 then []
    else
      var head :=
        match ns[0]
        case Text(_) => [ns[0]]
        case Element(id, name, ch) =>
          if name == "spoilerTitle" then []
          else if name == "spoiler" || name == "spoilerContent" then Flat(ch)
          else [Element(id, name, Flat(ch))];
      head + Flat(ns[1..])
  }

  /** The content of a whole document. */
  function Content(root: Node): seq<Node> {
    Flat([root])
  }

  lemma {:induction false} FlatConcat(a: seq<Node>, b: seq<Node>)
    ensures Flat(a + b) == Flat(a) + Flat(b)
    decreases |a|
  {
    if |a| > 0 {
      assert (a + b)[0] == a[0];
      assert (a + b)[1..] == a[1..] + b;
      FlatConcat(a[1..], b);
      FlatSingle(a[0]);
      assert Flat(a) == Flat([a[0]]) + Flat(a[1..]);
      assert Flat(a + b) == Flat([a[0]]) + Flat(a[1..] + b);
    } else {
      assert a + b == b;
    }
  }

  lemma {:induction false} FlatSingle(x: Node)
    ensures Flat([x]) == (match x
      case Text(_) => [x]
      case Element(id, name, ch) =>
        if name == "spoilerTitle" then []
        else if name == "spoiler" || name == "spoilerContent" then Flat(ch)
        else [Element(id, name, Flat(ch))])
  {
    assert [x][1..] == [];
  }

  /** A `spoiler` or `spoilerContent` adds nothing to the content but its children's. */
  lemma {:induction false} FlatDissolved(x: Node)
    requires x.Element? && (x.name == "spoiler" || x.name == "spoilerContent")
    ensures Flat([x]) == Flat(x.children)
  {
    FlatSingle(x);
  }

  /** A `spoilerTitle` adds nothing to the content. */
  lemma {:induction false} FlatDropped(x: Node)
    requires x.Element? && x.name == "spoilerTitle"
    ensures Flat([x]) == []
  {
    FlatSingle(x);
  }

  /** Changing one child for one of equal content keeps the content of the siblings. */
  lemma {:induction false} FlatUpdate(ns: seq<Node>, i: nat, x: Node)
    requires i < |ns|
    requires Flat([x]) == Flat([ns[i]])
    ensures Flat(ns[i := x]) == Flat(ns)
  {
    assert ns == ns[..i] + [ns[i]] + ns[i + 1..];
    assert ns[i := x] == ns[..i] + [x] + ns[i + 1..];
    FlatConcat(ns[..i] + [ns[i]], ns[i + 1..]);
    FlatConcat(ns[..i], [ns[i]]);
    FlatConcat(ns[..i] + [x], ns[i + 1..]);
    FlatConcat(ns[..i], [x]);
  }

  /** Replacing the children of one element by children of equal content keeps the document content. */
  lemma {:induction false} ReplaceKeepsContent(n: Node, p: Path, ch: seq<Node>)
    requires IsElementAt(n, p)
    requires Flat(ch) == Flat(At(n, p).value.children)
    ensures Flat([Replace(n, p, ch)]) == Flat([n])
    decreases |p|
  {
    FlatSingle(n);
    FlatSingle(Replace(n, p, ch));
    if |p| > 0 {
      ReplaceKeepsContent(n.children[p[0]], p[1..], ch);
      FlatUpdate(n.children, p[0], Replace(n.children[p[0]], p[1..], ch));
    }
  }

  /** The path, relative to `ns`, of the first element with the given id in document order. */
  function FindIn(ns: seq<Node>, id: nat): (r: Option<Path>)
    ensures r.Some? ==>
      && |r.value| > 0 && r.value[0] < |ns|
      && IsElementAt(ns[r.value[0]], r.value[1..]) && At(ns[r.value[0]], r.value[1..]).value.id == id
  {
    if |ns| == 0 then None
    else if ns[0].Element? && ns[0].id == id then Some([0])
    else
      var inside := if ns[0].Element? then FindIn(ns[0].children, id) else None;
      if inside.Some? then Some([0] + inside.value)
      else
        var rest := FindIn(ns[1..], id);
        if rest.Some? then Some([rest.value[0] + 1] + rest.value[1..]) else None
  }

  /** The path of the first element with the given id in the document (the element object with that identity). */
  function Find(root: Node, id: nat): (r: Option<Path>)
    ensures r.Some? ==> IsElementAt(root, r.value) && At(root, r.value).value.id == id
  {
    if root.Element? && root.id == id then Some([])
    else if root.Element? then
      var inside := FindIn(root.children, id);
      if inside.Some? then Some(inside.value) else None
    else None
  }

  /**
   * The model document: its root element (named `$root`) and the next id
   * `writer.createElement` hands out.
   */
  class Document {
    var root: Node
    var nextId: nat

    predicate Valid()
      reads this
    {
      root.Element? && root.name == "$root"
    }

    constructor (rootId: nat, children: seq<Node>, nextId: nat)
      ensures Valid() && root == Element(rootId, "$root", children) && this.nextId == nextId
    {
      root := Element(rootId, "$root", children);
      this.nextId := nextId;
    }

    /** Gives the element at `p` the children `ch`, as the writer's move, wrap, unwrap and remove do. */
    method SetChildren(p: Path, ch: seq<Node>)
      requires Valid() && IsElementAt(root, p)
      modifies this
      ensures Valid() && root == Replace(old(root), p, ch) && nextId == old(nextId)
    {
      root := Replace(root, p, ch);
    }

    /** A fresh id for a new element. */
    method CreateId() returns (id: nat)
      modifies this
      ensures id == old(nextId) && nextId == old(nextId) + 1 && root == old(root)
    {
      id := nextId;
      nextId := nextId + 1;
    }
  }
}
