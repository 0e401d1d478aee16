/** The document nodes and the file system of `rmrf.fs`: a node reads its
    page-id map from its metadata when it is made, answers geometry
    questions about its page, and classifies scene blocks; the file system
    keeps the nodes that are not deleted and links each one to its parent. */
module Fs {
  import opened Common
  import opened Meta
  import H = Hierarchy
  import Seqs
  import Scene

  class Node {
    const id: string
    const metadata: Metadata
    var id2page: map<string, int>
    var children: seq<Node>

    /** The dataclass fields, before `__post_init__` runs. */
    constructor(id: string, metadata: Metadata)
      ensures this.id == id && this.metadata == metadata
      ensures id2page == map[] && children == []
    {
      this.id := id;
      this.metadata := metadata;
      id2page := map[];
      children := [];
    }

    /** `read_page_map()`: the `cPages` indices, then the
        `pages`/`redirectionPageMap` pairs over them. When `pages` has no
        `redirectionPageMap` the second lookup raises after the first loop
        has run. */
    method ReadPageMap() returns (err: Option<Error>)
      modifies this
      ensures err.None? <==> PageMap(old(id2page), metadata).Success?
      ensures err.None? ==> id2page == PageMap(old(id2page), metadata).value
      ensures err.Some? ==>
        err.value == PageMap(old(id2page), metadata).error &&
        id2page == IndexPages(old(id2page), if metadata.cPages.Some? then metadata.cPages.value else [])
      ensures children == old(children)
    {
      if metadata.cPages.Some? {
        var ps := metadata.cPages.value;
        for i := 0 to |ps|
          invariant id2page == IndexPages(old(id2page), ps[..i])
          invariant children == old(children)
        {
          assert ps[..i + 1][..i] == ps[..i];
          id2page := id2page[ps[i].id := i];
        }
        assert ps[..|ps|] == ps;
      }
      if metadata.pages.Some? {
        if metadata.redirectionPageMap.None? {
          return Some(KeyError("redirectionPageMap"));
        }
        var pages, redir := metadata.pages.value, metadata.redirectionPageMap.value;
        ghost var m1 := id2page;
        ghost var pairs := Zip(pages, redir);
        var k := 0;
        while k < |pages| && k < |redir|
          invariant 0 <= k <= |pairs|
          invariant id2page == Assign(m1, pairs[..k])
          invariant children == old(children)
        {
          assert pairs[..k + 1][..k] == pairs[..k];
          id2page := id2page[pages[k] := redir[k]];
          k := k + 1;
        }
        assert pairs[..k] == pairs;
      }
      return None;
    }

    /** `self.height`: 2160 for notebooks, the zoomed page height otherwise. */
    function Height(): (r: Result<real, Error>)
      ensures metadata.fileType == Some("notebook") ==> r == Success(2160.0)
      ensures metadata.fileType.Some? && metadata.fileType.value != "notebook" ==>
        r == if metadata.zoomPageHeight.Some? then Success(metadata.zoomPageHeight.value) else Failure(KeyError("customZoomPageHeight"))
      ensures metadata.fileType.None? ==> r == Failure(KeyError("fileType"))
    {
      var ft :- FileType(metadata);
      if ft == "notebook" then Success(2160.0)
      else if metadata.zoomPageHeight.None? then Failure(KeyError("customZoomPageHeight"))
      else Success(metadata.zoomPageHeight.value)
    }

    /** `self.width`: 1620 for notebooks, the zoomed page width otherwise. */
    function Width(): (r: Result<real, Error>)
      ensures metadata.fileType == Some("notebook") ==> r == Success(1620.0)
      ensures metadata.fileType.Some? && metadata.fileType.value != "notebook" ==>
        r == if metadata.zoomPageWidth.Some? then Success(metadata.zoomPageWidth.value) else Failure(KeyError("customZoomPageWidth"))
      ensures metadata.fileType.None? ==> r == Failure(KeyError("fileType"))
    {
      var ft :- FileType(metadata);
      if ft == "notebook" then Success(1620.0)
      else if metadata.zoomPageWidth.None? then Failure(KeyError("customZoomPageWidth"))
      else Success(metadata.zoomPageWidth.value)
    }

    /** `absolute_x(x)`: from the page's centre line to its left edge. */
    function AbsoluteX(x: real): (r: Result<real, Error>)
      ensures r.Success? <==> Width().Success?
      ensures r.Success? ==> r.value - Width().value / 2.0 == x
    {
      var w :- Width();
      Success(x + w / 2.0)
    }

    /** `absolute_y(y)`: the vertical coordinate already starts at the top. */
    function AbsoluteY(y: real): real {
      y
    }

    /** `x_percent(x)`: the fraction of the page width left of `x`. */
    function XPercent(x: real): Result<real, Error> {
      var a :- AbsoluteX(x);
      var w := Width().value;
      if w == 0.0 then Failure(ZeroDivision) else Success(a / w)
    }

    /** `y_percent(y)` */
    function YPercent(y: real): Result<real, Error> {
      var h :- Height();
      if h == 0.0 then Failure(ZeroDivision) else Success(AbsoluteY(y) / h)
    }

    /** A page fraction converts back to the coordinate it came from; the
        fraction lies in [0, 1] exactly for points on a page of positive
        width; on a notebook the centre line is at 810. */
    lemma XPercentInverse(x: real)
      ensures XPercent(x).Success? <==> Width().Success? && Width().value != 0.0
      ensures XPercent(x).Success? ==>
        var w, p := Width().value, XPercent(x).value;
        p * w - w / 2.0 == x &&
        (w > 0.0 ==> (0.0 <= p <= 1.0 <==> -w / 2.0 <= x <= w / 2.0))
      ensures metadata.fileType == Some("notebook") ==> XPercent(x) == Success((x + 810.0) / 1620.0)
    {
      if XPercent(x).Success? {
        var w, p := Width().value, XPercent(x).value;
        assert p == (x + w / 2.0) / w;
        assert p * w == x + w / 2.0;
        if w > 0.0 {
          FractionInUnit(x + w / 2.0, w);
        }
      }
    }

    /** A quotient by a positive width lies in [0, 1] exactly when the
        dividend lies in [0, width]. */
    static lemma FractionInUnit(a: real, w: real)
      requires w > 0.0
      ensures 0.0 <= a / w <= 1.0 <==> 0.0 <= a <= w
    {
      var q := a / w;
      assert q * w == a;
      assert w - a == (1.0 - q) * w;
    }

    lemma YPercentInverse(y: real)
      ensures YPercent(y).Success? <==> Height().Success? && Height().value != 0.0
      ensures YPercent(y).Success? ==> YPercent(y).value * Height().value == y
      ensures metadata.fileType == Some("notebook") ==> YPercent(y) == Success(y / 2160.0)
    {
    }

    /** `self.deleted` */
    function Deleted(): Result<bool, Error> {
      Meta.Deleted(metadata)
    }

    /** `is_highlight_block(block)`: the block's raw trailing bytes start
        with 0xA4 0x01 and are long enough to hold a colour. */
    static function IsHighlightBlock(block: Scene.Block): (r: bool)
      requires block.LineBlock? || block.GlyphBlock?
      ensures r ==> |block.extraData| >= 5 && block.extraData[..2] == [0xA4, 0x01]
      ensures |block.extraData| >= 5 && block.extraData[0] == 0xA4 && block.extraData[1] == 0x01 ==> r
    {
      var e := block.extraData;
      |e| >= 2 && e[0] == 0xA4 && e[1] == 0x01 && |e| >= 5
    }

    /** `is_handwriting_block(block)`: a stroke with points. A glyph item
        has no `points` attribute, so asking a non-empty one raises. */
    static function IsHandwritingBlock(block: Scene.Block): (r: Result<bool, Error>)
      requires block.LineBlock? || block.GlyphBlock?
      ensures r.Failure? <==> block.GlyphBlock? && block.glyph.Some?
      ensures r == Success(true) <==> block.LineBlock? && block.line.Some? && |block.line.value.points| > 0
    {
      if block.LineBlock? then Success(block.line.Some? && |block.line.value.points| > 0)
      else if block.glyph.None? then Success(false)
      else Failure(AttributeError("points"))
    }
  }

  /** The node table of a `FileSystem`: `order` lists each key once, and
      every kept node is stored under its own id, has a parent id (it was
      read when the node was found not deleted) and is not the root. */
  ghost predicate Table(nodes: map<string, Node>, order: seq<string>, root: Node) {
    (forall i :: 0 <= i < |order| ==> order[i] in nodes) &&
    (forall id :: id in nodes ==> id in order) &&
    H.Distinct(order) &&
    (forall id :: id in nodes ==> nodes[id].id == id && nodes[id].metadata.parent.Some? && nodes[id] != root)
  }

  /** Keeping one more node under its id keeps the table well formed. */
  lemma TableAdd(nodes: map<string, Node>, order: seq<string>, root: Node, n: Node)
    requires Table(nodes, order, root) && n.metadata.parent.Some? && n != root
    ensures Table(nodes[n.id := n], if n.id in nodes then order else order + [n.id], root)
  {
  }

  /** The nodes of `ns` with the given ids, in order. */
  function NodesOf(ns: map<string, Node>, ids: seq<string>): seq<Node> {
    if ids == [] then []
    else NodesOf(ns, ids[..|ids| - 1]) + (if ids[|ids| - 1] in ns then [ns[ids[|ids| - 1]]] else [])
  }

  lemma NodesOfSnoc(ns: map<string, Node>, a: seq<string>, id: string)
    requires id in ns
    ensures NodesOf(ns, a + [id]) == NodesOf(ns, a) + [ns[id]]
  {
    assert (a + [id])[..|a|] == a;
  }

  /** One visit of `build_hierarchy`, on the nodes of one children list. */
  lemma ChildNodesSnoc(ns: map<string, Node>, order: seq<string>, i: int, parents: map<string, string>, t: Option<string>)
    requires 0 <= i < |order| && order[i] in ns
    ensures order[i] in parents && H.Home(parents.Keys, parents[order[i]]) == t ==>
      NodesOf(ns, H.ChildIds(order[..i + 1], parents, t)) == NodesOf(ns, H.ChildIds(order[..i], parents, t)) + [ns[order[i]]]
    ensures !(order[i] in parents && H.Home(parents.Keys, parents[order[i]]) == t) ==>
      NodesOf(ns, H.ChildIds(order[..i + 1], parents, t)) == NodesOf(ns, H.ChildIds(order[..i], parents, t))
  {
    H.ChildIdsSnoc(order, i, parents, t);
    if order[i] in parents && H.Home(parents.Keys, parents[order[i]]) == t {
      NodesOfSnoc(ns, H.ChildIds(order[..i], parents, t), order[i]);
    } else {
      assert H.ChildIds(order[..i], parents, t) + [] == H.ChildIds(order[..i], parents, t);
    }
  }

  class FileSystem {
    var root: Node
    var nodes: map<string, Node>
    /** The keys of `nodes` in insertion order, the order `nodes.values()`
        visits them. */
    var order: seq<string>

    ghost predicate Valid()
      reads this
    {
      Table(nodes, order, root)
    }

    /** The parent id of every kept node. */
    ghost function Parents(): (p: map<string, string>)
      requires Valid()
      reads this
      ensures p.Keys == nodes.Keys
    {
      map id | id in nodes :: nodes[id].metadata.parent.value
    }

    /** `FileSystem(source_dir, cache_dir)`: only the root, with no nodes. */
    constructor()
      ensures Valid() && nodes == map[] && order == []
      ensures root.id == "root" && root.metadata == RootMetadata
      ensures root.id2page == map[] && root.children == []
    {
      var r := new Node("root", RootMetadata);
      var err := r.ReadPageMap();
      root := r;
      nodes := map[];
      order := [];
    }

    /** `add_node(node_id, metadata)`: make the node (reading its page map)
        and keep it, under its id, unless it is deleted. */
    method AddNode(nodeId: string, md: Metadata) returns (r: Result<Option<Node>, Error>)
      requires Valid()
      modifies this
      ensures Valid() && root == old(root)
      ensures r.Failure? <==> PageMap(map[], md).Failure? || Meta.Deleted(md).Failure?
      ensures r.Failure? ==> r.error == if PageMap(map[], md).Failure? then PageMap(map[], md).error else Meta.Deleted(md).error
      ensures r == Success(None) <==> PageMap(map[], md).Success? && Meta.Deleted(md) == Success(true)
      ensures r.Success? && r.value.Some? ==>
        var n := r.value.value;
        fresh(n) && n.id == nodeId && n.metadata == md && n.id2page == PageMap(map[], md).value && n.children == [] &&
        nodes == old(nodes)[nodeId := n] &&
        order == if nodeId in old(nodes) then old(order) else old(order) + [nodeId]
      ensures !(r.Success? && r.value.Some?) ==> nodes == old(nodes) && order == old(order)
    {
      var node := new Node(nodeId, md);
      var err := node.ReadPageMap();
      if err.Some? {
        return Failure(err.value);
      }
      var deleted := node.Deleted();
      if deleted.Failure? {
        return Failure(deleted.error);
      }
      if deleted.value {
        return Success(None);
      }
      TableAdd(nodes, order, root, node);
      if nodeId !in nodes {
        order := order + [nodeId];
      }
      nodes := nodes[nodeId := node];
      return Success(Some(node));
    }

    /** After visiting `order[..i]`, each kept node's children are its
        children `kids0` from before, followed by the nodes of its
        children ids, and likewise for the root. */
    ghost predicate Built(i: nat, parents: map<string, string>, kids0: map<string, seq<Node>>, rootKids0: seq<Node>)
      requires i <= |order|
      reads this, nodes.Values, root
    {
      (forall id :: id in nodes && id in kids0 ==>
        nodes[id].children == kids0[id] + NodesOf(nodes, H.ChildIds(order[..i], parents, Some(id)))) &&
      root.children == rootKids0 + NodesOf(nodes, H.ChildIds(order[..i], parents, None))
    }

    /** `build_hierarchy()`: visit the nodes in insertion order and append
        each to the children of its parent when the parent is kept, and to
        the root's otherwise. Nothing else changes. */
    method BuildHierarchy()
      requires Valid()
      modifies nodes.Values, root
      ensures forall id :: id in nodes ==>
        nodes[id].children == old(nodes[id].children) + NodesOf(nodes, H.ChildIds(order, Parents(), Some(id)))
      ensures root.children == old(root.children) + NodesOf(nodes, H.ChildIds(order, Parents(), None))
      ensures forall id :: id in nodes ==> nodes[id].id2page == old(nodes[id].id2page)
      ensures root.id2page == old(root.id2page)
    {
      ghost var parents := Parents();
      ghost var kids0 := map id | id in nodes :: nodes[id].children;
      ghost var rootKids0 := root.children;
      for i := 0 to |order|
        invariant Built(i, parents, kids0, rootKids0)
        invariant forall id :: id in nodes ==> nodes[id].id2page == old(nodes[id].id2page)
        invariant root.id2page == old(root.id2page)
      {
        Visit(i, parents, kids0, rootKids0);
      }
      assert order[..|order|] == order;
      assert Parents() == parents;
      forall id | id in nodes
        ensures nodes[id].children == old(nodes[id].children) + NodesOf(nodes, H.ChildIds(order, parents, Some(id)))
      {
        assert id in kids0 && kids0[id] == old(nodes[id].children);
      }
    }

    /** Step `i` of `build_hierarchy`. */
    method Visit(i: nat, ghost parents: map<string, string>, ghost kids0: map<string, seq<Node>>, ghost rootKids0: seq<Node>)
      requires Valid() && i < |order| && parents == Parents()
      requires Built(i, parents, kids0, rootKids0)
      modifies nodes.Values, root
      ensures Built(i + 1, parents, kids0, rootKids0)
      ensures forall id :: id in nodes ==> nodes[id].id2page == old(nodes[id].id2page)
      ensures root.id2page == old(root.id2page)
    {
      var node := nodes[order[i]];
      var parentId := node.metadata.parent.value;
      assert order[i] in parents && parents[order[i]] == parentId;
      assert parentId in parents.Keys <==> parentId in nodes;
      Link(node, parentId);
      forall id | id in nodes && id in kids0
        ensures nodes[id].children == kids0[id] + NodesOf(nodes, H.ChildIds(order[..i + 1], parents, Some(id)))
      {
        ChildNodesSnoc(nodes, order, i, parents, Some(id));
        if id == parentId {
          Seqs.AppendAssoc(kids0[id], NodesOf(nodes, H.ChildIds(order[..i], parents, Some(id))), [node]);
        }
      }
      ChildNodesSnoc(nodes, order, i, parents, None);
      if parentId !in nodes {
        Seqs.AppendAssoc(rootKids0, NodesOf(nodes, H.ChildIds(order[..i], parents, None)), [node]);
      }
    }

    /** One pass of `build_hierarchy`: append `node` to the children of the
        node `parentId`, or to the root's when there is none. */
    method Link(node: Node, parentId: string)
      requires Valid()
      modifies nodes.Values, root
      ensures parentId in nodes ==> nodes[parentId].children == old(nodes[parentId].children) + [node]
      ensures parentId !in nodes ==> root.children == old(root.children) + [node]
      ensures forall id :: id in nodes && id != parentId ==> nodes[id].children == old(nodes[id].children)
      ensures parentId in nodes ==> root.children == old(root.children)
      ensures forall id :: id in nodes ==> nodes[id].id2page == old(nodes[id].id2page)
      ensures root.id2page == old(root.id2page)
    {
      if parentId in nodes {
        var p := nodes[parentId];
        p.children := p.children + [node];
      } else {
        root.children := root.children + [node];
      }
    }
  }
}
