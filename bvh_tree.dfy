/** The shape of a wide BVH: nodes kept in an arena (a node's children are
    indices into it), each node owning a range of the primitive array. */
module BvhTree {
  import opened Geometry
  import opened Ranges

  /** The build parameters: FBVH_CHILD_CNT, the largest primitive count a node
      may keep without being split, and the depth at which splitting stops. */
  datatype Config = Config(width: nat, maxPriInLeaf: nat, maxNodeDepth: nat)

  /** Fbvh_Node: the node's primitive range, its child count, and for each child
      slot the child's index and bounding box. */
  datatype Node = Node(priOffset: nat, priCnt: nat, childCnt: nat, children: seq<nat>, bbox: seq<BBox>) {
    function Span(): Range { Range(priOffset, priOffset + priCnt) }
  }

  /** The node Fbvh_Node(offset, cnt) creates: that range and no children. */
  function NewNode(cfg: Config, offset: nat, cnt: nat): (n: Node)
    ensures n.Span() == Range(offset, offset + cnt) && n.childCnt == 0
    ensures |n.children| == cfg.width && |n.bbox| == cfg.width
  {
    Node(offset, cnt, 0, seq(cfg.width, _ => 0), seq(cfg.width, _ => EmptyBox))
  }

  /** Node k exists and its children come after it in the arena. */
  ghost predicate WellIndexed(nodes: seq<Node>, k: nat)
  {
    && k < |nodes|
    && nodes[k].childCnt <= |nodes[k].children|
    && nodes[k].childCnt <= |nodes[k].bbox|
    && forall j :: 0 <= j < nodes[k].childCnt ==> k < nodes[k].children[j] < |nodes|
  }

  /** The ranges of node k's children, in child order. */
  ghost function ChildSpans(nodes: seq<Node>, k: nat): (rs: seq<Range>)
    requires WellIndexed(nodes, k)
    ensures |rs| == nodes[k].childCnt
  {
    seq(nodes[k].childCnt, j requires 0 <= j < nodes[k].childCnt => nodes[nodes[k].children[j]].Span())
  }

  /** `box` encloses the primitives of range r. */
  ghost predicate Bounds(box: BBox, a: seq<BvhPrimitive>, r: Range)
  {
    r.end <= |a| && forall i :: r.start <= i < r.end ==> Contains(box, a[i].box)
  }

  /** Node k, at depth d, roots a well-formed subtree of depth at most D over the
      primitive array a: a node is a leaf when it holds few enough primitives or
      sits at the maximal depth; an inner node has between 2 and width children
      whose ranges tile its own, and the box kept for each child encloses the
      child's primitives. */
  ghost predicate TreeOK(cfg: Config, nodes: seq<Node>, a: seq<BvhPrimitive>, k: nat, d: nat, D: nat)
    decreases |nodes| - k
  {
    && k < |nodes|
    && var n := nodes[k];
    && n.Span().end <= |a|
    && |n.children| == cfg.width && |n.bbox| == cfg.width
    && 1 <= d <= D
    && ((n.priCnt <= cfg.maxPriInLeaf || d == cfg.maxNodeDepth) ==> n.childCnt == 0)
    && (n.childCnt > 0 ==>
        && 2 <= n.childCnt <= cfg.width
        && WellIndexed(nodes, k)
        && Tiles(ChildSpans(nodes, k), n.priOffset, n.Span().end)
        && (forall j :: 0 <= j < n.childCnt ==> Bounds(n.bbox[j], a, nodes[n.children[j]].Span()))
        && (forall j :: 0 <= j < n.childCnt ==> TreeOK(cfg, nodes, a, n.children[j], d + 1, D)))
  }

  /** The arena indices of the subtree rooted at node k. */
  ghost function Subtree(nodes: seq<Node>, k: nat): (s: set<nat>)
    ensures forall y :: y in s ==> k <= y < |nodes|
    ensures k < |nodes| ==> k in s
    decreases |nodes| - k, 1
  {
    if k >= |nodes| then {} else {k} + Below(nodes, k, 0)
  }

  /** The subtrees of node k's children from child slot j on. */
  ghost function Below(nodes: seq<Node>, k: nat, j: nat): (s: set<nat>)
    requires k < |nodes|
    ensures forall y :: y in s ==> k < y < |nodes|
    decreases |nodes| - k, 0, |nodes[k].children| - j
  {
    if j < nodes[k].childCnt && j < |nodes[k].children| && k < nodes[k].children[j] < |nodes|
    then Subtree(nodes, nodes[k].children[j]) + Below(nodes, k, j + 1)
    else {}
  }

  /** A leaf of the subtree rooted at k. */
  ghost predicate LeafOf(nodes: seq<Node>, k: nat, x: nat)
  {
    x in Subtree(nodes, k) && x < |nodes| && nodes[x].childCnt == 0
  }

  /** A node of a subtree other than its root lies in the subtree of one of the root's children. */
  lemma SubtreeMember(nodes: seq<Node>, k: nat, y: nat) returns (j: nat)
    requires y in Subtree(nodes, k) && y != k
    ensures j < nodes[k].childCnt && j < |nodes[k].children|
    ensures k < nodes[k].children[j] < |nodes| && y in Subtree(nodes, nodes[k].children[j])
  {
    j := BelowMember(nodes, k, 0, y);
  }

  lemma {:induction false} BelowMember(nodes: seq<Node>, k: nat, j0: nat, y: nat) returns (j: nat)
    requires k < |nodes| && y in Below(nodes, k, j0)
    ensures j0 <= j < nodes[k].childCnt && j < |nodes[k].children|
    ensures k < nodes[k].children[j] < |nodes| && y in Subtree(nodes, nodes[k].children[j])
    decreases |nodes[k].children| - j0
  {
    if y in Subtree(nodes, nodes[k].children[j0]) {
      j := j0;
    } else {
      j := BelowMember(nodes, k, j0 + 1, y);
    }
  }

  lemma {:induction false} BelowIncludes(nodes: seq<Node>, k: nat, j0: nat, j: nat)
    requires WellIndexed(nodes, k) && j0 <= j < nodes[k].childCnt
    ensures Subtree(nodes, nodes[k].children[j]) <= Below(nodes, k, j0)
    decreases j - j0
  {
    if j0 < j {
      BelowIncludes(nodes, k, j0 + 1, j);
    }
  }

  lemma SubtreeOfChild(cfg: Config, nodes: seq<Node>, a: seq<BvhPrimitive>, k: nat, d: nat, D: nat, j: nat)
    requires TreeOK(cfg, nodes, a, k, d, D) && j < nodes[k].childCnt
    ensures Subtree(nodes, nodes[k].children[j]) <= Subtree(nodes, k)
  {
    BelowIncludes(nodes, k, 0, j);
  }

  /** Every node of a well-formed subtree is itself well formed, deeper, and
      owns a part of the root's range. */
  lemma {:induction false} SubtreeNode(cfg: Config, nodes: seq<Node>, a: seq<BvhPrimitive>, k: nat, d: nat, D: nat, y: nat)
    returns (dy: nat)
    requires TreeOK(cfg, nodes, a, k, d, D) && y in Subtree(nodes, k)
    ensures TreeOK(cfg, nodes, a, y, dy, D) && d <= dy
    ensures nodes[k].priOffset <= nodes[y].priOffset && nodes[y].Span().end <= nodes[k].Span().end
    decreases |nodes| - k
  {
    if y == k {
      dy := d;
    } else {
      var j := SubtreeMember(nodes, k, y);
      var c := nodes[k].children[j];
      ChildSpanInside(cfg, nodes, a, k, d, D, j);
      dy := SubtreeNode(cfg, nodes, a, c, d + 1, D, y);
    }
  }

  /** A child's range lies inside its parent's. */
  lemma ChildSpanInside(cfg: Config, nodes: seq<Node>, a: seq<BvhPrimitive>, k: nat, d: nat, D: nat, j: nat)
    requires TreeOK(cfg, nodes, a, k, d, D) && j < nodes[k].childCnt
    ensures var c := nodes[nodes[k].children[j]];
      nodes[k].priOffset <= c.priOffset && c.Span().end <= nodes[k].Span().end && c.priCnt > 0
  {
    assert ChildSpans(nodes, k)[j] == nodes[nodes[k].children[j]].Span();
  }

  /** The subtree rooted at k is the same in an arena that agrees with this
      one on the nodes of that subtree. */
  lemma {:induction false} SubtreeFrame(cfg: Config, nodes: seq<Node>, a: seq<BvhPrimitive>, k: nat, d: nat, D: nat,
                                        nodes': seq<Node>)
    requires TreeOK(cfg, nodes, a, k, d, D)
    requires forall y :: y in Subtree(nodes, k) ==> y < |nodes'| && nodes'[y] == nodes[y]
    ensures Subtree(nodes', k) == Subtree(nodes, k)
    decreases |nodes| - k, 1
  {
    assert k in Subtree(nodes, k);
    BelowFrame(cfg, nodes, a, k, d, D, nodes', 0);
  }

  lemma {:induction false} BelowFrame(cfg: Config, nodes: seq<Node>, a: seq<BvhPrimitive>, k: nat, d: nat, D: nat,
                                      nodes': seq<Node>, j: nat)
    requires TreeOK(cfg, nodes, a, k, d, D) && k < |nodes'| && nodes'[k] == nodes[k]
    requires forall y :: y in Below(nodes, k, j) ==> y < |nodes'| && nodes'[y] == nodes[y]
    ensures Below(nodes', k, j) == Below(nodes, k, j)
    decreases |nodes| - k, 0, |nodes[k].children| - j
  {
    var n := nodes[k];
    if j < n.childCnt {
      var c := n.children[j];
      assert Below(nodes, k, j) == Subtree(nodes, c) + Below(nodes, k, j + 1);
      assert c in Subtree(nodes, c);
      SubtreeFrame(cfg, nodes, a, c, d + 1, D, nodes');
      BelowFrame(cfg, nodes, a, k, d, D, nodes', j + 1);
    }
  }

  /** Well-formedness of a subtree depends only on its own nodes and on its
      own range of the primitive array, and survives a larger depth bound. */
  lemma {:induction false} TreeOKFrame(cfg: Config, nodes: seq<Node>, a: seq<BvhPrimitive>, k: nat, d: nat, D: nat,
                                       nodes': seq<Node>, a': seq<BvhPrimitive>, D': nat)
    requires TreeOK(cfg, nodes, a, k, d, D) && D <= D' && |a'| == |a|
    requires forall i :: nodes[k].priOffset <= i < nodes[k].Span().end && i < |a| ==> a'[i] == a[i]
    requires forall y :: y in Subtree(nodes, k) ==> y < |nodes'| && nodes'[y] == nodes[y]
    ensures TreeOK(cfg, nodes', a', k, d, D')
    decreases |nodes| - k, 1
  {
    assert k in Subtree(nodes, k);
    var n := nodes[k];
    if n.childCnt > 0 {
      forall j | 0 <= j < n.childCnt
        ensures TreeOK(cfg, nodes', a', n.children[j], d + 1, D')
        ensures nodes'[n.children[j]] == nodes[n.children[j]]
        ensures Bounds(n.bbox[j], a', nodes'[n.children[j]].Span())
      {
        ChildFrame(cfg, nodes, a, k, d, D, nodes', a', D', j);
      }
    }
    TreeOKAssemble(cfg, nodes, a, k, d, D, nodes', a', D');
  }

  /** TreeOKFrame for the child in slot j of node k. */
  lemma {:induction false} ChildFrame(cfg: Config, nodes: seq<Node>, a: seq<BvhPrimitive>, k: nat, d: nat, D: nat,
                                      nodes': seq<Node>, a': seq<BvhPrimitive>, D': nat, j: nat)
    requires TreeOK(cfg, nodes, a, k, d, D) && D <= D' && |a'| == |a| && j < nodes[k].childCnt
    requires forall i :: nodes[k].priOffset <= i < nodes[k].Span().end && i < |a| ==> a'[i] == a[i]
    requires forall y :: y in Subtree(nodes, k) ==> y < |nodes'| && nodes'[y] == nodes[y]
    ensures TreeOK(cfg, nodes', a', nodes[k].children[j], d + 1, D')
    ensures nodes'[nodes[k].children[j]] == nodes[nodes[k].children[j]]
    ensures Bounds(nodes[k].bbox[j], a', nodes'[nodes[k].children[j]].Span())
    decreases |nodes| - k, 0
  {
    var c := nodes[k].children[j];
    assert TreeOK(cfg, nodes, a, c, d + 1, D) && k < c;
    SubtreeOfChild(cfg, nodes, a, k, d, D, j);
    ChildSpanInside(cfg, nodes, a, k, d, D, j);
    assert c in Subtree(nodes, c);
    TreeOKFrame(cfg, nodes, a, c, d + 1, D, nodes', a', D');
    BoundsFrame(nodes[k].bbox[j], a, a', nodes[c].Span());
  }

  /** A box that encloses a range of primitives encloses it in any array that
      agrees on that range. */
  lemma BoundsFrame(box: BBox, a: seq<BvhPrimitive>, a': seq<BvhPrimitive>, r: Range)
    requires Bounds(box, a, r) && |a'| == |a|
    requires forall i :: r.start <= i < r.end ==> a'[i] == a[i]
    ensures Bounds(box, a', r)
  {
  }

  /** The node-level conditions of TreeOK carry over to an arena and array
      that agree on node k and whose children are already known to be good. */
  lemma TreeOKAssemble(cfg: Config, nodes: seq<Node>, a: seq<BvhPrimitive>, k: nat, d: nat, D: nat,
                       nodes': seq<Node>, a': seq<BvhPrimitive>, D': nat)
    requires TreeOK(cfg, nodes, a, k, d, D) && D <= D' && |a'| == |a|
    requires k < |nodes'| && nodes'[k] == nodes[k]
    requires nodes[k].childCnt > 0 ==>
      forall j :: 0 <= j < nodes[k].childCnt ==>
        && TreeOK(cfg, nodes', a', nodes[k].children[j], d + 1, D')
        && nodes'[nodes[k].children[j]] == nodes[nodes[k].children[j]]
        && Bounds(nodes[k].bbox[j], a', nodes'[nodes[k].children[j]].Span())
    ensures TreeOK(cfg, nodes', a', k, d, D')
  {
    if nodes[k].childCnt > 0 {
      assert ChildSpans(nodes', k) == ChildSpans(nodes, k);
    }
  }

  /** Every primitive index of a subtree's range lies in the range of one of its leaves. */
  lemma {:induction false} LeafCovers(cfg: Config, nodes: seq<Node>, a: seq<BvhPrimitive>, k: nat, d: nat, D: nat, i: nat)
    returns (x: nat)
    requires TreeOK(cfg, nodes, a, k, d, D) && nodes[k].Span().Contains(i)
    ensures LeafOf(nodes, k, x) && nodes[x].Span().Contains(i)
    decreases |nodes| - k
  {
    if nodes[k].childCnt == 0 {
      x := k;
    } else {
      var rs := ChildSpans(nodes, k);
      assert CoveredAt(rs, i);
      var j :| 0 <= j < |rs| && rs[j].Contains(i);
      SubtreeOfChild(cfg, nodes, a, k, d, D, j);
      x := LeafCovers(cfg, nodes, a, nodes[k].children[j], d + 1, D, i);
    }
  }

  /** No primitive index lies in the ranges of two different leaves of a subtree. */
  lemma {:induction false} LeafUnique(cfg: Config, nodes: seq<Node>, a: seq<BvhPrimitive>, k: nat, d: nat, D: nat,
                                      x: nat, y: nat, i: nat)
    requires TreeOK(cfg, nodes, a, k, d, D)
    requires LeafOf(nodes, k, x) && LeafOf(nodes, k, y)
    requires nodes[x].Span().Contains(i) && nodes[y].Span().Contains(i)
    ensures x == y
    decreases |nodes| - k
  {
    if nodes[k].childCnt > 0 {
      var n := nodes[k];
      var jx := SubtreeMember(nodes, k, x);
      var jy := SubtreeMember(nodes, k, y);
      var cx, cy := n.children[jx], n.children[jy];
      var _ := SubtreeNode(cfg, nodes, a, cx, d + 1, D, x);
      var _ := SubtreeNode(cfg, nodes, a, cy, d + 1, D, y);
      var rs := ChildSpans(nodes, k);
      assert rs[jx] == nodes[cx].Span() && rs[jy] == nodes[cy].Span();
      TilesUnique(rs, n.priOffset, n.Span().end, jx, jy, i);
      LeafUnique(cfg, nodes, a, cx, d + 1, D, x, y, i);
    } else {
      assert Below(nodes, k, 0) == {};
    }
  }
}
