/** The wide BVH (Fbvh): a top-down SAH build over an array of primitive
    wrappers, and the scalar ray queries over the resulting tree. */
module FastBvh {
  import opened Wrappers
  import opened Geometry
  import opened Ranges
  import opened BvhTree
  import opened Partition
  import opened Traversal
  import opened Intersections
  import opened Sss
  import opened MultiHit

  /** What pickBestSplit reports for a range: its SAH cost and the chosen axis
      and position of the split plane. */
  datatype Split = Split(sah: real, axis: Axis, pos: real)

  /** pickBestSplit, as a function of the primitive array, the node's box and
      the range [start, end). Its SAH evaluation is not part of this model. */
  type SplitPicker = (seq<BvhPrimitive>, BBox, nat, nat) -> Split

  function MaxNat(a: nat, b: nat): nat { if a < b then b else a }

  /** The wrappers of a scene's primitives, in scene order. */
  function Wrapped(scene: seq<Primitive>): (w: seq<BvhPrimitive>)
    ensures |w| == |scene|
  {
    seq(|scene|, i requires 0 <= i < |scene| => Wrap(scene[i]))
  }

  /** The union of the boxes of a[lo..hi], folded from the left onto the empty box. */
  function UnionOf(a: seq<BvhPrimitive>, lo: nat, hi: nat): BBox
    requires lo <= hi <= |a|
    decreases hi - lo
  {
    if lo == hi then EmptyBox else Union(UnionOf(a, lo, hi - 1), a[hi - 1].box)
  }

  /** The fold encloses every box of the range ... */
  lemma {:induction false} UnionOfBounds(a: seq<BvhPrimitive>, lo: nat, hi: nat)
    requires lo <= hi <= |a|
    ensures Bounds(UnionOf(a, lo, hi), a, Range(lo, hi))
    decreases hi - lo
  {
    if lo < hi {
      UnionOfBounds(a, lo, hi - 1);
      var u := UnionOf(a, lo, hi - 1);
      UnionIsLeastUpperBound(u, a[hi - 1].box, u);
      forall i | lo <= i < hi ensures Contains(UnionOf(a, lo, hi), a[i].box) {
        if i < hi - 1 {
          ContainsTransitive(UnionOf(a, lo, hi), u, a[i].box);
        }
      }
    }
  }

  /** ... and is the least box that encloses them together with the empty box. */
  lemma {:induction false} UnionOfLeast(a: seq<BvhPrimitive>, lo: nat, hi: nat, c: BBox)
    requires lo <= hi <= |a|
    requires Contains(c, EmptyBox) && Bounds(c, a, Range(lo, hi))
    ensures Contains(c, UnionOf(a, lo, hi))
    decreases hi - lo
  {
    if lo < hi {
      UnionOfLeast(a, lo, hi - 1, c);
      UnionIsLeastUpperBound(UnionOf(a, lo, hi - 1), a[hi - 1].box, c);
    }
  }

  /** Reordering a range keeps every box that bounds it. */
  lemma BoundsPermuted(box: BBox, a: seq<BvhPrimitive>, a': seq<BvhPrimitive>, r: Range)
    requires Bounds(box, a, r) && |a'| == |a| && r.start <= r.end
    requires multiset(a'[r.start..r.end]) == multiset(a[r.start..r.end])
    ensures Bounds(box, a', r)
  {
    forall i | r.start <= i < r.end ensures Contains(box, a'[i].box) {
      assert a'[i] == a'[r.start..r.end][i - r.start];
      assert a'[i] in multiset(a[r.start..r.end]);
      var t :| 0 <= t < r.end - r.start && a[r.start..r.end][t] == a'[i];
      assert a[r.start + t] == a'[i];
    }
  }

  /** calcBoundingBox: the union of the boxes of a node's primitives, or the
      empty box when there is no node. */
  method CalcBoundingBox(node: Option<Node>, primitives: array<BvhPrimitive>) returns (b: BBox)
    requires node.Some? ==> node.value.Span().end <= primitives.Length
    ensures node.None? ==> b == EmptyBox
    ensures node.Some? ==> b == UnionOf(primitives[..], node.value.priOffset, node.value.Span().end)
  {
    b := EmptyBox;
    if node.None? {
      return;
    }
    var n := node.value;
    var i := n.priOffset;
    while i < n.priOffset + n.priCnt
      invariant n.priOffset <= i <= n.priOffset + n.priCnt
      invariant b == UnionOf(primitives[..], n.priOffset, i)
      decreases n.priOffset + n.priCnt - i
    {
      b := Union(b, primitives[i].box);
      i := i + 1;
    }
  }

  /** The first j children of node k (arena indices n0 .. n0 + j - 1) are
      well-formed subtrees at depth dc over the ranges rs, built from nodes
      at index top or above, and slots 0 .. j - 1 of node k hold boxes that
      enclose those ranges. */
  ghost predicate ChildrenBuilt(cfg: Config, nodes: seq<Node>, a: seq<BvhPrimitive>, D: nat,
                                k: nat, n0: nat, rs: seq<Range>, j: nat, dc: nat, top: nat)
    requires k < |nodes| && j <= |rs| && j <= |nodes[k].bbox| && n0 + j <= |nodes|
  {
    && (forall c :: n0 <= c < n0 + j ==> TreeOK(cfg, nodes, a, c, dc, D))
    && (forall c :: n0 <= c < n0 + j ==> nodes[c].Span() == rs[c - n0])
    && (forall c, y :: n0 <= c < n0 + j && y in Subtree(nodes, c) ==> y == c || top <= y)
    && (forall u :: 0 <= u < j ==> Bounds(nodes[k].bbox[u], a, rs[u]))
  }

  /** One step of the child loop of splitNode: child j of node k (arena index
      n0 + j) has had its box stored in slot j and has been split; the
      children before it stay well formed, and child j now is too. */
  lemma ChildStep(cfg: Config, k: nat, dc: nat, n0: nat, rs: seq<Range>, j: nat, cj: nat,
                  nodes: seq<Node>, a: seq<BvhPrimitive>, D: nat, box: BBox,
                  nodes': seq<Node>, a': seq<BvhPrimitive>, D': nat)
    requires k < n0 && j < |rs| && cj == n0 + j && n0 + |rs| <= |nodes| && |a'| == |a|
    requires Tiles(rs, nodes[k].priOffset, nodes[k].Span().end) && |nodes[k].bbox| > j
    requires ChildrenBuilt(cfg, nodes, a, D, k, n0, rs, j, dc, n0 + |rs|)
    requires Bounds(box, a, rs[j])
    // what splitNode(child j) guarantees, from the arena with the box stored
    requires var mid := nodes[k := nodes[k].(bbox := nodes[k].bbox[j := box])];
      && |nodes'| >= |mid|
      && (forall y :: 0 <= y < |mid| && y != cj ==> nodes'[y] == mid[y])
      && TreeOK(cfg, nodes', a', cj, dc, D')
      && (forall y :: y in Subtree(nodes', cj) ==> y == cj || |mid| <= y)
      && nodes'[cj].Span() == rs[j]
    requires rs[j].start <= rs[j].end <= |a|
    requires multiset(a'[rs[j].start..rs[j].end]) == multiset(a[rs[j].start..rs[j].end])
    requires forall i :: 0 <= i < |a| && !rs[j].Contains(i) ==> a'[i] == a[i]
    requires D <= D'
    ensures k < |nodes'| && j + 1 <= |nodes'[k].bbox|
    ensures ChildrenBuilt(cfg, nodes', a', D', k, n0, rs, j + 1, dc, n0 + |rs|)
  {
    forall c | n0 <= c < cj
      ensures TreeOK(cfg, nodes', a', c, dc, D')
      ensures Subtree(nodes', c) == Subtree(nodes, c)
      ensures Bounds(nodes'[k].bbox[c - n0], a', rs[c - n0])
    {
      assert Disjoint(rs[c - n0], rs[j]);
      TreeOKFrame(cfg, nodes, a, c, dc, D, nodes', a', D');
      SubtreeFrame(cfg, nodes, a, c, dc, D, nodes');
    }
    BoundsPermuted(box, a, a', rs[j]);
  }

  /** After the child loop of splitNode node k roots a well-formed subtree. */
  lemma ChildrenDone(cfg: Config, k: nat, d: nat, dc: nat, n0: nat, rs: seq<Range>,
                     nodes: seq<Node>, a: seq<BvhPrimitive>, D: nat)
    requires 1 <= d && dc == d + 1 && k < n0 && n0 + |rs| <= |nodes|
    requires var n := nodes[k];
      && n.childCnt == |rs| && 2 <= |rs| <= cfg.width
      && |n.children| == cfg.width && |n.bbox| == cfg.width
      && n.Span().end <= |a|
      && !(n.priCnt <= cfg.maxPriInLeaf || d == cfg.maxNodeDepth)
      && (forall j :: 0 <= j < |rs| ==> n.children[j] == n0 + j)
      && Tiles(rs, n.priOffset, n.Span().end)
      && (forall u :: 0 <= u < |rs| ==> Bounds(n.bbox[u], a, rs[u]))
    requires ChildrenBuilt(cfg, nodes, a, D, k, n0, rs, |rs|, dc, n0 + |rs|)
    ensures TreeOK(cfg, nodes, a, k, d, D)
    ensures forall y :: y in Subtree(nodes, k) ==> y == k || n0 <= y
  {
    var n := nodes[k];
    assert TreeOK(cfg, nodes, a, n0, dc, D);
    forall j | 0 <= j < |rs| ensures nodes[n.children[j]].Span() == rs[j] {
      assert nodes[n0 + j].Span() == rs[(n0 + j) - n0];
    }
    assert ChildSpans(nodes, k) == rs;
    forall y | y in Subtree(nodes, k) && y != k ensures n0 <= y {
      var j := SubtreeMember(nodes, k, y);
    }
  }

  /** The front range of the queue lies inside the tiled range. */
  lemma QueueFrontInside(toSplit: seq<Range>, done: seq<Range>, lo: nat, hi: nat)
    requires |toSplit| > 0 && Tiling(multiset(toSplit + done), lo, hi)
    ensures lo <= toSplit[0].start < toSplit[0].end <= hi
  {
    assert toSplit[0] in multiset(toSplit + done);
  }

  /** Moving the front range of to_split to the back of done_splitting keeps the tiling. */
  lemma QueueMoveFront(toSplit: seq<Range>, done: seq<Range>, lo: nat, hi: nat)
    requires |toSplit| > 0 && Tiling(multiset(toSplit + done), lo, hi)
    ensures Tiling(multiset(toSplit[1..] + (done + [toSplit[0]])), lo, hi)
  {
    assert toSplit + done == [toSplit[0]] + toSplit[1..] + done;
    assert multiset(toSplit[1..] + (done + [toSplit[0]])) == multiset(toSplit + done);
  }

  /** Replacing the front range of to_split by its halves at mid, queued at the
      back, keeps the tiling. */
  lemma QueueSplitFront(toSplit: seq<Range>, done: seq<Range>, lo: nat, hi: nat, mid: nat)
    requires |toSplit| > 0 && Tiling(multiset(toSplit + done), lo, hi)
    requires toSplit[0].start < mid < toSplit[0].end
    ensures Tiling(multiset(toSplit[1..] + [Range(toSplit[0].start, mid), Range(mid, toSplit[0].end)] + done), lo, hi)
  {
    var cur := toSplit[0];
    var all := multiset(toSplit + done);
    assert cur in all;
    TilingSplit(all, lo, hi, cur, mid);
    assert toSplit + done == [cur] + toSplit[1..] + done;
    assert multiset(toSplit[1..] + [Range(cur.start, mid), Range(mid, cur.end)] + done)
        == all - multiset{cur} + multiset{Range(cur.start, mid), Range(mid, cur.end)};
  }

  /** The facts splitNode needs about its final queue: it tiles the node's
      range by sequence index, and every part is smaller than the node. */
  lemma TilingParts(rs: seq<Range>, lo: nat, hi: nat)
    requires |rs| >= 2 && Tiling(multiset(rs), lo, hi)
    ensures Tiles(rs, lo, hi)
    ensures forall j :: 0 <= j < |rs| ==> rs[j].Size() < hi - lo
  {
    TilingTiles(rs, lo, hi);
    forall j | 0 <= j < |rs| ensures rs[j].Size() < hi - lo {
      assert rs[j] in multiset(rs);
      TilingPartsSmaller(multiset(rs), lo, hi, rs[j]);
    }
  }

  /** After populate_child has run on to_split and then on done_splitting,
      child slot j of node k holds arena index n0 + j, and that node is a
      fresh node over the j-th range of to_split + done_splitting. */
  lemma Populated(cfg: Config, k: nat, toSplit: seq<Range>, done: seq<Range>,
                  nodes0: seq<Node>, nodes1: seq<Node>, nodes2: seq<Node>)
    requires k < |nodes0| && nodes0[k].childCnt == 0
    requires |nodes1| == |nodes0| + |toSplit| && |nodes2| == |nodes1| + |done|
    requires k < |nodes1| && k < |nodes2|
    requires forall t :: 0 <= t < |toSplit| ==> toSplit[t].start <= toSplit[t].end
    requires forall t :: 0 <= t < |done| ==> done[t].start <= done[t].end
    requires forall t :: 0 <= t < |toSplit| ==> nodes1[|nodes0| + t] == NewNode(cfg, toSplit[t].start, toSplit[t].Size())
    requires forall y :: 0 <= y < |nodes1| && y != k ==> nodes2[y] == nodes1[y]
    requires forall t :: 0 <= t < |done| ==> nodes2[|nodes1| + t] == NewNode(cfg, done[t].start, done[t].Size())
    requires nodes1[k].childCnt == |toSplit| && |nodes1[k].children| == |nodes0[k].children|
    requires |nodes2[k].children| == |nodes1[k].children|
    requires forall j :: 0 <= j < |nodes1[k].children| ==>
      nodes1[k].children[j] == if 0 <= j < nodes1[k].childCnt then |nodes0| + j else nodes0[k].children[j]
    requires forall j :: 0 <= j < |nodes2[k].children| ==>
      nodes2[k].children[j] == if nodes1[k].childCnt <= j < nodes2[k].childCnt
                               then |nodes1| + j - nodes1[k].childCnt else nodes1[k].children[j]
    requires nodes2[k].childCnt == |toSplit| + |done| <= |nodes2[k].children|
    ensures forall j :: 0 <= j < |toSplit + done| ==> nodes2[k].children[j] == |nodes0| + j
    ensures forall j :: 0 <= j < |toSplit + done| ==>
      nodes2[|nodes0| + j] == NewNode(cfg, (toSplit + done)[j].start, (toSplit + done)[j].Size())
  {
    var rs, n0 := toSplit + done, |nodes0|;
    forall j | 0 <= j < |rs|
      ensures nodes2[k].children[j] == n0 + j
      ensures nodes2[n0 + j] == NewNode(cfg, rs[j].start, rs[j].Size())
    {
      if j < |toSplit| {
        assert nodes1[k].children[j] == n0 + j;
        assert nodes2[n0 + j] == nodes1[n0 + j];
      } else {
        assert done[j - |toSplit|] == rs[j];
        assert nodes2[|nodes1| + (j - |toSplit|)] == NewNode(cfg, done[j - |toSplit|].start, done[j - |toSplit|].Size());
      }
    }
  }

  /** A node without children over a range of the array is a well-formed
      subtree of its own. */
  lemma LeafOK(cfg: Config, nodes: seq<Node>, a: seq<BvhPrimitive>, k: nat, d: nat, D: nat)
    requires k < |nodes| && nodes[k].childCnt == 0 && nodes[k].Span().end <= |a|
    requires |nodes[k].children| == cfg.width && |nodes[k].bbox| == cfg.width && 1 <= d <= D
    ensures TreeOK(cfg, nodes, a, k, d, D) && Subtree(nodes, k) == {k}
  {
    assert Below(nodes, k, 0) == {};
  }

  /** A reordering of a scene's wrappers still caches each primitive's own box. */
  lemma PermutedWrappersOwnBoxes(a: seq<BvhPrimitive>, scene: seq<Primitive>)
    requires multiset(a) == multiset(Wrapped(scene))
    ensures WrappersOwnBoxes(a)
  {
    forall i | 0 <= i < |a| ensures a[i].box == a[i].primitive.bbox {
      assert a[i] in multiset(Wrapped(scene));
      var j :| 0 <= j < |scene| && Wrapped(scene)[j] == a[i];
    }
  }

  /** The state of the child loop of a closest-hit or multi-hit walk after
      the rounds that pushed the slots in order at stack positions si and
      up: the marks f hold -1 for the pushed slots and the entry distance for
      the others, and the pushed slots are the farthest ones, farthest first. */
  ghost predicate SelectionOf(ray: Ray, n: Node, f: seq<real>, stk: seq<Entry>, si: nat, order: seq<nat>)
  {
    && n.childCnt <= |f| && n.childCnt <= |n.children| && n.childCnt <= |n.bbox|
    && si + |order| <= |stk|
    && (forall t :: 0 <= t < |order| ==> order[t] < n.childCnt && -1.0 < ray.entry(n.bbox[order[t]]))
    && (forall t1, t2 :: 0 <= t1 < t2 < |order| ==> order[t1] != order[t2])
    && (forall j :: 0 <= j < n.childCnt ==> f[j] == if j in order then -1.0 else ray.entry(n.bbox[j]))
    && (forall t :: 0 <= t < |order| ==> stk[si + t] == (n.children[order[t]], ray.entry(n.bbox[order[t]])))
    && (forall t1, t2 :: 0 <= t1 < t2 < |order| ==> ray.entry(n.bbox[order[t1]]) >= ray.entry(n.bbox[order[t2]]))
    && (forall t, j :: 0 <= t < |order| && 0 <= j < n.childCnt && j !in order ==>
          ray.entry(n.bbox[j]) <= ray.entry(n.bbox[order[t]]))
  }

  /** When the rounds end, having pushed every slot or found the rest entered
      at -1 or below, the stack holds what PushedNearestFirst describes. */
  lemma SelectionPushed(nodes: seq<Node>, k: nat, ray: Ray, f: seq<real>, stk: seq<Entry>, si: nat, order: seq<nat>)
    requires k < |nodes| && SelectionOf(ray, nodes[k], f, stk, si, order)
    requires |order| == nodes[k].childCnt
             || forall j :: 0 <= j < nodes[k].childCnt && j !in order ==> ray.entry(nodes[k].bbox[j]) <= -1.0
    ensures si + |order| <= |stk|
    ensures PushedNearestFirst(nodes, k, ray, stk[..si + |order|], si, order)
    ensures forall t1, t2 :: 0 <= t1 < t2 < |order| ==>
      ray.entry(nodes[k].bbox[order[t1]]) >= ray.entry(nodes[k].bbox[order[t2]])
  {
    var n := nodes[k];
    var cnt := n.childCnt;
    var st := stk[..si + |order|];
    forall j | 0 <= j < cnt && -1.0 < ray.entry(n.bbox[j]) ensures j in order {
      if |order| == cnt {
        SubsetFull(order, cnt, j);
      }
    }
    forall t | 0 <= t < |order|
      ensures st[si + t] == (n.children[order[t]], ray.entry(n.bbox[order[t]]))
    {
      assert st[si + t] == stk[si + t];
    }
  }

  /** A round that finds every mark at -1 or below: no slot left out is entered
      above -1. */
  lemma SelectionStop(ray: Ray, n: Node, f: seq<real>, stk: seq<Entry>, si: nat, order: seq<nat>)
    requires SelectionOf(ray, n, f, stk, si, order)
    requires forall j :: 0 <= j < n.childCnt ==> f[j] <= -1.0
    ensures forall j :: 0 <= j < n.childCnt && j !in order ==> ray.entry(n.bbox[j]) <= -1.0
  {
  }

  /** A round that picks the slot c with the largest mark, above -1: marking c
      and pushing it keeps the selection state. */
  lemma SelectionStep(ray: Ray, n: Node, f: seq<real>, stk: seq<Entry>, si: nat, order: seq<nat>,
                      c: nat, maxDist: real)
    requires SelectionOf(ray, n, f, stk, si, order)
    requires c < n.childCnt && maxDist == f[c] && -1.0 < maxDist && si + |order| < |stk|
    requires forall j :: 0 <= j < n.childCnt ==> f[j] <= maxDist
    ensures c !in order
    ensures SelectionOf(ray, n, f[c := -1.0], stk[si + |order| := (n.children[c], maxDist)], si, order + [c])
  {
    assert c !in order;
    assert maxDist == ray.entry(n.bbox[c]);
    SelectionMarks(ray, n, f, order, c);
    SelectionStack(ray, n, stk, si, order, c, maxDist);
    SelectionFarthest(ray, n, f, order, c, maxDist);
  }

  lemma SelectionMarks(ray: Ray, n: Node, f: seq<real>, order: seq<nat>, c: nat)
    requires n.childCnt <= |f| && n.childCnt <= |n.bbox| && c < n.childCnt
    requires forall j :: 0 <= j < n.childCnt ==> f[j] == if j in order then -1.0 else ray.entry(n.bbox[j])
    ensures forall j :: 0 <= j < n.childCnt ==>
      f[c := -1.0][j] == if j in order + [c] then -1.0 else ray.entry(n.bbox[j])
  {
    forall j | 0 <= j < n.childCnt
      ensures f[c := -1.0][j] == if j in order + [c] then -1.0 else ray.entry(n.bbox[j])
    {
      assert j in order + [c] <==> j in order || j == c;
    }
  }

  lemma SelectionStack(ray: Ray, n: Node, stk: seq<Entry>, si: nat, order: seq<nat>, c: nat, maxDist: real)
    requires si + |order| < |stk| && c < |n.children| && c < |n.bbox| && maxDist == ray.entry(n.bbox[c])
    requires forall t :: 0 <= t < |order| ==> order[t] < |n.children| && order[t] < |n.bbox|
    requires forall t :: 0 <= t < |order| ==> stk[si + t] == (n.children[order[t]], ray.entry(n.bbox[order[t]]))
    ensures forall t :: 0 <= t < |order + [c]| ==>
      stk[si + |order| := (n.children[c], maxDist)][si + t] == (n.children[(order + [c])[t]], ray.entry(n.bbox[(order + [c])[t]]))
  {
    var order' := order + [c];
    var stk' := stk[si + |order| := (n.children[c], maxDist)];
    forall t | 0 <= t < |order'|
      ensures stk'[si + t] == (n.children[order'[t]], ray.entry(n.bbox[order'[t]]))
    {
      if t < |order| {
        assert order'[t] == order[t];
      }
    }
  }

  lemma SelectionFarthest(ray: Ray, n: Node, f: seq<real>, order: seq<nat>, c: nat, maxDist: real)
    requires n.childCnt <= |f| && n.childCnt <= |n.bbox| && c < n.childCnt && c !in order
    requires maxDist == ray.entry(n.bbox[c])
    requires forall t :: 0 <= t < |order| ==> order[t] < n.childCnt
    requires forall j :: 0 <= j < n.childCnt ==> f[j] <= maxDist
    requires forall j :: 0 <= j < n.childCnt ==> f[j] == if j in order then -1.0 else ray.entry(n.bbox[j])
    requires forall t, j :: 0 <= t < |order| && 0 <= j < n.childCnt && j !in order ==>
               ray.entry(n.bbox[j]) <= ray.entry(n.bbox[order[t]])
    ensures forall t1, t2 :: 0 <= t1 < t2 < |order + [c]| && t2 == |order| ==>
              ray.entry(n.bbox[(order + [c])[t1]]) >= ray.entry(n.bbox[(order + [c])[t2]])
    ensures forall t, j :: 0 <= t < |order + [c]| && 0 <= j < n.childCnt && j !in order + [c] ==>
              ray.entry(n.bbox[j]) <= ray.entry(n.bbox[(order + [c])[t]])
  {
    var order' := order + [c];
    forall t1, t2 | 0 <= t1 < t2 < |order'| && t2 == |order|
      ensures ray.entry(n.bbox[order'[t1]]) >= ray.entry(n.bbox[order'[t2]])
    {
      assert order'[t1] == order[t1];
    }
    forall t, j | 0 <= t < |order'| && 0 <= j < n.childCnt && j !in order'
      ensures ray.entry(n.bbox[j]) <= ray.entry(n.bbox[order'[t]])
    {
      assert f[j] == ray.entry(n.bbox[j]);
      if t < |order| {
        assert order'[t] == order[t];
      }
    }
  }

  /** The selection loop of the closest-hit and multi-hit traversals: the
      first slot below cnt holding the largest value above -1, with that
      value, or -1 when no value is above -1. */
  method SelectFarthest(fmin: array<real>, cnt: nat) returns (k: int, maxDist: real)
    requires cnt <= fmin.Length
    ensures -1 <= k < cnt
    ensures k == -1 <==> (forall j :: 0 <= j < cnt ==> fmin[j] <= -1.0)
    ensures k == -1 ==> maxDist == -1.0
    ensures 0 <= k ==> maxDist == fmin[k] && -1.0 < maxDist
    ensures forall j :: 0 <= j < cnt ==> fmin[j] <= maxDist
    ensures forall j :: 0 <= j < k ==> fmin[j] < maxDist
  {
    k, maxDist := -1, -1.0;
    for j := 0 to cnt
      invariant -1 <= k < j || (k == -1 && j == 0)
      invariant k == -1 ==> maxDist == -1.0
      invariant 0 <= k ==> maxDist == fmin[k] && -1.0 < maxDist
      invariant forall j' :: 0 <= j' < j ==> fmin[j'] <= maxDist
      invariant forall j' :: 0 <= j' < k ==> fmin[j'] < maxDist
    {
      if fmin[j] > maxDist {
        maxDist := fmin[j];
        k := j;
      }
    }
  }

  /** The acceleration structure. The tree lives in the arena `nodes` with the
      root at index 0; `bvhpri` is the primitive wrapper array the leaves
      index into; `depth` is m_depth, the largest leaf depth seen by the build. */
  class Fbvh {
    const cfg: Config
    var primitives: seq<Primitive>
    var bvhpri: array<BvhPrimitive>
    var nodes: seq<Node>
    var bbox: BBox
    var depth: nat

    /** A built structure: the root covers the whole primitive array, the tree
        is well formed with every leaf at depth at most `depth`, and the scene
        box encloses every primitive. */
    ghost predicate Valid()
      reads this, bvhpri
    {
      && cfg.width >= 2
      && |nodes| >= 1
      && bvhpri.Length == |primitives|
      && nodes[0].Span() == Range(0, bvhpri.Length)
      && TreeOK(cfg, nodes, bvhpri[..], 0, 1, depth)
      && Bounds(bbox, bvhpri[..], Range(0, bvhpri.Length))
      && multiset(bvhpri[..]) == multiset(Wrapped(primitives))
    }

    /** An empty structure with the given build parameters. */
    constructor (cfg: Config)
      ensures this.cfg == cfg && primitives == [] && nodes == [] && depth == 0
    {
      this.cfg := cfg;
      primitives := [];
      bvhpri := new BvhPrimitive[0];
      nodes := [];
      bbox := EmptyBox;
      depth := 0;
    }

    /** Build: wraps the scene's primitives, computes the scene box and splits
        the root, which covers all primitives. */
    method Build(scene: seq<Primitive>, pickBestSplit: SplitPicker)
      requires cfg.width >= 2
      modifies this
      ensures Valid() && fresh(bvhpri)
      ensures primitives == scene
      ensures multiset(bvhpri[..]) == multiset(Wrapped(scene))
      ensures bbox == UnionOf(Wrapped(scene), 0, |scene|)
      ensures depth >= old(depth)
      ensures 1 <= cfg.maxNodeDepth ==> depth <= MaxNat(old(depth), cfg.maxNodeDepth)
    {
      primitives := scene;
      var wrapped := new BvhPrimitive[|scene|];
      bbox := UnionOf(Wrapped(scene), 0, |scene|);
      for i := 0 to |scene|
        modifies wrapped
        invariant forall t :: 0 <= t < i ==> wrapped[t] == Wrap(scene[t])
      {
        wrapped[i] := Wrap(scene[i]);
      }
      bvhpri := wrapped;
      assert bvhpri[..] == Wrapped(scene);
      UnionOfBounds(Wrapped(scene), 0, |scene|);
      nodes := [NewNode(cfg, 0, |scene|)];
      ghost var a0 := bvhpri[..];
      SplitNode(0, bbox, 1, pickBestSplit);
      assert bvhpri[..] == bvhpri[0..|scene|] && a0 == a0[0..|scene|];
      BoundsPermuted(bbox, a0, bvhpri[..], Range(0, |scene|));
    }

    /** splitNode: makes node k a leaf, or splits its range into between 2 and
        width child ranges and splits each child in turn. Afterwards node k
        roots a well-formed subtree over a reordering of its own range, built
        from node k and newly appended nodes only. */
    method SplitNode(k: nat, nodeBox: BBox, d: nat, pickBestSplit: SplitPicker)
      requires cfg.width >= 2 && 1 <= d
      requires k < |nodes| && nodes[k].childCnt == 0
      requires |nodes[k].children| == cfg.width && |nodes[k].bbox| == cfg.width
      requires nodes[k].Span().end <= bvhpri.Length
      modifies this`nodes, this`depth, bvhpri
      ensures |nodes| >= old(|nodes|)
      ensures nodes[k].Span() == old(nodes[k].Span())
      ensures forall y :: 0 <= y < old(|nodes|) && y != k ==> nodes[y] == old(nodes[y])
      ensures TreeOK(cfg, nodes, bvhpri[..], k, d, depth)
      ensures forall y :: y in Subtree(nodes, k) ==> y == k || old(|nodes|) <= y
      ensures old(nodes[k].priOffset) <= old(nodes[k].Span().end)
      ensures multiset(bvhpri[old(nodes[k].priOffset)..old(nodes[k].Span().end)])
           == multiset(old(bvhpri[nodes[k].priOffset..nodes[k].Span().end]))
      ensures forall i :: 0 <= i < bvhpri.Length && !old(nodes[k].Span()).Contains(i) ==> bvhpri[i] == old(bvhpri[i])
      ensures depth >= old(depth)
      ensures d <= cfg.maxNodeDepth ==> depth <= MaxNat(old(depth), cfg.maxNodeDepth)
      decreases nodes[k].priCnt, 5
    {
      var start := nodes[k].priOffset;
      var end := start + nodes[k].priCnt;
      if nodes[k].priCnt <= cfg.maxPriInLeaf || d == cfg.maxNodeDepth {
        MakeLeaf(k, start, end, d);
        LeafOK(cfg, nodes, bvhpri[..], k, d, depth);
        return;
      }
      TrySplit(k, nodeBox, d, pickBestSplit);
    }

    /** The part of splitNode past the leaf test: the queue loop, then a leaf
        if it produced a single range, else an inner node. */
    method TrySplit(k: nat, nodeBox: BBox, d: nat, pickBestSplit: SplitPicker)
      requires cfg.width >= 2 && 1 <= d
      requires k < |nodes| && nodes[k].childCnt == 0
      requires |nodes[k].children| == cfg.width && |nodes[k].bbox| == cfg.width
      requires nodes[k].Span().end <= bvhpri.Length
      requires !(nodes[k].priCnt <= cfg.maxPriInLeaf || d == cfg.maxNodeDepth)
      modifies this`nodes, this`depth, bvhpri
      ensures |nodes| >= old(|nodes|)
      ensures nodes[k].Span() == old(nodes[k].Span())
      ensures forall y :: 0 <= y < old(|nodes|) && y != k ==> nodes[y] == old(nodes[y])
      ensures TreeOK(cfg, nodes, bvhpri[..], k, d, depth)
      ensures forall y :: y in Subtree(nodes, k) ==> y == k || old(|nodes|) <= y
      ensures multiset(bvhpri[old(nodes[k].priOffset)..old(nodes[k].Span().end)])
           == multiset(old(bvhpri[nodes[k].priOffset..nodes[k].Span().end]))
      ensures forall i :: 0 <= i < bvhpri.Length && !old(nodes[k].Span()).Contains(i) ==> bvhpri[i] == old(bvhpri[i])
      ensures depth >= old(depth)
      ensures d <= cfg.maxNodeDepth ==> depth <= MaxNat(old(depth), cfg.maxNodeDepth)
      decreases nodes[k].priCnt, 4
    {
      var start := nodes[k].priOffset;
      var end := start + nodes[k].priCnt;
      var toSplit, done := SplitRanges(start, end, nodeBox, pickBestSplit);
      FinishSplit(k, d, pickBestSplit, toSplit, done);
    }

    /** The end of splitNode: a leaf when the queue loop left one range,
        otherwise an inner node over the ranges. */
    method FinishSplit(k: nat, d: nat, pickBestSplit: SplitPicker, toSplit: seq<Range>, done: seq<Range>)
      requires cfg.width >= 2 && 1 <= d
      requires k < |nodes| && nodes[k].childCnt == 0
      requires |nodes[k].children| == cfg.width && |nodes[k].bbox| == cfg.width
      requires nodes[k].Span().end <= bvhpri.Length
      requires !(nodes[k].priCnt <= cfg.maxPriInLeaf || d == cfg.maxNodeDepth)
      requires Tiling(multiset(toSplit + done), nodes[k].priOffset, nodes[k].Span().end)
      requires 1 <= |toSplit| + |done| <= cfg.width
      modifies this`nodes, this`depth, bvhpri
      ensures |nodes| >= old(|nodes|)
      ensures nodes[k].Span() == old(nodes[k].Span())
      ensures forall y :: 0 <= y < old(|nodes|) && y != k ==> nodes[y] == old(nodes[y])
      ensures TreeOK(cfg, nodes, bvhpri[..], k, d, depth)
      ensures forall y :: y in Subtree(nodes, k) ==> y == k || old(|nodes|) <= y
      ensures multiset(bvhpri[old(nodes[k].priOffset)..old(nodes[k].Span().end)])
           == multiset(old(bvhpri[nodes[k].priOffset..nodes[k].Span().end]))
      ensures forall i :: 0 <= i < bvhpri.Length && !old(nodes[k].Span()).Contains(i) ==> bvhpri[i] == old(bvhpri[i])
      ensures depth >= old(depth)
      ensures d <= cfg.maxNodeDepth ==> depth <= MaxNat(old(depth), cfg.maxNodeDepth)
      decreases nodes[k].priCnt, 3
    {
      var start := nodes[k].priOffset;
      var end := start + nodes[k].priCnt;
      if |toSplit| + |done| == 1 {
        MakeLeaf(k, start, end, d);
        LeafOK(cfg, nodes, bvhpri[..], k, d, depth);
        return;
      }
      TilingParts(toSplit + done, start, end);
      PopulateAndBuild(k, d, pickBestSplit, toSplit, done);
    }

    /** The inner-node outcome of splitNode: the ranges of to_split and then
        those of done_splitting become the children of node k, which are then
        split in turn. */
    method PopulateAndBuild(k: nat, d: nat, pickBestSplit: SplitPicker, toSplit: seq<Range>, done: seq<Range>)
      requires cfg.width >= 2 && 1 <= d
      requires k < |nodes| && nodes[k].childCnt == 0
      requires |nodes[k].children| == cfg.width && |nodes[k].bbox| == cfg.width
      requires nodes[k].Span().end <= bvhpri.Length
      requires !(nodes[k].priCnt <= cfg.maxPriInLeaf || d == cfg.maxNodeDepth)
      requires Tiles(toSplit + done, nodes[k].priOffset, nodes[k].Span().end)
      requires forall j :: 0 <= j < |toSplit + done| ==> (toSplit + done)[j].Size() < nodes[k].priCnt
      requires 2 <= |toSplit| + |done| <= cfg.width
      modifies this`nodes, this`depth, bvhpri
      ensures |nodes| >= old(|nodes|)
      ensures nodes[k].Span() == old(nodes[k].Span())
      ensures forall y :: 0 <= y < old(|nodes|) && y != k ==> nodes[y] == old(nodes[y])
      ensures TreeOK(cfg, nodes, bvhpri[..], k, d, depth)
      ensures forall y :: y in Subtree(nodes, k) ==> y == k || old(|nodes|) <= y
      ensures multiset(bvhpri[old(nodes[k].priOffset)..old(nodes[k].Span().end)])
           == multiset(old(bvhpri[nodes[k].priOffset..nodes[k].Span().end]))
      ensures forall i :: 0 <= i < bvhpri.Length && !old(nodes[k].Span()).Contains(i) ==> bvhpri[i] == old(bvhpri[i])
      ensures depth >= old(depth)
      ensures d <= cfg.maxNodeDepth ==> depth <= MaxNat(old(depth), cfg.maxNodeDepth)
      decreases nodes[k].priCnt, 2
    {
      ghost var rs := toSplit + done;
      ghost var n0, nodes0 := |nodes|, nodes;
      assert forall t :: 0 <= t < |toSplit| ==> toSplit[t] == rs[t];
      assert forall t :: 0 <= t < |done| ==> done[t] == rs[|toSplit| + t];
      PopulateChildren(k, toSplit);
      ghost var nodes1 := nodes;
      PopulateChildren(k, done);
      Populated(cfg, k, toSplit, done, nodes0, nodes1, nodes);
      BuildChildren(k, d, pickBestSplit, n0, rs);
    }

    /** makeLeaf: node k keeps the range [start, end) and no children; m_depth
        becomes at least the leaf's depth. */
    method MakeLeaf(k: nat, start: nat, end: nat, d: nat)
      requires k < |nodes| && start <= end
      modifies this`nodes, this`depth
      ensures nodes == old(nodes[k := nodes[k].(priCnt := end - start, priOffset := start, childCnt := 0)])
      ensures depth == MaxNat(old(depth), d)
    {
      nodes := nodes[k := nodes[k].(priCnt := end - start, priOffset := start, childCnt := 0)];
      depth := MaxNat(depth, d);
    }

    /** The queue loop of splitNode: repeatedly takes the front range, asks
        for the best split, and either partitions it into two non-empty
        halves queued for further splitting or sets it aside, until no range
        is left to split or width ranges exist. The ranges returned tile
        [start, end); the primitives are reordered within that range only. */
    method SplitRanges(start: nat, end: nat, nodeBox: BBox, pickBestSplit: SplitPicker)
      returns (toSplit: seq<Range>, done: seq<Range>)
      requires start < end <= bvhpri.Length && cfg.width >= 2
      modifies bvhpri
      ensures Tiling(multiset(toSplit + done), start, end)
      ensures 1 <= |toSplit| + |done| <= cfg.width
      ensures multiset(bvhpri[start..end]) == multiset(old(bvhpri[start..end]))
      ensures forall i :: 0 <= i < bvhpri.Length && !(start <= i < end) ==> bvhpri[i] == old(bvhpri[i])
    {
      toSplit, done := [Range(start, end)], [];
      TilingSingle(start, end);
      while |toSplit| > 0 && |toSplit| + |done| < cfg.width
        invariant Tiling(multiset(toSplit + done), start, end)
        invariant 1 <= |toSplit| + |done| <= cfg.width
        invariant multiset(bvhpri[start..end]) == multiset(old(bvhpri[start..end]))
        invariant forall i :: 0 <= i < bvhpri.Length && !(start <= i < end) ==> bvhpri[i] == old(bvhpri[i])
        decreases cfg.width - (|toSplit| + |done|), |toSplit|
      {
        toSplit, done := SplitFront(start, end, nodeBox, pickBestSplit, toSplit, done);
      }
    }

    /** One round of the queue loop: the front range either goes to `done`
        or is replaced by its two non-empty halves at the back of `toSplit`. */
    method SplitFront(start: nat, end: nat, nodeBox: BBox, pickBestSplit: SplitPicker,
                      toSplit: seq<Range>, done: seq<Range>)
      returns (toSplit': seq<Range>, done': seq<Range>)
      requires |toSplit| > 0 && start <= end <= bvhpri.Length
      requires Tiling(multiset(toSplit + done), start, end)
      modifies bvhpri
      ensures Tiling(multiset(toSplit' + done'), start, end)
      ensures || (toSplit' == toSplit[1..] && done' == done + [toSplit[0]])
              || (|toSplit'| == |toSplit| + 1 && done' == done)
      ensures multiset(bvhpri[start..end]) == multiset(old(bvhpri[start..end]))
      ensures forall i :: 0 <= i < bvhpri.Length && !(start <= i < end) ==> bvhpri[i] == old(bvhpri[i])
    {
      var cur := toSplit[0];
      var rest := toSplit[1..];
      var split := pickBestSplit(bvhpri[..], nodeBox, cur.start, cur.end);
      if split.sah >= (cur.end - cur.start) as real {
        toSplit', done' := rest, done + [cur];
        QueueMoveFront(toSplit, done, start, end);
      } else {
        QueueFrontInside(toSplit, done, start, end);
        ghost var before := bvhpri[..];
        var mid := PartitionRange(bvhpri, cur.start, cur.end, split.axis, split.pos);
        MultisetWithin(bvhpri[..], before, start, cur.start, cur.end, end);
        if mid == cur.start || mid == cur.end {
          toSplit', done' := rest, done + [cur];
          QueueMoveFront(toSplit, done, start, end);
        } else {
          toSplit', done' := rest + [Range(cur.start, mid), Range(mid, cur.end)], done;
          QueueSplitFront(toSplit, done, start, end, mid);
        }
      }
    }

    /** populate_child: appends a new node for each range of q, in order, and
        makes it the next child of node k. */
    method PopulateChildren(k: nat, q: seq<Range>)
      requires k < |nodes| && nodes[k].childCnt + |q| <= |nodes[k].children|
      requires forall t :: 0 <= t < |q| ==> q[t].start <= q[t].end
      modifies this`nodes
      ensures |nodes| == old(|nodes|) + |q|
      ensures forall y :: 0 <= y < old(|nodes|) && y != k ==> nodes[y] == old(nodes[y])
      ensures forall t :: 0 <= t < |q| ==> nodes[old(|nodes|) + t] == NewNode(cfg, q[t].start, q[t].Size())
      ensures nodes[k].priOffset == old(nodes[k].priOffset) && nodes[k].priCnt == old(nodes[k].priCnt)
      ensures nodes[k].bbox == old(nodes[k].bbox)
      ensures nodes[k].childCnt == old(nodes[k].childCnt) + |q|
      ensures |nodes[k].children| == old(|nodes[k].children|)
      ensures forall j :: 0 <= j < |nodes[k].children| ==>
        nodes[k].children[j] == if old(nodes[k].childCnt) <= j < nodes[k].childCnt
                                then old(|nodes|) + j - old(nodes[k].childCnt)
                                else old(nodes[k].children[j])
    {
      for t := 0 to |q|
        invariant |nodes| == old(|nodes|) + t
        invariant forall y :: 0 <= y < old(|nodes|) && y != k ==> nodes[y] == old(nodes[y])
        invariant forall u :: 0 <= u < t ==> nodes[old(|nodes|) + u] == NewNode(cfg, q[u].start, q[u].Size())
        invariant nodes[k].priOffset == old(nodes[k].priOffset) && nodes[k].priCnt == old(nodes[k].priCnt)
        invariant nodes[k].bbox == old(nodes[k].bbox)
        invariant nodes[k].childCnt == old(nodes[k].childCnt) + t
        invariant |nodes[k].children| == old(|nodes[k].children|)
        invariant forall j :: 0 <= j < |nodes[k].children| ==>
          nodes[k].children[j] == if old(nodes[k].childCnt) <= j < nodes[k].childCnt
                                  then old(|nodes|) + j - old(nodes[k].childCnt)
                                  else old(nodes[k].children[j])
      {
        var n := nodes[k];
        var child := |nodes|;
        nodes := nodes + [NewNode(cfg, q[t].start, q[t].Size())];
        nodes := nodes[k := n.(children := n.children[n.childCnt := child], childCnt := n.childCnt + 1)];
      }
    }

    /** The loop of splitNode over the new children: computes each child's box
        into the parent's slot and splits the child. */
    method BuildChildren(k: nat, d: nat, pickBestSplit: SplitPicker, ghost n0: nat, ghost rs: seq<Range>)
      requires cfg.width >= 2 && 1 <= d
      requires k < n0 && n0 + |rs| == |nodes|
      requires !(nodes[k].priCnt <= cfg.maxPriInLeaf || d == cfg.maxNodeDepth)
      requires nodes[k].childCnt == |rs| && 2 <= |rs| <= cfg.width
      requires |nodes[k].children| == cfg.width && |nodes[k].bbox| == cfg.width
      requires Tiles(rs, nodes[k].priOffset, nodes[k].Span().end)
      requires forall j :: 0 <= j < |rs| ==> nodes[k].children[j] == n0 + j
      requires forall j :: 0 <= j < |rs| ==> nodes[n0 + j] == NewNode(cfg, rs[j].start, rs[j].Size())
      requires forall j :: 0 <= j < |rs| ==> rs[j].Size() < nodes[k].priCnt
      requires nodes[k].Span().end <= bvhpri.Length
      modifies this`nodes, this`depth, bvhpri
      ensures |nodes| >= old(|nodes|)
      ensures nodes[k].Span() == old(nodes[k].Span())
      ensures forall y :: 0 <= y < n0 && y != k ==> nodes[y] == old(nodes[y])
      ensures TreeOK(cfg, nodes, bvhpri[..], k, d, depth)
      ensures forall y :: y in Subtree(nodes, k) ==> y == k || n0 <= y
      ensures multiset(bvhpri[old(nodes[k].priOffset)..old(nodes[k].Span().end)])
           == multiset(old(bvhpri[nodes[k].priOffset..nodes[k].Span().end]))
      ensures forall i :: 0 <= i < bvhpri.Length && !old(nodes[k].Span()).Contains(i) ==> bvhpri[i] == old(bvhpri[i])
      ensures depth >= old(depth)
      ensures d <= cfg.maxNodeDepth ==> depth <= MaxNat(old(depth), cfg.maxNodeDepth)
      decreases nodes[k].priCnt, 1
    {
      var m := nodes[k].childCnt;
      ghost var span := nodes[k].Span();
      ghost var n1 := |nodes|;
      ghost var dc := d + 1;
      for j := 0 to m
        invariant |nodes| >= n1
        invariant forall y :: 0 <= y < n0 && y != k ==> nodes[y] == old(nodes[y])
        invariant nodes[k] == old(nodes[k]).(bbox := nodes[k].bbox) && |nodes[k].bbox| == cfg.width
        invariant forall c :: n0 + j <= c < n0 + m ==> nodes[c] == old(nodes[c])
        invariant ChildrenBuilt(cfg, nodes, bvhpri[..], depth, k, n0, rs, j, dc, n0 + |rs|)
        invariant multiset(bvhpri[span.start..span.end]) == multiset(old(bvhpri[span.start..span.end]))
        invariant forall i :: 0 <= i < bvhpri.Length && !span.Contains(i) ==> bvhpri[i] == old(bvhpri[i])
        invariant depth >= old(depth)
        invariant d <= cfg.maxNodeDepth ==> depth <= MaxNat(old(depth), cfg.maxNodeDepth)
      {
        ghost var aIt := bvhpri[..];
        SplitChild(k, j, d, pickBestSplit, dc, n0, rs);
        MultisetWithin(bvhpri[..], aIt, span.start, rs[j].start, rs[j].end, span.end);
      }
      ChildrenDone(cfg, k, d, dc, n0, rs, nodes, bvhpri[..], depth);
    }

    /** One round of the child loop of splitNode: stores the box of child j
        (arena index n0 + j) in slot j of node k and splits that child. */
    method SplitChild(k: nat, j: nat, d: nat, pickBestSplit: SplitPicker, ghost dc: nat, ghost n0: nat, ghost rs: seq<Range>)
      requires cfg.width >= 2 && 1 <= d && dc == d + 1
      requires k < n0 && j < |rs| <= cfg.width && n0 + |rs| <= |nodes|
      requires |nodes[k].children| == cfg.width && |nodes[k].bbox| == cfg.width && nodes[k].children[j] == n0 + j
      requires Tiles(rs, nodes[k].priOffset, nodes[k].Span().end)
      requires nodes[k].Span().end <= bvhpri.Length
      requires nodes[n0 + j] == NewNode(cfg, rs[j].start, rs[j].Size())
      requires rs[j].Size() < nodes[k].priCnt
      requires ChildrenBuilt(cfg, nodes, bvhpri[..], depth, k, n0, rs, j, dc, n0 + |rs|)
      modifies this`nodes, this`depth, bvhpri
      ensures |nodes| >= old(|nodes|)
      ensures forall y :: 0 <= y < old(|nodes|) && y != k && y != n0 + j ==> nodes[y] == old(nodes[y])
      ensures nodes[k] == old(nodes[k]).(bbox := nodes[k].bbox) && |nodes[k].bbox| == cfg.width
      ensures ChildrenBuilt(cfg, nodes, bvhpri[..], depth, k, n0, rs, j + 1, dc, n0 + |rs|)
      ensures multiset(bvhpri[rs[j].start..rs[j].end]) == multiset(old(bvhpri[rs[j].start..rs[j].end]))
      ensures forall i :: 0 <= i < bvhpri.Length && !rs[j].Contains(i) ==> bvhpri[i] == old(bvhpri[i])
      ensures depth >= old(depth)
      ensures d < cfg.maxNodeDepth ==> depth <= MaxNat(old(depth), cfg.maxNodeDepth)
      decreases nodes[k].priCnt, 0
    {
      ghost var nodesIt, aIt, depthIt := nodes, bvhpri[..], depth;
      var c := nodes[k].children[j];
      var box := CalcBoundingBox(Some(nodes[c]), bvhpri);
      UnionOfBounds(bvhpri[..], rs[j].start, rs[j].end);
      nodes := nodes[k := nodes[k].(bbox := nodes[k].bbox[j := box])];
      SplitNode(c, box, d + 1, pickBestSplit);
      ChildStep(cfg, k, d + 1, n0, rs, j, c, nodesIt, aIt, depthIt, box, nodes, bvhpri[..], depth);
    }
  
    /** The primitive of some wrapper of the structure is hit at distance t. */
    ghost predicate RecordsHit(ray: Ray, t: real, prim: Option<Primitive>)
      reads this, bvhpri
    {
      exists i :: 0 <= i < bvhpri.Length && prim == Some(bvhpri[i].primitive) && ray.hit(bvhpri[i].primitive) == Some(t)
    }

    /** No primitive of the structure is hit nearer than t. */
    ghost predicate NoCloserHit(ray: Ray, t: real)
      reads this, bvhpri
    {
      forall i :: 0 <= i < bvhpri.Length && ray.hit(bvhpri[i].primitive).Some? ==> t <= ray.hit(bvhpri[i].primitive).value
    }

    /** The closest-hit loop invariant: the stack is good, and every primitive
        hit nearer than rec's t lies under a node on the stack. */
    ghost predicate ClosestInv(ray: Ray, rec: Intersection?, st: seq<Entry>, ds: seq<nat>, boxes: seq<BBox>)
      reads this, bvhpri, rec
    {
      ClosestState(cfg, nodes, bvhpri[..], depth, ray, rec != null, if rec != null then rec.t else 0.0, st, ds, boxes)
    }

    /** The closest-hit query (scalar path): visits the tree nearest child
        first, skipping nodes the ray enters beyond the best hit so far, and
        keeps in rec the nearest hit closer than rec's t on entry. The result
        says whether rec holds a primitive. */
    method GetIntersect(ray: Ray, rec: Intersection?) returns (found: bool)
      requires Valid()
      modifies rec
      ensures ray.entry(bbox) < 0.0 ==> !found && (rec != null ==> rec.t == old(rec.t) && rec.primitive == old(rec.primitive))
      ensures 0.0 <= ray.entry(bbox) ==> found == (rec != null && rec.primitive.Some?)
      ensures rec != null ==> rec.t <= old(rec.t)
      ensures rec != null ==> (rec.t == old(rec.t) && rec.primitive == old(rec.primitive)) || RecordsHit(ray, rec.t, rec.primitive)
      ensures rec != null && Conservative(ray) ==> NoCloserHit(ray, rec.t)
    {
      ghost var a := bvhpri[..];
      PermutedWrappersOwnBoxes(a, primitives);
      var f := ray.entry(bbox);
      if f < 0.0 {
        if Conservative(ray) {
          forall i | 0 <= i < bvhpri.Length ensures ray.hit(bvhpri[i].primitive).None? {
            HitWithinEntry(ray, a, bbox, Range(0, bvhpri.Length), i);
          }
        }
        return false;
      }
      assert TreeOK(cfg, nodes, a, 0, 1, depth);
      assert 1 <= depth * cfg.width;
      var stack := new Entry[depth * cfg.width];
      stack[0] := (0, f);
      var si: nat := 1;
      ghost var ds, boxes := [1], [bbox];
      assert stack[..si] == [(0, f)];
      while si > 0
        invariant stack.Length == depth * cfg.width
        invariant si <= stack.Length
        invariant ClosestInv(ray, rec, stack[..si], ds, boxes)
        invariant rec != null ==> rec.t <= old(rec.t)
        invariant rec != null ==> (rec.t == old(rec.t) && rec.primitive == old(rec.primitive)) || RecordsHit(ray, rec.t, rec.primitive)
        decreases Weight(ds, depth, cfg.width + 1)
      {
        si, ds, boxes := ClosestStep(ray, rec, stack, si, ds, boxes);
      }
      found := rec != null && rec.primitive.Some?;
    }

    /** One round of the closest-hit loop: pops a node and skips it, tests
        its primitives, or pushes its children. */
    method ClosestStep(ray: Ray, rec: Intersection?, stack: array<Entry>, si: nat, ghost ds: seq<nat>, ghost boxes: seq<BBox>)
      returns (si': nat, ghost ds': seq<nat>, ghost boxes': seq<BBox>)
      requires cfg.width >= 2 && WrappersOwnBoxes(bvhpri[..]) && stack.Length == depth * cfg.width
      requires 0 < si <= stack.Length && ClosestInv(ray, rec, stack[..si], ds, boxes)
      modifies rec, stack
      ensures si' <= stack.Length && ClosestInv(ray, rec, stack[..si'], ds', boxes')
      ensures Weight(ds', depth, cfg.width + 1) < Weight(ds, depth, cfg.width + 1)
      ensures rec != null ==> rec.t <= old(rec.t)
      ensures rec != null ==> (rec.t == old(rec.t) && rec.primitive == old(rec.primitive)) || RecordsHit(ray, rec.t, rec.primitive)
    {
      ghost var a := bvhpri[..];
      ghost var st := stack[..si];
      ghost var t0 := if rec != null then rec.t else 0.0;
      var top := si - 1;
      var (node, fmin) := stack[top];
      assert EntryOK(cfg, nodes, a, depth, ray, st[top], ds[top], boxes[top]);
      assert st[..top] == stack[..top];
      if rec != null && rec.t < fmin {
        ClosestSkip(cfg, nodes, a, depth, ray, t0, top, st, ds, boxes);
        assert stack[..top] == st[..top];
        return top, ds[..top], boxes[..top];
      }
      if nodes[node].childCnt == 0 {
        IntersectLeaf(ray, node, rec);
        assert bvhpri[..] == a;
        ghost var t1 := if rec != null then rec.t else 0.0;
        ClosestLeafDone(cfg, nodes, a, depth, ray, rec != null, t0, t1, top, st, ds, boxes);
        assert stack[..top] == st[..top];
        return top, ds[..top], boxes[..top];
      }
      ghost var d := ds[top];
      assert TreeOK(cfg, nodes, a, nodes[node].children[0], d + 1, depth);
      StackRoom(cfg.width, d, depth, top, nodes[node].childCnt);
      ghost var order;
      si', order := PushNearestFirst(ray, node, stack, top);
      assert bvhpri[..] == a;
      ds', boxes' := ClosestExpand(cfg, nodes, a, depth, ray, rec != null, t0, st, ds, boxes, stack[..si'], order);
      WeightExpandTo(ds, ds', |order|, depth, cfg.width + 1);
    }

    /** The leaf branch of the closest-hit loop: tests every primitive of node
        k's range against rec. */
    method IntersectLeaf(ray: Ray, k: nat, rec: Intersection?)
      requires k < |nodes| && nodes[k].Span().end <= bvhpri.Length
      modifies rec
      ensures rec != null ==> rec.t <= old(rec.t)
      ensures rec != null ==> (rec.t == old(rec.t) && rec.primitive == old(rec.primitive)) || RecordsHit(ray, rec.t, rec.primitive)
      ensures rec != null ==> forall i :: nodes[k].Span().Contains(i) && ray.hit(bvhpri[i].primitive).Some? ==>
        rec.t <= ray.hit(bvhpri[i].primitive).value
    {
      var start := nodes[k].priOffset;
      var end := start + nodes[k].priCnt;
      for i := start to end
        invariant rec != null ==> rec.t <= old(rec.t)
        invariant rec != null ==> (rec.t == old(rec.t) && rec.primitive == old(rec.primitive)) || RecordsHit(ray, rec.t, rec.primitive)
        invariant rec != null ==> forall i' :: start <= i' < i && ray.hit(bvhpri[i'].primitive).Some? ==>
          rec.t <= ray.hit(bvhpri[i'].primitive).value
      {
        var _ := PrimitiveGetIntersect(ray, bvhpri[i].primitive, rec);
      }
    }

    /** The child loop of the closest-hit and multi-hit traversals: the entry
        distance into each child's box goes into f_min; then, over and over,
        the child with the largest distance above -1 is pushed and its
        distance set to -1, so the nearest child ends on top. */
    method PushNearestFirst(ray: Ray, k: nat, stack: array<Entry>, si: nat) returns (si': nat, ghost order: seq<nat>)
      requires k < |nodes| && nodes[k].childCnt <= cfg.width
      requires |nodes[k].children| == cfg.width && |nodes[k].bbox| == cfg.width
      requires si + nodes[k].childCnt <= stack.Length
      modifies stack
      ensures si' <= stack.Length && stack[..si] == old(stack[..si])
      ensures PushedNearestFirst(nodes, k, ray, stack[..si'], si, order)
      ensures forall t1, t2 :: 0 <= t1 < t2 < |order| ==>
        ray.entry(nodes[k].bbox[order[t1]]) >= ray.entry(nodes[k].bbox[order[t2]])
    {
      var n := nodes[k];
      var cnt := n.childCnt;
      var fmin := new real[cfg.width](i => if i == 0 then FLT_MAX else 0.0);
      for i := 0 to cnt
        modifies fmin
        invariant forall j :: 0 <= j < i ==> fmin[j] == ray.entry(n.bbox[j])
      {
        fmin[i] := ray.entry(n.bbox[i]);
      }
      si', order := SelectAndPush(ray, n, fmin, stack, si);
      SelectionPushed(nodes, k, ray, fmin[..], stack[..], si, order);
    }

    /** The state of the selection rounds after the children of `order`
        have been pushed from stack position si on: each of them was entered
        above -1 and has its f_min set to -1, they are pushed farthest first,
        and no child left is farther than any pushed one. */
    ghost predicate Selection(ray: Ray, n: Node, fmin: array<real>, stack: array<Entry>, si: nat, order: seq<nat>)
      reads fmin, stack
    {
      SelectionOf(ray, n, fmin[..], stack[..], si, order)
    }

    /** The selection rounds of the child loop: each round pushes the child
        SelectFarthest picks and marks it with -1, until no child is left
        above -1 or every child is pushed. */
    method SelectAndPush(ray: Ray, n: Node, fmin: array<real>, stack: array<Entry>, si: nat)
      returns (si': nat, ghost order: seq<nat>)
      requires n.childCnt <= fmin.Length && n.childCnt <= |n.children| && n.childCnt <= |n.bbox|
      requires si + n.childCnt <= stack.Length
      requires forall j :: 0 <= j < n.childCnt ==> fmin[j] == ray.entry(n.bbox[j])
      modifies fmin, stack
      ensures si' == si + |order| && stack[..si] == old(stack[..si])
      ensures Selection(ray, n, fmin, stack, si, order)
      ensures |order| == n.childCnt || forall j :: 0 <= j < n.childCnt && j !in order ==> ray.entry(n.bbox[j]) <= -1.0
    {
      si', order := si, [];
      for i := 0 to n.childCnt
        invariant |order| == i && si' == si + i
        invariant stack[..si] == old(stack[..si])
        invariant Selection(ray, n, fmin, stack, si, order)
      {
        var stop;
        stop, si', order := SelectRound(ray, n, fmin, stack, si, si', order);
        if stop {
          return;
        }
      }
    }

    /** One selection round: picks the farthest child left above -1, if any,
        marks it and pushes it. */
    method SelectRound(ray: Ray, n: Node, fmin: array<real>, stack: array<Entry>, si: nat, si0: nat, ghost order: seq<nat>)
      returns (stop: bool, si': nat, ghost order': seq<nat>)
      requires si0 == si + |order| && |order| < n.childCnt && si + n.childCnt <= stack.Length
      requires Selection(ray, n, fmin, stack, si, order)
      modifies fmin, stack
      ensures stack[..si] == old(stack[..si])
      ensures stop ==> si' == si0 && order' == order && Selection(ray, n, fmin, stack, si, order)
      ensures stop ==> forall j :: 0 <= j < n.childCnt && j !in order ==> ray.entry(n.bbox[j]) <= -1.0
      ensures !stop ==> si' == si0 + 1 && |order'| == |order| + 1 && Selection(ray, n, fmin, stack, si, order')
    {
      ghost var f, stk := fmin[..], stack[..];
      var c, maxDist := SelectFarthest(fmin, n.childCnt);
      if c == -1 {
        SelectionStop(ray, n, f, stk, si, order);
        return true, si0, order;
      }
      var k: nat := c;
      SelectionStep(ray, n, f, stk, si, order, k, maxDist);
      fmin[k] := -1.0;
      stack[si0] := (n.children[k], maxDist);
      assert fmin[..] == f[k := -1.0];
      assert stack[..] == stk[si0 := (n.children[k], maxDist)];
      order' := order + [k];
      assert Selection(ray, n, fmin, stack, si, order');
      si' := si0 + 1;
      stop := false;
    }

    /** The occlusion loop invariant: the stack is good, and every primitive
        the ray hits lies under a node on the stack. */
    ghost predicate OccludedInv(ray: Ray, st: seq<nat>, ds: seq<nat>)
      reads this, bvhpri
    {
      OccludedState(cfg, nodes, bvhpri[..], depth, ray, st, ds)
    }

    /** IsOccluded (scalar path): whether the ray hits any primitive, found by
        a walk that stops at the first hit. */
    method IsOccluded(ray: Ray) returns (occluded: bool)
      requires Valid()
      ensures ray.entry(bbox) < 0.0 ==> !occluded
      ensures occluded ==> exists i :: 0 <= i < bvhpri.Length && ray.hit(bvhpri[i].primitive).Some?
      ensures Conservative(ray) && (exists i :: 0 <= i < bvhpri.Length && ray.hit(bvhpri[i].primitive).Some?) ==> occluded
    {
      ghost var a := bvhpri[..];
      PermutedWrappersOwnBoxes(a, primitives);
      var f := ray.entry(bbox);
      if f < 0.0 {
        if Conservative(ray) {
          forall i | 0 <= i < bvhpri.Length ensures ray.hit(bvhpri[i].primitive).None? {
            HitWithinEntry(ray, a, bbox, Range(0, bvhpri.Length), i);
          }
        }
        return false;
      }
      assert TreeOK(cfg, nodes, a, 0, 1, depth);
      assert 1 <= depth * cfg.width;
      var stack := new nat[depth * cfg.width];
      stack[0] := 0;
      var si: nat := 1;
      ghost var ds := [1];
      assert stack[..si] == [0];
      while si > 0
        invariant stack.Length == depth * cfg.width
        invariant si <= stack.Length
        invariant OccludedInv(ray, stack[..si], ds)
        decreases Weight(ds, depth, cfg.width + 1)
      {
        var hit;
        si, ds, hit := OccludedStep(ray, stack, si, ds);
        if hit {
          return true;
        }
      }
      return false;
    }

    /** One round of the occlusion loop: pops a node and either tests its
        primitives or pushes its children. */
    method OccludedStep(ray: Ray, stack: array<nat>, si: nat, ghost ds: seq<nat>)
      returns (si': nat, ghost ds': seq<nat>, hit: bool)
      requires cfg.width >= 2 && WrappersOwnBoxes(bvhpri[..]) && stack.Length == depth * cfg.width
      requires 0 < si <= stack.Length && OccludedInv(ray, stack[..si], ds)
      modifies stack
      ensures hit ==> exists i :: 0 <= i < bvhpri.Length && ray.hit(bvhpri[i].primitive).Some?
      ensures !hit ==> si' <= stack.Length && OccludedInv(ray, stack[..si'], ds')
      ensures !hit ==> Weight(ds', depth, cfg.width + 1) < Weight(ds, depth, cfg.width + 1)
    {
      ghost var a := bvhpri[..];
      ghost var st := stack[..si];
      var top := si - 1;
      var node := stack[top];
      ghost var d := ds[top];
      assert node < |nodes| && TreeOK(cfg, nodes, a, node, d, depth) && top < cfg.width * d;
      assert st[..top] == stack[..top];
      if nodes[node].childCnt == 0 {
        hit := OccludedLeaf(ray, node);
        assert bvhpri[..] == a;
        if !hit {
          OccludedLeafDone(cfg, nodes, a, depth, ray, top, st, ds);
        }
        return top, ds[..top], hit;
      }
      hit := false;
      assert TreeOK(cfg, nodes, a, nodes[node].children[0], d + 1, depth);
      StackRoom(cfg.width, d, depth, top, nodes[node].childCnt);
      ghost var order;
      si', order := PushEnteredChildren(ray, node, stack, top);
      assert bvhpri[..] == a;
      ds' := OccludedExpand(cfg, nodes, a, depth, ray, st, ds, stack[..si'], order);
      WeightExpandTo(ds, ds', |order|, depth, cfg.width + 1);
    }

    /** The leaf branch of IsOccluded: true at the first primitive of node k's
        range the ray hits, false when it hits none of them. */
    method OccludedLeaf(ray: Ray, k: nat) returns (hit: bool)
      requires k < |nodes| && nodes[k].Span().end <= bvhpri.Length
      ensures hit <==> exists i :: nodes[k].Span().Contains(i) && ray.hit(bvhpri[i].primitive).Some?
    {
      var start := nodes[k].priOffset;
      var end := start + nodes[k].priCnt;
      for i := start to end
        invariant forall i' :: start <= i' < i ==> ray.hit(bvhpri[i'].primitive).None?
      {
        hit := PrimitiveGetIntersect(ray, bvhpri[i].primitive, null);
        if hit {
          return;
        }
      }
      hit := false;
    }

    /** The child loop of IsOccluded: the entry distance into each child's box
        goes into f_min, then the children entered at distance 0 or more are
        pushed in slot order. */
    method PushEnteredChildren(ray: Ray, k: nat, stack: array<nat>, si: nat) returns (si': nat, ghost order: seq<nat>)
      requires k < |nodes| && nodes[k].childCnt <= cfg.width
      requires |nodes[k].children| == cfg.width && |nodes[k].bbox| == cfg.width
      requires si + nodes[k].childCnt <= stack.Length
      modifies stack
      ensures si' <= stack.Length && stack[..si] == old(stack[..si])
      ensures PushedInOrder(nodes, k, ray, stack[..si'], si, order)
    {
      var n := nodes[k];
      var cnt := n.childCnt;
      var fmin := new real[cfg.width](i => if i == 0 then FLT_MAX else 0.0);
      for i := 0 to cnt
        modifies fmin
        invariant forall j :: 0 <= j < i ==> fmin[j] == ray.entry(n.bbox[j])
      {
        fmin[i] := ray.entry(n.bbox[i]);
      }
      si', order := si, [];
      for i := 0 to cnt
        modifies stack
        invariant si' == si + |order| && |order| <= i
        invariant forall t :: 0 <= t < |order| ==> order[t] < i
        invariant forall t1, t2 :: 0 <= t1 < t2 < |order| ==> order[t1] < order[t2]
        invariant forall j :: 0 <= j < i ==> (0.0 <= ray.entry(n.bbox[j]) <==> j in order)
        invariant stack[..si] == old(stack[..si])
        invariant forall t :: 0 <= t < |order| ==> stack[si + t] == n.children[order[t]]
      {
        if fmin[i] >= 0.0 {
          stack[si'] := n.children[i];
          order := order + [i];
          si' := si' + 1;
        }
      }
    }

    /** The multi-hit loop invariant over the container's hits. */
    ghost predicate MultiInv(ray: Ray, intersect: BssrdfIntersections, mat: nat, st: seq<Entry>, ds: seq<nat>, boxes: seq<BBox>)
      reads this, bvhpri, intersect, intersect.intersections
    {
      && intersect.Valid()
      && MultiState(cfg, nodes, bvhpri[..], depth, ray, mat, intersect.K, intersect.Hits(), intersect.maxt, st, ds, boxes)
    }

    /** The multi-hit query (scalar path): collects into the container hits of
        the primitives of material matID, nearest child first, skipping nodes
        the ray enters beyond the container's maxt. The container ends up
        holding hits of such primitives only, and, for a conservative ray,
        every such hit is stored or no nearer than all stored ones, which are
        then K of them. */
    method GetIntersectMulti(ray: Ray, intersect: BssrdfIntersections, matID: nat)
      requires Valid() && intersect.Valid()
      modifies intersect`cnt, intersect`maxt, intersect.intersections
      ensures intersect.Valid()
      ensures ray.entry(bbox) < 0.0 ==> intersect.cnt == 0 && intersect.maxt == FLT_MAX
      ensures MaxtOK(intersect.Hits(), intersect.K, intersect.maxt)
      ensures forall x :: x in intersect.Hits() ==> Recorded(bvhpri[..], ray, matID, x)
      ensures Conservative(ray) ==> forall i :: 0 <= i < bvhpri.Length && Matches(ray, matID, bvhpri[i].primitive) ==>
        Settled(intersect.Hits(), intersect.K, HitOf(ray, bvhpri[i].primitive))
    {
      intersect.cnt := 0;
      intersect.maxt := FLT_MAX;
      ghost var a := bvhpri[..];
      PermutedWrappersOwnBoxes(a, primitives);
      var f := ray.entry(bbox);
      if f < 0.0 {
        if Conservative(ray) {
          forall i | 0 <= i < bvhpri.Length ensures ray.hit(bvhpri[i].primitive).None? {
            HitWithinEntry(ray, a, bbox, Range(0, bvhpri.Length), i);
          }
        }
        return;
      }
      assert TreeOK(cfg, nodes, a, 0, 1, depth);
      assert 1 <= depth * cfg.width;
      var stack := new Entry[depth * cfg.width];
      stack[0] := (0, f);
      var si: nat := 1;
      ghost var ds, boxes := [1], [bbox];
      assert stack[..si] == [(0, f)];
      while si > 0
        invariant stack.Length == depth * cfg.width
        invariant si <= stack.Length
        invariant MultiInv(ray, intersect, matID, stack[..si], ds, boxes)
        decreases Weight(ds, depth, cfg.width + 1)
      {
        si, ds, boxes := MultiStep(ray, intersect, matID, stack, si, ds, boxes);
      }
    }

    /** One round of the multi-hit loop: pops a node and skips it, tests its
        primitives, or pushes its children. */
    method MultiStep(ray: Ray, intersect: BssrdfIntersections, mat: nat, stack: array<Entry>, si: nat,
                     ghost ds: seq<nat>, ghost boxes: seq<BBox>)
      returns (si': nat, ghost ds': seq<nat>, ghost boxes': seq<BBox>)
      requires cfg.width >= 2 && WrappersOwnBoxes(bvhpri[..]) && stack.Length == depth * cfg.width
      requires 0 < si <= stack.Length && MultiInv(ray, intersect, mat, stack[..si], ds, boxes)
      modifies intersect`cnt, intersect`maxt, intersect.intersections, stack
      ensures si' <= stack.Length && MultiInv(ray, intersect, mat, stack[..si'], ds', boxes')
      ensures Weight(ds', depth, cfg.width + 1) < Weight(ds, depth, cfg.width + 1)
    {
      ghost var a := bvhpri[..];
      ghost var st := stack[..si];
      ghost var s0, m0 := intersect.Hits(), intersect.maxt;
      var top := si - 1;
      var (node, fmin) := stack[top];
      assert EntryOK(cfg, nodes, a, depth, ray, st[top], ds[top], boxes[top]);
      assert st[..top] == stack[..top];
      if intersect.maxt < fmin {
        MultiSkip(cfg, nodes, a, depth, ray, mat, intersect.K, s0, m0, top, st, ds, boxes);
        assert stack[..top] == st[..top];
        return top, ds[..top], boxes[..top];
      }
      if nodes[node].childCnt == 0 {
        MultiLeaf(ray, node, intersect, mat);
        assert bvhpri[..] == a;
        MultiLeafDone(cfg, nodes, a, depth, ray, mat, intersect.K, s0, m0, intersect.Hits(), intersect.maxt, top, st, ds, boxes);
        assert stack[..top] == st[..top];
        return top, ds[..top], boxes[..top];
      }
      ghost var d := ds[top];
      assert TreeOK(cfg, nodes, a, nodes[node].children[0], d + 1, depth);
      StackRoom(cfg.width, d, depth, top, nodes[node].childCnt);
      ghost var order;
      si', order := PushNearestFirst(ray, node, stack, top);
      assert bvhpri[..] == a;
      ds', boxes' := MultiExpand(cfg, nodes, a, depth, ray, mat, intersect.K, s0, m0, st, ds, boxes, stack[..si'], order);
      WeightExpandTo(ds, ds', |order|, depth, cfg.width + 1);
    }

    /** The leaf branch of the multi-hit query: every primitive of node k's
        range with material mat is tested with a reset local record, and a hit
        is offered to the container. Hits the container had settled stay
        settled, and so is every matching hit of the leaf afterwards. */
    method MultiLeaf(ray: Ray, k: nat, intersect: BssrdfIntersections, mat: nat)
      requires k < |nodes| && nodes[k].Span().end <= bvhpri.Length
      requires intersect.Valid() && Collected(bvhpri[..], ray, mat, intersect.K, intersect.Hits(), intersect.maxt)
      modifies intersect`cnt, intersect`maxt, intersect.intersections
      ensures intersect.Valid() && Collected(bvhpri[..], ray, mat, intersect.K, intersect.Hits(), intersect.maxt)
      ensures forall g :: Settled(old(intersect.Hits()), intersect.K, g) ==> Settled(intersect.Hits(), intersect.K, g)
      ensures forall i :: nodes[k].Span().Contains(i) && i < bvhpri.Length && Matches(ray, mat, bvhpri[i].primitive) ==>
        Settled(intersect.Hits(), intersect.K, HitOf(ray, bvhpri[i].primitive))
    {
      var start := nodes[k].priOffset;
      var end := start + nodes[k].priCnt;
      ghost var s0 := intersect.Hits();
      var intersection := new Intersection();
      for i := start to end
        invariant intersect.Valid() && Collected(bvhpri[..], ray, mat, intersect.K, intersect.Hits(), intersect.maxt)
        invariant forall g :: Settled(s0, intersect.K, g) ==> Settled(intersect.Hits(), intersect.K, g)
        invariant forall i' :: start <= i' < i && Matches(ray, mat, bvhpri[i'].primitive) ==>
          Settled(intersect.Hits(), intersect.K, HitOf(ray, bvhpri[i'].primitive))
      {
        if mat != bvhpri[i].primitive.materialId {
          continue;
        }
        intersection.Reset();
        var intersected := PrimitiveGetIntersect(ray, bvhpri[i].primitive, intersection);
        if intersected {
          OfferKept(bvhpri[..], ray, mat, intersect.K, intersect.Hits(), intersect.maxt, i);
          intersect.Add(Hit(intersection.t, intersection.primitive));
        }
      }
    }
}
}
