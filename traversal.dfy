/** What the three scalar traversals of the wide BVH share: the invariant
    of their explicit stacks, the measure that makes them terminate, and the
    facts about the children an inner node pushes. */
module Traversal {
  import opened Wrappers
  import opened Geometry
  import opened Ranges
  import opened BvhTree

  /** An entry of the closest-hit and multi-hit stacks: a node and the entry
      distance of the ray into that node's box. */
  type Entry = (nat, real)

  function Pow(b: nat, e: nat): (r: nat)
    requires 1 <= b
    ensures 1 <= r
  {
    if e == 0 then 1 else b * Pow(b, e - 1)
  }

  /** The weight of a stack entry at depth d in a tree of depth at most D. */
  function Term(d: nat, D: nat, b: nat): (r: nat)
    requires 1 <= b
    ensures 1 <= r
  {
    if d <= D then Pow(b, D - d) else 1
  }

  /** The termination measure of a traversal: with b one more than the node
      width, replacing an entry of depth d by up to width entries of depth
      d + 1 makes it smaller. */
  function Weight(ds: seq<nat>, D: nat, b: nat): nat
    requires 1 <= b
  {
    if |ds| == 0 then 0 else Weight(ds[..|ds| - 1], D, b) + Term(ds[|ds| - 1], D, b)
  }

  lemma {:induction false} WeightAppend(xs: seq<nat>, ys: seq<nat>, D: nat, b: nat)
    requires 1 <= b
    ensures Weight(xs + ys, D, b) == Weight(xs, D, b) + Weight(ys, D, b)
    decreases |ys|
  {
    if |ys| > 0 {
      var ys' := ys[..|ys| - 1];
      assert (xs + ys)[..|xs + ys| - 1] == xs + ys';
      assert (xs + ys)[|xs + ys| - 1] == ys[|ys| - 1];
      WeightAppend(xs, ys', D, b);
    } else {
      assert xs + ys == xs;
    }
  }

  /** m copies of c. */
  function Repeat(m: nat, c: nat): (s: seq<nat>)
    ensures |s| == m
  {
    seq(m, _ => c)
  }

  /** The boxes of the child slots of n listed in order. */
  function SlotBoxes(n: Node, order: seq<nat>): (s: seq<BBox>)
    requires forall t :: 0 <= t < |order| ==> order[t] < |n.bbox|
    ensures |s| == |order|
  {
    seq(|order|, t requires 0 <= t < |order| => n.bbox[order[t]])
  }

  lemma {:induction false} WeightUniform(m: nat, c: nat, D: nat, b: nat)
    requires 1 <= b
    ensures Weight(Repeat(m, c), D, b) == m * Term(c, D, b)
  {
    if m > 0 {
      assert Repeat(m, c)[..m - 1] == Repeat(m - 1, c);
      WeightUniform(m - 1, c, D, b);
    }
  }

  /** Popping the top entry of a stack makes the measure smaller. */
  lemma WeightPop(ds: seq<nat>, D: nat, b: nat)
    requires 1 <= b && |ds| > 0
    ensures Weight(ds[..|ds| - 1], D, b) < Weight(ds, D, b)
  {
  }

  /** Replacing the top entry (of depth d < D) by m <= b - 1 entries of depth
      d + 1 makes the measure smaller. */
  lemma WeightExpand(ds: seq<nat>, m: nat, D: nat, b: nat)
    requires 2 <= b && |ds| > 0 && ds[|ds| - 1] < D && m < b
    ensures Weight(ds[..|ds| - 1] + Repeat(m, ds[|ds| - 1] + 1), D, b) < Weight(ds, D, b)
  {
    var d := ds[|ds| - 1];
    WeightAppend(ds[..|ds| - 1], Repeat(m, d + 1), D, b);
    WeightUniform(m, d + 1, D, b);
    var p := Pow(b, D - (d + 1));
    assert Term(d, D, b) == b * p;
    MulLess(m, b, p);
  }

  lemma MulLess(m: nat, b: nat, p: nat)
    requires m < b && 1 <= p
    ensures m * p < b * p
  {
    assert b * p == m * p + (b - m) * p;
  }

  /** WeightExpand, for a stack already named. */
  lemma WeightExpandTo(ds: seq<nat>, ds': seq<nat>, m: nat, D: nat, b: nat)
    requires 2 <= b && |ds| > 0 && ds[|ds| - 1] < D && m < b
    requires ds' == ds[..|ds| - 1] + Repeat(m, ds[|ds| - 1] + 1)
    ensures Weight(ds', D, b) < Weight(ds, D, b)
  {
    WeightExpand(ds, m, D, b);
  }

  lemma StackRoom(w: nat, d: nat, D: nat, si: nat, c: nat)
    requires si < w * d && c <= w && d + 1 <= D
    ensures si + c <= D * w && si + c <= w * (d + 1)
  {
    MulSucc(w, d);
    MulMono(w, d + 1, D);
    assert D * w == w * D;
  }

  lemma MulSucc(w: nat, d: nat)
    ensures w * (d + 1) == w * d + w
  {
  }

  lemma MulMono(w: nat, x: nat, y: nat)
    requires x <= y
    ensures w * x <= w * y
  {
    var z: nat := y - x;
    assert w * y == w * x + w * z;
  }

  /** Every wrapper of the array caches its own primitive's box. */
  ghost predicate WrappersOwnBoxes(a: seq<BvhPrimitive>)
  {
    forall i :: 0 <= i < |a| ==> a[i].box == a[i].primitive.bbox
  }

  /** Primitive i of a range a box bounds is hit no nearer than the ray enters that box. */
  lemma HitWithinEntry(ray: Ray, a: seq<BvhPrimitive>, box: BBox, r: Range, i: nat)
    requires Conservative(ray) && WrappersOwnBoxes(a) && Bounds(box, a, r) && i < |a|
    ensures r.Contains(i) && ray.hit(a[i].primitive).Some? ==> 0.0 <= ray.entry(box) <= ray.hit(a[i].primitive).value
  {
    if r.Contains(i) {
      assert Contains(box, a[i].primitive.bbox);
    }
  }

  /** A closest-hit or multi-hit stack entry: a node of a well-formed subtree
      at depth d, with a box that encloses its primitives and the ray's entry
      distance into that box. */
  ghost predicate EntryOK(cfg: Config, nodes: seq<Node>, a: seq<BvhPrimitive>, D: nat, ray: Ray,
                          e: Entry, d: nat, box: BBox)
  {
    && e.0 < |nodes|
    && TreeOK(cfg, nodes, a, e.0, d, D)
    && Bounds(box, a, nodes[e.0].Span())
    && e.1 == ray.entry(box)
  }

  /** The stack invariant: every entry is good, and the entry at position p
      has depth more than p / width, so the stack never needs more than
      width * D slots. */
  ghost predicate StackOK(cfg: Config, nodes: seq<Node>, a: seq<BvhPrimitive>, D: nat, ray: Ray,
                          st: seq<Entry>, ds: seq<nat>, boxes: seq<BBox>)
  {
    && |ds| == |st| && |boxes| == |st|
    && forall p {:trigger st[p]} :: 0 <= p < |st| ==> EntryOK(cfg, nodes, a, D, ray, st[p], ds[p], boxes[p]) && p < cfg.width * ds[p]
  }

  /** Primitive index i lies in the range of a node on the stack. */
  ghost predicate InStack(nodes: seq<Node>, st: seq<Entry>, i: nat)
  {
    exists p :: 0 <= p < |st| && st[p].0 < |nodes| && nodes[st[p].0].Span().Contains(i)
  }

  /** An index on the stack that the top node's range does not hold stays on
      the stack once the top is popped ... */
  lemma PopKeeps(nodes: seq<Node>, st: seq<Entry>, i: nat)
    requires InStack(nodes, st, i) && |st| > 0
    requires !(st[|st| - 1].0 < |nodes| && nodes[st[|st| - 1].0].Span().Contains(i))
    ensures InStack(nodes, st[..|st| - 1], i)
  {
    var p :| 0 <= p < |st| && st[p].0 < |nodes| && nodes[st[p].0].Span().Contains(i);
    assert p < |st| - 1;
    assert st[..|st| - 1][p] == st[p];
  }

  /** ... and while the entries under it are left in place. */
  lemma PrefixInStack(nodes: seq<Node>, st: seq<Entry>, st': seq<Entry>, i: nat)
    requires InStack(nodes, st, i) && |st| <= |st'| && st'[..|st|] == st
    ensures InStack(nodes, st', i)
  {
    var p :| 0 <= p < |st| && st[p].0 < |nodes| && nodes[st[p].0].Span().Contains(i);
    assert st'[p] == st[p];
  }

  lemma NodePopKeeps(nodes: seq<Node>, st: seq<nat>, i: nat)
    requires InNodeStack(nodes, st, i) && |st| > 0
    requires !(st[|st| - 1] < |nodes| && nodes[st[|st| - 1]].Span().Contains(i))
    ensures InNodeStack(nodes, st[..|st| - 1], i)
  {
    var p :| 0 <= p < |st| && st[p] < |nodes| && nodes[st[p]].Span().Contains(i);
    assert p < |st| - 1;
    assert st[..|st| - 1][p] == st[p];
  }

  lemma NodePrefixInStack(nodes: seq<Node>, st: seq<nat>, st': seq<nat>, i: nat)
    requires InNodeStack(nodes, st, i) && |st| <= |st'| && st'[..|st|] == st
    ensures InNodeStack(nodes, st', i)
  {
    var p :| 0 <= p < |st| && st[p] < |nodes| && nodes[st[p]].Span().Contains(i);
    assert st'[p] == st[p];
  }

  lemma NodeStackPop(cfg: Config, nodes: seq<Node>, a: seq<BvhPrimitive>, D: nat, st: seq<nat>, ds: seq<nat>)
    requires NodeStackOK(cfg, nodes, a, D, st, ds) && |st| > 0
    ensures NodeStackOK(cfg, nodes, a, D, st[..|st| - 1], ds[..|st| - 1])
  {
    var n := |st| - 1;
    forall p | 0 <= p < n
      ensures st[..n][p] < |nodes| && TreeOK(cfg, nodes, a, st[..n][p], ds[..n][p], D) && p < cfg.width * ds[..n][p]
    {
      assert st[..n][p] == st[p];
    }
  }

  lemma StackPop(cfg: Config, nodes: seq<Node>, a: seq<BvhPrimitive>, D: nat, ray: Ray,
                 st: seq<Entry>, ds: seq<nat>, boxes: seq<BBox>)
    requires StackOK(cfg, nodes, a, D, ray, st, ds, boxes) && |st| > 0
    ensures StackOK(cfg, nodes, a, D, ray, st[..|st| - 1], ds[..|st| - 1], boxes[..|st| - 1])
  {
    var n := |st| - 1;
    forall p | 0 <= p < n
      ensures EntryOK(cfg, nodes, a, D, ray, st[..n][p], ds[..n][p], boxes[..n][p]) && p < cfg.width * ds[..n][p]
    {
      assert st[..n][p] == st[p];
    }
  }

  /** What the child loop of an inner node k reports: the child slots it
      pushed, in push order, each once, exactly those whose box the ray enters
      at a distance above -1, and at stack position base + t the child of slot
      order[t] with the entry distance into its box. */
  ghost predicate PushedNearestFirst(nodes: seq<Node>, k: nat, ray: Ray, st: seq<Entry>, base: nat, order: seq<nat>)
    requires k < |nodes|
  {
    && |st| == base + |order|
    && (forall t :: 0 <= t < |order| ==> order[t] < nodes[k].childCnt)
    && (forall t1, t2 :: 0 <= t1 < t2 < |order| ==> order[t1] != order[t2])
    && (forall t :: 0 <= t < |order| ==>
          && order[t] < |nodes[k].children| && order[t] < |nodes[k].bbox|
          && st[base + t] == (nodes[k].children[order[t]], ray.entry(nodes[k].bbox[order[t]])))
    && (forall j :: 0 <= j < nodes[k].childCnt && j < |nodes[k].bbox| ==>
          (-1.0 < ray.entry(nodes[k].bbox[j]) <==> j in order))
  }

  /** The stack after an inner node at the top is replaced by its pushed
      children satisfies the invariant again. */
  lemma ExpandOK(cfg: Config, nodes: seq<Node>, a: seq<BvhPrimitive>, D: nat, ray: Ray,
                 n: nat, st: seq<Entry>, ds: seq<nat>, boxes: seq<BBox>,
                 st': seq<Entry>, order: seq<nat>)
    requires StackOK(cfg, nodes, a, D, ray, st, ds, boxes) && n + 1 == |st|
    requires st[n].0 < |nodes| && nodes[st[n].0].childCnt > 0
    requires n <= |st'| && st'[..n] == st[..n]
    requires PushedNearestFirst(nodes, st[n].0, ray, st', n, order)
    ensures ds[n] < D && |order| <= cfg.width
    ensures StackOK(cfg, nodes, a, D, ray, st', ds[..n] + Repeat(|order|, ds[n] + 1),
                    boxes[..n] + SlotBoxes(nodes[st[n].0], order))
  {
    assert EntryOK(cfg, nodes, a, D, ray, st[n], ds[n], boxes[n]) && n < cfg.width * ds[n];
    StackPop(cfg, nodes, a, D, ray, st, ds, boxes);
    PushedOK(cfg, nodes, a, D, ray, st[n].0, ds[n], n, st', order);
    StackJoin(cfg, nodes, a, D, ray, n, st[..n], ds[..n], boxes[..n], st',
              Repeat(|order|, ds[n] + 1), SlotBoxes(nodes[st[n].0], order));
  }

  /** The children an inner node of depth d pushed at stack positions n and up
      are good entries of depth d + 1, at positions the stack has room for. */
  lemma PushedOK(cfg: Config, nodes: seq<Node>, a: seq<BvhPrimitive>, D: nat, ray: Ray,
                 k: nat, d: nat, n: nat, st': seq<Entry>, order: seq<nat>)
    requires TreeOK(cfg, nodes, a, k, d, D) && nodes[k].childCnt > 0 && n < cfg.width * d
    requires PushedNearestFirst(nodes, k, ray, st', n, order)
    ensures d < D && |order| <= cfg.width && |st'| == n + |order|
    ensures forall t :: 0 <= t < |order| ==>
              && EntryOK(cfg, nodes, a, D, ray, st'[n + t], Repeat(|order|, d + 1)[t], SlotBoxes(nodes[k], order)[t])
              && n + t < cfg.width * Repeat(|order|, d + 1)[t]
  {
    var node := nodes[k];
    ChildEntryOK(cfg, nodes, a, D, ray, k, d, 0);
    OrderBound(order, node.childCnt);
    StackRoom(cfg.width, d, D, n, |order|);
    forall t | 0 <= t < |order|
      ensures && EntryOK(cfg, nodes, a, D, ray, st'[n + t], Repeat(|order|, d + 1)[t], SlotBoxes(nodes[k], order)[t])
              && n + t < cfg.width * Repeat(|order|, d + 1)[t]
    {
      var j := order[t];
      ChildEntryOK(cfg, nodes, a, D, ray, k, d, j);
    }
  }

  /** A child of a good node, with the entry distance into its slot box, is a
      good entry one level deeper. */
  lemma ChildEntryOK(cfg: Config, nodes: seq<Node>, a: seq<BvhPrimitive>, D: nat, ray: Ray,
                     k: nat, d: nat, j: nat)
    requires TreeOK(cfg, nodes, a, k, d, D) && j < nodes[k].childCnt
    ensures j < |nodes[k].children| && j < |nodes[k].bbox| && d < D
    ensures EntryOK(cfg, nodes, a, D, ray, (nodes[k].children[j], ray.entry(nodes[k].bbox[j])), d + 1, nodes[k].bbox[j])
  {
    assert TreeOK(cfg, nodes, a, nodes[k].children[j], d + 1, D);
  }

  /** A good stack with good entries placed on top of it is a good stack. */
  lemma StackJoin(cfg: Config, nodes: seq<Node>, a: seq<BvhPrimitive>, D: nat, ray: Ray,
                  n: nat, st: seq<Entry>, ds: seq<nat>, boxes: seq<BBox>,
                  st': seq<Entry>, ds2: seq<nat>, boxes2: seq<BBox>)
    requires StackOK(cfg, nodes, a, D, ray, st, ds, boxes) && n == |st|
    requires |st'| == n + |ds2| && |boxes2| == |ds2| && st'[..n] == st
    requires forall t :: 0 <= t < |ds2| ==>
               && EntryOK(cfg, nodes, a, D, ray, st'[n + t], ds2[t], boxes2[t])
               && n + t < cfg.width * ds2[t]
    ensures StackOK(cfg, nodes, a, D, ray, st', ds + ds2, boxes + boxes2)
  {
    forall p | 0 <= p < |st'|
      ensures EntryOK(cfg, nodes, a, D, ray, st'[p], (ds + ds2)[p], (boxes + boxes2)[p])
              && p < cfg.width * (ds + ds2)[p]
    {
      if p < n {
        assert st'[p] == st[p];
      } else {
        assert st'[n + (p - n)] == st'[p];
      }
    }
  }

  /** A primitive the ray hits whose index lies in the range of an inner node
      lies in the range of one of the children it pushed. */
  lemma ExpandCovers(cfg: Config, nodes: seq<Node>, a: seq<BvhPrimitive>, D: nat, ray: Ray,
                     k: nat, d: nat, st': seq<Entry>, base: nat, order: seq<nat>, i: nat)
    requires TreeOK(cfg, nodes, a, k, d, D) && nodes[k].childCnt > 0
    requires PushedNearestFirst(nodes, k, ray, st', base, order)
    requires Conservative(ray) && WrappersOwnBoxes(a)
    requires nodes[k].Span().Contains(i) && ray.hit(a[i].primitive).Some?
    ensures InStack(nodes, st', i)
  {
    var j := ChildWithIndex(cfg, nodes, a, k, d, D, i);
    var node := nodes[k];
    HitWithinEntry(ray, a, node.bbox[j], nodes[node.children[j]].Span(), i);
    assert j in order;
    var t :| 0 <= t < |order| && order[t] == j;
    assert st'[base + t].0 == node.children[j];
  }

  /** The child slot of an inner node whose range holds a given index. */
  lemma ChildWithIndex(cfg: Config, nodes: seq<Node>, a: seq<BvhPrimitive>, k: nat, d: nat, D: nat, i: nat)
    returns (j: nat)
    requires TreeOK(cfg, nodes, a, k, d, D) && nodes[k].childCnt > 0 && nodes[k].Span().Contains(i)
    ensures j < nodes[k].childCnt && j < |nodes[k].children| && j < |nodes[k].bbox|
    ensures nodes[k].children[j] < |nodes| && nodes[nodes[k].children[j]].Span().Contains(i)
    ensures Bounds(nodes[k].bbox[j], a, nodes[nodes[k].children[j]].Span())
  {
    var rs := ChildSpans(nodes, k);
    assert CoveredAt(rs, i);
    j :| 0 <= j < |rs| && rs[j].Contains(i);
  }

  /** Distinct slots below n number at most n ... */
  lemma {:induction false} OrderBound(order: seq<nat>, n: nat)
    requires forall t :: 0 <= t < |order| ==> order[t] < n
    requires forall t1, t2 :: 0 <= t1 < t2 < |order| ==> order[t1] != order[t2]
    ensures |order| <= n
  {
    if n < |order| {
      var o := order[..n + 1];
      assert |o| == n + 1;
      SubsetFull(o[..n], n, o[n]);
      assert false;
    }
  }

  /** ... and n distinct slots below n make up all of them. */
  lemma {:induction false} SubsetFull(order: seq<nat>, n: nat, j: nat)
    requires |order| == n && j < n
    requires forall t :: 0 <= t < |order| ==> order[t] < n
    requires forall t1, t2 :: 0 <= t1 < t2 < |order| ==> order[t1] != order[t2]
    ensures j in order
    decreases n
  {
    var top := n - 1;
    if top in order {
      var t :| 0 <= t < |order| && order[t] == top;
      var rest := order[..t] + order[t + 1..];
      assert forall u :: 0 <= u < |rest| ==> rest[u] == if u < t then order[u] else order[u + 1];
      if j != top {
        SubsetFull(rest, n - 1, j);
        var u :| 0 <= u < |rest| && rest[u] == j;
      }
    } else {
      var rest := order[..n - 1];
      if j < top {
        SubsetFull(rest, n - 1, j);
      } else {
        SubsetFull(rest, n - 1, order[n - 1]);
      }
    }
  }

  /** Every primitive hit nearer than t lies under a node on the stack. */
  ghost predicate Covers(nodes: seq<Node>, a: seq<BvhPrimitive>, ray: Ray, t: real, st: seq<Entry>)
  {
    forall i :: 0 <= i < |a| && ray.hit(a[i].primitive).Some? && ray.hit(a[i].primitive).value < t ==> InStack(nodes, st, i)
  }

  /** Skipping the top node, which the ray enters beyond t, keeps the cover. */
  lemma SkipCovers(nodes: seq<Node>, a: seq<BvhPrimitive>, ray: Ray, t: real, st: seq<Entry>, box: BBox)
    requires Covers(nodes, a, ray, t, st) && |st| > 0 && st[|st| - 1].0 < |nodes|
    requires Conservative(ray) && WrappersOwnBoxes(a)
    requires Bounds(box, a, nodes[st[|st| - 1].0].Span()) && st[|st| - 1].1 == ray.entry(box) && t < st[|st| - 1].1
    ensures Covers(nodes, a, ray, t, st[..|st| - 1])
  {
    forall i | 0 <= i < |a| && ray.hit(a[i].primitive).Some? && ray.hit(a[i].primitive).value < t
      ensures InStack(nodes, st[..|st| - 1], i)
    {
      HitWithinEntry(ray, a, box, nodes[st[|st| - 1].0].Span(), i);
      PopKeeps(nodes, st, i);
    }
  }

  /** Testing the primitives of the top node, after which nothing there is
      hit nearer than t' <= t, keeps the cover for t'. */
  lemma LeafDoneCovers(nodes: seq<Node>, a: seq<BvhPrimitive>, ray: Ray, t: real, t': real, st: seq<Entry>)
    requires Covers(nodes, a, ray, t, st) && |st| > 0 && st[|st| - 1].0 < |nodes| && t' <= t
    requires forall i :: nodes[st[|st| - 1].0].Span().Contains(i) && i < |a| && ray.hit(a[i].primitive).Some? ==>
      t' <= ray.hit(a[i].primitive).value
    ensures Covers(nodes, a, ray, t', st[..|st| - 1])
  {
    forall i | 0 <= i < |a| && ray.hit(a[i].primitive).Some? && ray.hit(a[i].primitive).value < t'
      ensures InStack(nodes, st[..|st| - 1], i)
    {
      PopKeeps(nodes, st, i);
    }
  }

  /** Replacing an inner node at the top by the children it pushed keeps the cover. */
  lemma ExpandKeepsCover(cfg: Config, nodes: seq<Node>, a: seq<BvhPrimitive>, D: nat, ray: Ray, t: real,
                         st: seq<Entry>, ds: seq<nat>, boxes: seq<BBox>, st': seq<Entry>, order: seq<nat>)
    requires Covers(nodes, a, ray, t, st) && StackOK(cfg, nodes, a, D, ray, st, ds, boxes) && |st| > 0
    requires nodes[st[|st| - 1].0].childCnt > 0
    requires |st| - 1 <= |st'| && st'[..|st| - 1] == st[..|st| - 1]
    requires PushedNearestFirst(nodes, st[|st| - 1].0, ray, st', |st| - 1, order)
    requires Conservative(ray) && WrappersOwnBoxes(a)
    ensures Covers(nodes, a, ray, t, st')
  {
    var n := |st| - 1;
    var k, d := st[n].0, ds[n];
    assert EntryOK(cfg, nodes, a, D, ray, st[n], d, boxes[n]);
    forall i | 0 <= i < |a| && ray.hit(a[i].primitive).Some? && ray.hit(a[i].primitive).value < t
      ensures InStack(nodes, st', i)
    {
      if nodes[k].Span().Contains(i) {
        ExpandCovers(cfg, nodes, a, D, ray, k, d, st', n, order, i);
      } else {
        PopKeeps(nodes, st, i);
        PrefixInStack(nodes, st[..n], st', i);
      }
    }
  }

  /** Every primitive the ray hits lies under a node on the occlusion stack. */
  ghost predicate NodeCovers(nodes: seq<Node>, a: seq<BvhPrimitive>, ray: Ray, st: seq<nat>)
  {
    forall i :: 0 <= i < |a| && ray.hit(a[i].primitive).Some? ==> InNodeStack(nodes, st, i)
  }

  lemma NodeLeafDoneCovers(nodes: seq<Node>, a: seq<BvhPrimitive>, ray: Ray, st: seq<nat>)
    requires NodeCovers(nodes, a, ray, st) && |st| > 0 && st[|st| - 1] < |nodes|
    requires forall i :: nodes[st[|st| - 1]].Span().Contains(i) && i < |a| ==> ray.hit(a[i].primitive).None?
    ensures NodeCovers(nodes, a, ray, st[..|st| - 1])
  {
    forall i | 0 <= i < |a| && ray.hit(a[i].primitive).Some? ensures InNodeStack(nodes, st[..|st| - 1], i) {
      NodePopKeeps(nodes, st, i);
    }
  }

  lemma NodeExpandKeepsCover(cfg: Config, nodes: seq<Node>, a: seq<BvhPrimitive>, D: nat, ray: Ray,
                             st: seq<nat>, d: nat, st': seq<nat>, order: seq<nat>)
    requires NodeCovers(nodes, a, ray, st) && |st| > 0
    requires TreeOK(cfg, nodes, a, st[|st| - 1], d, D) && nodes[st[|st| - 1]].childCnt > 0
    requires |st| - 1 <= |st'| && st'[..|st| - 1] == st[..|st| - 1]
    requires PushedInOrder(nodes, st[|st| - 1], ray, st', |st| - 1, order)
    requires Conservative(ray) && WrappersOwnBoxes(a)
    ensures NodeCovers(nodes, a, ray, st')
  {
    var n := |st| - 1;
    var k := st[n];
    forall i | 0 <= i < |a| && ray.hit(a[i].primitive).Some? ensures InNodeStack(nodes, st', i) {
      if nodes[k].Span().Contains(i) {
        ExpandNodesCovers(cfg, nodes, a, D, ray, k, d, st', n, order, i);
      } else {
        NodePopKeeps(nodes, st, i);
        NodePrefixInStack(nodes, st[..n], st', i);
      }
    }
  }

  /** An occlusion stack entry: a node of a well-formed subtree at depth d. */
  ghost predicate NodeStackOK(cfg: Config, nodes: seq<Node>, a: seq<BvhPrimitive>, D: nat,
                              st: seq<nat>, ds: seq<nat>)
  {
    && |ds| == |st|
    && forall p {:trigger st[p]} :: 0 <= p < |st| ==> st[p] < |nodes| && TreeOK(cfg, nodes, a, st[p], ds[p], D) && p < cfg.width * ds[p]
  }

  ghost predicate InNodeStack(nodes: seq<Node>, st: seq<nat>, i: nat)
  {
    exists p :: 0 <= p < |st| && st[p] < |nodes| && nodes[st[p]].Span().Contains(i)
  }

  /** What the child loop of IsOccluded reports: the slots whose box the ray
      enters at distance 0 or more, in increasing slot order, their children
      pushed from position base on. */
  ghost predicate PushedInOrder(nodes: seq<Node>, k: nat, ray: Ray, st: seq<nat>, base: nat, order: seq<nat>)
    requires k < |nodes|
  {
    && |st| == base + |order|
    && (forall t :: 0 <= t < |order| ==> order[t] < nodes[k].childCnt)
    && (forall t1, t2 :: 0 <= t1 < t2 < |order| ==> order[t1] < order[t2])
    && (forall t :: 0 <= t < |order| ==> order[t] < |nodes[k].children| && st[base + t] == nodes[k].children[order[t]])
    && (forall j :: 0 <= j < nodes[k].childCnt && j < |nodes[k].bbox| ==>
          (0.0 <= ray.entry(nodes[k].bbox[j]) <==> j in order))
  }

  lemma {:induction false} ExpandNodesOK(cfg: Config, nodes: seq<Node>, a: seq<BvhPrimitive>, D: nat, ray: Ray,
                                         st: seq<nat>, ds: seq<nat>, st': seq<nat>, order: seq<nat>)
    requires NodeStackOK(cfg, nodes, a, D, st, ds) && |st| > 0
    requires var k := st[|st| - 1]; k < |nodes| && nodes[k].childCnt > 0
    requires |st| - 1 <= |st'| && st'[..|st| - 1] == st[..|st| - 1]
    requires PushedInOrder(nodes, st[|st| - 1], ray, st', |st| - 1, order)
    ensures ds[|st| - 1] < D
    ensures NodeStackOK(cfg, nodes, a, D, st', ds[..|st| - 1] + Repeat(|order|, ds[|st| - 1] + 1))
  {
    var n := |st| - 1;
    var k, d := st[n], ds[n];
    var dc := d + 1;
    var ds' := ds[..n] + Repeat(|order|, dc);
    var node := nodes[k];
    assert TreeOK(cfg, nodes, a, node.children[0], dc, D);
    assert |order| <= node.childCnt <= cfg.width by {
      forall t1, t2 | 0 <= t1 < t2 < |order| ensures order[t1] != order[t2] {
      }
      OrderBound(order, node.childCnt);
    }
    forall p | 0 <= p < |st'|
      ensures st'[p] < |nodes| && TreeOK(cfg, nodes, a, st'[p], ds'[p], D) && p < cfg.width * ds'[p]
    {
      if p < n {
        assert st'[p] == st[p] && ds'[p] == ds[p];
      } else {
        var t := p - n;
        var j := order[t];
        assert st'[n + t] == node.children[j];
        assert ds'[p] == dc;
        assert TreeOK(cfg, nodes, a, node.children[j], dc, D);
        StackRoom(cfg.width, d, D, n, |order|);
      }
    }
  }

  lemma ExpandNodesCovers(cfg: Config, nodes: seq<Node>, a: seq<BvhPrimitive>, D: nat, ray: Ray,
                          k: nat, d: nat, st': seq<nat>, base: nat, order: seq<nat>, i: nat)
    requires TreeOK(cfg, nodes, a, k, d, D) && nodes[k].childCnt > 0
    requires PushedInOrder(nodes, k, ray, st', base, order)
    requires Conservative(ray) && WrappersOwnBoxes(a)
    requires nodes[k].Span().Contains(i) && ray.hit(a[i].primitive).Some?
    ensures InNodeStack(nodes, st', i)
  {
    var j := ChildWithIndex(cfg, nodes, a, k, d, D, i);
    var node := nodes[k];
    HitWithinEntry(ray, a, node.bbox[j], nodes[node.children[j]].Span(), i);
    assert j in order;
    var t :| 0 <= t < |order| && order[t] == j;
    assert st'[base + t] == node.children[j];
  }

  /** The closest-hit loop state: a good stack, and when a record is kept
      (tracked) and the ray is conservative, every primitive hit nearer than
      the record's t lies under a node on the stack. */
  ghost predicate ClosestState(cfg: Config, nodes: seq<Node>, a: seq<BvhPrimitive>, D: nat, ray: Ray,
                               tracked: bool, t: real, st: seq<Entry>, ds: seq<nat>, boxes: seq<BBox>)
  {
    && StackOK(cfg, nodes, a, D, ray, st, ds, boxes)
    && (tracked && Conservative(ray) ==> Covers(nodes, a, ray, t, st))
  }

  /** Skipping a node the ray enters beyond the record's t. */
  lemma ClosestSkip(cfg: Config, nodes: seq<Node>, a: seq<BvhPrimitive>, D: nat, ray: Ray,
                    t: real, n: nat, st: seq<Entry>, ds: seq<nat>, boxes: seq<BBox>)
    requires ClosestState(cfg, nodes, a, D, ray, true, t, st, ds, boxes) && n + 1 == |st|
    requires WrappersOwnBoxes(a) && t < st[n].1
    ensures ClosestState(cfg, nodes, a, D, ray, true, t, st[..n], ds[..n], boxes[..n])
    ensures Weight(ds[..n], D, cfg.width + 1) < Weight(ds, D, cfg.width + 1)
  {
    assert EntryOK(cfg, nodes, a, D, ray, st[n], ds[n], boxes[n]);
    StackPop(cfg, nodes, a, D, ray, st, ds, boxes);
    WeightPop(ds, D, cfg.width + 1);
    if Conservative(ray) {
      SkipCovers(nodes, a, ray, t, st, boxes[n]);
    }
  }

  /** Testing the primitives of a leaf, after which none of them is hit
      nearer than t' <= t. */
  lemma ClosestLeafDone(cfg: Config, nodes: seq<Node>, a: seq<BvhPrimitive>, D: nat, ray: Ray,
                        tracked: bool, t: real, t': real, n: nat, st: seq<Entry>, ds: seq<nat>, boxes: seq<BBox>)
    requires ClosestState(cfg, nodes, a, D, ray, tracked, t, st, ds, boxes) && n + 1 == |st|
    requires tracked ==> t' <= t
    requires tracked ==> forall i :: nodes[st[n].0].Span().Contains(i) && i < |a| && ray.hit(a[i].primitive).Some? ==>
      t' <= ray.hit(a[i].primitive).value
    ensures ClosestState(cfg, nodes, a, D, ray, tracked, t', st[..n], ds[..n], boxes[..n])
    ensures Weight(ds[..n], D, cfg.width + 1) < Weight(ds, D, cfg.width + 1)
  {
    assert EntryOK(cfg, nodes, a, D, ray, st[n], ds[n], boxes[n]);
    StackPop(cfg, nodes, a, D, ray, st, ds, boxes);
    WeightPop(ds, D, cfg.width + 1);
    if tracked && Conservative(ray) {
      LeafDoneCovers(nodes, a, ray, t, t', st);
    }
  }

  /** Replacing an inner node at the top of the stack by the children pushed
      nearest first. */
  lemma ClosestExpand(cfg: Config, nodes: seq<Node>, a: seq<BvhPrimitive>, D: nat, ray: Ray,
                      tracked: bool, t: real, st: seq<Entry>, ds: seq<nat>, boxes: seq<BBox>,
                      st': seq<Entry>, order: seq<nat>)
    returns (ds': seq<nat>, boxes': seq<BBox>)
    requires ClosestState(cfg, nodes, a, D, ray, tracked, t, st, ds, boxes) && |st| > 0
    requires var k := st[|st| - 1].0; k < |nodes| && nodes[k].childCnt > 0
    requires |st| - 1 <= |st'| && st'[..|st| - 1] == st[..|st| - 1]
    requires PushedNearestFirst(nodes, st[|st| - 1].0, ray, st', |st| - 1, order)
    requires WrappersOwnBoxes(a)
    ensures |ds| == |st| && ds[|ds| - 1] < D && |order| <= cfg.width
    ensures ds' == ds[..|ds| - 1] + Repeat(|order|, ds[|ds| - 1] + 1)
    ensures boxes' == boxes[..|st| - 1] + SlotBoxes(nodes[st[|st| - 1].0], order)
    ensures ClosestState(cfg, nodes, a, D, ray, tracked, t, st', ds', boxes')
  {
    var n := |st| - 1;
    ds' := ds[..n] + Repeat(|order|, ds[n] + 1);
    boxes' := boxes[..n] + SlotBoxes(nodes[st[n].0], order);
    ExpandOK(cfg, nodes, a, D, ray, n, st, ds, boxes, st', order);
    if tracked && Conservative(ray) {
      ExpandKeepsCover(cfg, nodes, a, D, ray, t, st, ds, boxes, st', order);
    }
  }

  /** The occlusion loop state: a good stack, and when the ray is
      conservative every primitive it hits lies under a node on the stack. */
  ghost predicate OccludedState(cfg: Config, nodes: seq<Node>, a: seq<BvhPrimitive>, D: nat, ray: Ray,
                                st: seq<nat>, ds: seq<nat>)
  {
    && NodeStackOK(cfg, nodes, a, D, st, ds)
    && (Conservative(ray) ==> NodeCovers(nodes, a, ray, st))
  }

  /** Popping a leaf none of whose primitives the ray hits. */
  lemma OccludedLeafDone(cfg: Config, nodes: seq<Node>, a: seq<BvhPrimitive>, D: nat, ray: Ray,
                         n: nat, st: seq<nat>, ds: seq<nat>)
    requires OccludedState(cfg, nodes, a, D, ray, st, ds) && n + 1 == |st|
    requires forall i :: nodes[st[n]].Span().Contains(i) && i < |a| ==> ray.hit(a[i].primitive).None?
    ensures OccludedState(cfg, nodes, a, D, ray, st[..n], ds[..n])
    ensures Weight(ds[..n], D, cfg.width + 1) < Weight(ds, D, cfg.width + 1)
  {
    NodeStackPop(cfg, nodes, a, D, st, ds);
    WeightPop(ds, D, cfg.width + 1);
    if Conservative(ray) {
      NodeLeafDoneCovers(nodes, a, ray, st);
    }
  }

  /** Replacing an inner node at the top of the stack by the children the
      ray enters. */
  lemma OccludedExpand(cfg: Config, nodes: seq<Node>, a: seq<BvhPrimitive>, D: nat, ray: Ray,
                       st: seq<nat>, ds: seq<nat>, st': seq<nat>, order: seq<nat>)
    returns (ds': seq<nat>)
    requires OccludedState(cfg, nodes, a, D, ray, st, ds) && |st| > 0
    requires var k := st[|st| - 1]; k < |nodes| && nodes[k].childCnt > 0
    requires |st| - 1 <= |st'| && st'[..|st| - 1] == st[..|st| - 1]
    requires PushedInOrder(nodes, st[|st| - 1], ray, st', |st| - 1, order)
    requires WrappersOwnBoxes(a)
    ensures |ds| == |st| && ds[|ds| - 1] < D && |order| <= cfg.width
    ensures ds' == ds[..|ds| - 1] + Repeat(|order|, ds[|ds| - 1] + 1)
    ensures OccludedState(cfg, nodes, a, D, ray, st', ds')
  {
    var n := |st| - 1;
    var k, d := st[n], ds[n];
    ds' := ds[..n] + Repeat(|order|, d + 1);
    assert TreeOK(cfg, nodes, a, k, d, D);
    ExpandNodesOK(cfg, nodes, a, D, ray, st, ds, st', order);
    forall t1, t2 | 0 <= t1 < t2 < |order| ensures order[t1] != order[t2] {
    }
    OrderBound(order, nodes[k].childCnt);
    if Conservative(ray) {
      NodeExpandKeepsCover(cfg, nodes, a, D, ray, st, d, st', order);
    }
  }
}
