/** The invariant of the multi-hit traversal, which collects into a
    BSSRDFIntersections container the hits of the primitives of one material:
    the stack is good, the container holds hits of such primitives, its
    distance bookkeeping is right, and every such hit the container has not
    settled lies under a node on the stack. */
module MultiHit {
  import opened Wrappers
  import opened Geometry
  import opened Ranges
  import opened BvhTree
  import opened Traversal
  import opened Sss

  /** Primitive p has material mat and the ray hits it nearer than FLT_MAX,
      the distance of a reset record, so that the test reports the hit. */
  ghost predicate Matches(ray: Ray, mat: nat, p: Primitive)
  {
    p.materialId == mat && ray.hit(p).Some? && ray.hit(p).value < FLT_MAX
  }

  /** The record the test of a hit primitive leaves behind. */
  function HitOf(ray: Ray, p: Primitive): Hit
    requires ray.hit(p).Some?
  {
    Hit(ray.hit(p).value, Some(p))
  }

  /** x is the hit of a primitive of the array with material mat. */
  ghost predicate Recorded(a: seq<BvhPrimitive>, ray: Ray, mat: nat, x: Hit)
  {
    exists i :: 0 <= i < |a| && Matches(ray, mat, a[i].primitive) && x == HitOf(ray, a[i].primitive)
  }

  /** Every hit of material mat that s has not settled lies under a node on the stack. */
  ghost predicate MultiCovers(nodes: seq<Node>, a: seq<BvhPrimitive>, ray: Ray, mat: nat, K: nat,
                              s: seq<Hit>, st: seq<Entry>)
  {
    forall i :: 0 <= i < |a| && Matches(ray, mat, a[i].primitive) && !Settled(s, K, HitOf(ray, a[i].primitive)) ==>
      InStack(nodes, st, i)
  }

  /** What the container holds: at most K hits of material mat, with the
      distance bookkeeping of maxt. */
  ghost predicate Collected(a: seq<BvhPrimitive>, ray: Ray, mat: nat, K: nat, s: seq<Hit>, maxt: real)
  {
    && 1 <= K && |s| <= K
    && MaxtOK(s, K, maxt)
    && (forall x :: x in s ==> Recorded(a, ray, mat, x))
  }

  /** The multi-hit loop state. */
  ghost predicate MultiState(cfg: Config, nodes: seq<Node>, a: seq<BvhPrimitive>, D: nat, ray: Ray, mat: nat,
                             K: nat, s: seq<Hit>, maxt: real, st: seq<Entry>, ds: seq<nat>, boxes: seq<BBox>)
  {
    && StackOK(cfg, nodes, a, D, ray, st, ds, boxes)
    && Collected(a, ray, mat, K, s, maxt)
    && (Conservative(ray) ==> MultiCovers(nodes, a, ray, mat, K, s, st))
  }

  /** A primitive in the range of a node the ray enters beyond maxt is settled. */
  lemma SkippedSettled(a: seq<BvhPrimitive>, ray: Ray, mat: nat, K: nat, s: seq<Hit>, maxt: real,
                       box: BBox, r: Range, i: nat)
    requires Collected(a, ray, mat, K, s, maxt) && Conservative(ray) && WrappersOwnBoxes(a)
    requires Bounds(box, a, r) && maxt < ray.entry(box)
    requires i < |a| && r.Contains(i) && Matches(ray, mat, a[i].primitive)
    ensures Settled(s, K, HitOf(ray, a[i].primitive))
  {
    HitWithinEntry(ray, a, box, r, i);
    BeyondMaxtSettled(s, K, maxt, HitOf(ray, a[i].primitive));
  }

  /** Skipping a node the ray enters beyond maxt. */
  lemma MultiSkip(cfg: Config, nodes: seq<Node>, a: seq<BvhPrimitive>, D: nat, ray: Ray, mat: nat,
                  K: nat, s: seq<Hit>, maxt: real, n: nat, st: seq<Entry>, ds: seq<nat>, boxes: seq<BBox>)
    requires MultiState(cfg, nodes, a, D, ray, mat, K, s, maxt, st, ds, boxes) && n + 1 == |st|
    requires WrappersOwnBoxes(a) && maxt < st[n].1
    ensures MultiState(cfg, nodes, a, D, ray, mat, K, s, maxt, st[..n], ds[..n], boxes[..n])
    ensures Weight(ds[..n], D, cfg.width + 1) < Weight(ds, D, cfg.width + 1)
  {
    assert EntryOK(cfg, nodes, a, D, ray, st[n], ds[n], boxes[n]);
    StackPop(cfg, nodes, a, D, ray, st, ds, boxes);
    WeightPop(ds, D, cfg.width + 1);
    if Conservative(ray) {
      forall i | 0 <= i < |a| && Matches(ray, mat, a[i].primitive) && !Settled(s, K, HitOf(ray, a[i].primitive))
        ensures InStack(nodes, st[..n], i)
      {
        if nodes[st[n].0].Span().Contains(i) {
          SkippedSettled(a, ray, mat, K, s, maxt, boxes[n], nodes[st[n].0].Span(), i);
        }
        PopKeeps(nodes, st, i);
      }
    }
  }

  /** Testing the primitives of a leaf: the container went from s to s',
      settling every hit it had settled and every matching hit of the leaf. */
  lemma MultiLeafDone(cfg: Config, nodes: seq<Node>, a: seq<BvhPrimitive>, D: nat, ray: Ray, mat: nat,
                      K: nat, s: seq<Hit>, maxt: real, s': seq<Hit>, maxt': real,
                      n: nat, st: seq<Entry>, ds: seq<nat>, boxes: seq<BBox>)
    requires MultiState(cfg, nodes, a, D, ray, mat, K, s, maxt, st, ds, boxes) && n + 1 == |st|
    requires Collected(a, ray, mat, K, s', maxt')
    requires forall g :: Settled(s, K, g) ==> Settled(s', K, g)
    requires forall i :: nodes[st[n].0].Span().Contains(i) && i < |a| && Matches(ray, mat, a[i].primitive) ==>
      Settled(s', K, HitOf(ray, a[i].primitive))
    ensures MultiState(cfg, nodes, a, D, ray, mat, K, s', maxt', st[..n], ds[..n], boxes[..n])
    ensures Weight(ds[..n], D, cfg.width + 1) < Weight(ds, D, cfg.width + 1)
  {
    assert EntryOK(cfg, nodes, a, D, ray, st[n], ds[n], boxes[n]);
    StackPop(cfg, nodes, a, D, ray, st, ds, boxes);
    WeightPop(ds, D, cfg.width + 1);
    if Conservative(ray) {
      forall i | 0 <= i < |a| && Matches(ray, mat, a[i].primitive) && !Settled(s', K, HitOf(ray, a[i].primitive))
        ensures InStack(nodes, st[..n], i)
      {
        PopKeeps(nodes, st, i);
      }
    }
  }

  /** Replacing an inner node at the top of the stack by the children pushed
      nearest first. */
  lemma MultiExpand(cfg: Config, nodes: seq<Node>, a: seq<BvhPrimitive>, D: nat, ray: Ray, mat: nat,
                    K: nat, s: seq<Hit>, maxt: real, st: seq<Entry>, ds: seq<nat>, boxes: seq<BBox>,
                    st': seq<Entry>, order: seq<nat>)
    returns (ds': seq<nat>, boxes': seq<BBox>)
    requires MultiState(cfg, nodes, a, D, ray, mat, K, s, maxt, st, ds, boxes) && |st| > 0
    requires var k := st[|st| - 1].0; k < |nodes| && nodes[k].childCnt > 0
    requires |st| - 1 <= |st'| && st'[..|st| - 1] == st[..|st| - 1]
    requires PushedNearestFirst(nodes, st[|st| - 1].0, ray, st', |st| - 1, order)
    requires WrappersOwnBoxes(a)
    ensures |ds| == |st| && ds[|ds| - 1] < D && |order| <= cfg.width
    ensures ds' == ds[..|ds| - 1] + Repeat(|order|, ds[|ds| - 1] + 1)
    ensures boxes' == boxes[..|st| - 1] + SlotBoxes(nodes[st[|st| - 1].0], order)
    ensures MultiState(cfg, nodes, a, D, ray, mat, K, s, maxt, st', ds', boxes')
  {
    var n := |st| - 1;
    ds' := ds[..n] + Repeat(|order|, ds[n] + 1);
    boxes' := boxes[..n] + SlotBoxes(nodes[st[n].0], order);
    ExpandOK(cfg, nodes, a, D, ray, n, st, ds, boxes, st', order);
    if Conservative(ray) {
      assert EntryOK(cfg, nodes, a, D, ray, st[n], ds[n], boxes[n]);
      forall i | 0 <= i < |a| && Matches(ray, mat, a[i].primitive) && !Settled(s, K, HitOf(ray, a[i].primitive))
        ensures InStack(nodes, st', i)
      {
        if nodes[st[n].0].Span().Contains(i) {
          ExpandCovers(cfg, nodes, a, D, ray, st[n].0, ds[n], st', n, order, i);
        } else {
          PopKeeps(nodes, st, i);
          PrefixInStack(nodes, st[..n], st', i);
        }
      }
    }
  }

  /** Offering the hit of a matching primitive to the container keeps what it
      holds, settles that hit and keeps every settled hit settled. */
  lemma OfferKept(a: seq<BvhPrimitive>, ray: Ray, mat: nat, K: nat, s: seq<Hit>, maxt: real, i: nat)
    requires Collected(a, ray, mat, K, s, maxt) && i < |a| && Matches(ray, mat, a[i].primitive)
    ensures var h := HitOf(ray, a[i].primitive); var s' := InsertNearest(s, K, h);
      && Collected(a, ray, mat, K, s', if |s| < K then maxt else MaxT(s'))
      && Settled(s', K, h)
      && (forall g :: Settled(s, K, g) ==> Settled(s', K, g))
  {
    var h := HitOf(ray, a[i].primitive);
    var s' := InsertNearest(s, K, h);
    InsertKeepsMaxt(s, K, maxt, h);
    InsertSettles(s, K, h);
    forall g | Settled(s, K, g) ensures Settled(s', K, g) {
      InsertKeepsSettled(s, K, h, g);
    }
    forall x | x in s' ensures Recorded(a, ray, mat, x) {
      if x == h {
        assert Matches(ray, mat, a[i].primitive) && x == HitOf(ray, a[i].primitive);
      }
    }
  }
}
