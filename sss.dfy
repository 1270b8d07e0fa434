/** The container the multi-hit query fills for subsurface scattering: at
    most K intersection records, and maxt, the largest distance stored once
    the container is full. K is the compile-time constant
    TOTAL_SSS_INTERSECTION_CNT, whose definition is not part of this model. */
module Sss {
  import opened Wrappers
  import opened Geometry

  /** A stored intersection record, by the two fields the query writes and
      reads: the hit distance and the primitive hit. */
  datatype Hit = Hit(t: real, primitive: Option<Primitive>)

  /** The state of a freshly constructed record. */
  const NoHit: Hit := Hit(FLT_MAX, None)

  /** The largest stored distance. */
  function MaxT(s: seq<Hit>): (m: real)
    requires |s| > 0
    ensures forall i :: 0 <= i < |s| ==> s[i].t <= m
    ensures exists i :: 0 <= i < |s| && s[i].t == m
  {
    if |s| == 1 then s[0].t
    else
      var m' := MaxT(s[..|s| - 1]);
      assert forall i :: 0 <= i < |s| - 1 ==> s[..|s| - 1][i] == s[i];
      Max(m', s[|s| - 1].t)
  }

  /** The first position holding distance m. */
  function FirstAt(s: seq<Hit>, m: real): (p: nat)
    requires exists i :: 0 <= i < |s| && s[i].t == m
    ensures p < |s| && s[p].t == m
    ensures forall i :: 0 <= i < p ==> s[i].t != m
  {
    if s[0].t == m then 0
    else
      assert exists i :: 0 <= i < |s[1..]| && s[1..][i].t == m by {
        var i :| 0 <= i < |s| && s[i].t == m;
        assert s[1..][i - 1] == s[i];
      }
      1 + FirstAt(s[1..], m)
  }

  /** The first position holding the largest stored distance. */
  function FirstMax(s: seq<Hit>): (p: nat)
    requires |s| > 0
  {
    FirstAt(s, MaxT(s))
  }

  /** The slot the source's eviction scan picks: starting from distance 0
      and no slot, every slot whose distance is larger than the best so far
      becomes the pick; so the first slot of the largest distance when that
      distance is above 0, and -1 (no slot) otherwise. */
  function PickedAsWritten(s: seq<Hit>): (p: int)
  {
    if |s| > 0 && 0.0 < MaxT(s) then FirstMax(s) else -1
  }

  /** A new hit as the leaf loop of the multi-hit query stores it: appended
      while fewer than K are stored; otherwise it overwrites the picked slot,
      whatever its own distance. */
  function InsertAsWritten(s: seq<Hit>, K: nat, h: Hit): seq<Hit>
    requires |s| <= K
  {
    if |s| < K then s + [h]
    else
      var p := PickedAsWritten(s);
      if p >= 0 then s[p := h] else s
  }

  /** The insertion the container is meant to perform: appended while fewer
      than K are stored; otherwise it replaces the farthest stored hit when
      it is nearer than that one, and is dropped when it is not. */
  function InsertNearest(s: seq<Hit>, K: nat, h: Hit): (r: seq<Hit>)
    requires 1 <= K && |s| <= K
    ensures |r| == if |s| < K then |s| + 1 else K
    ensures forall x :: x in r ==> x in s || x == h
  {
    if |s| < K then s + [h]
    else if h.t < MaxT(s) then s[FirstMax(s) := h]
    else s
  }

  /** Hit h needs no more attention: it is stored, or the container is full
      of hits none of which is farther than h. */
  ghost predicate Settled(s: seq<Hit>, K: nat, h: Hit)
  {
    h in s || (|s| == K && |s| > 0 && MaxT(s) <= h.t)
  }

  /** A settled hit that is not stored is no nearer than any stored hit. */
  lemma SettledOutside(s: seq<Hit>, K: nat, h: Hit)
    requires Settled(s, K, h) && h !in s
    ensures |s| == K
    ensures forall x :: x in s ==> x.t <= h.t
  {
  }

  /** Inserting h settles h. */
  lemma InsertSettles(s: seq<Hit>, K: nat, h: Hit)
    requires 1 <= K && |s| <= K
    ensures Settled(InsertNearest(s, K, h), K, h)
  {
    if |s| == K && h.t < MaxT(s) {
      assert InsertNearest(s, K, h)[FirstMax(s)] == h;
    }
  }

  /** Replacing the farthest hit by a nearer one does not raise the largest distance. */
  lemma ReplaceFarthest(s: seq<Hit>, h: Hit)
    requires |s| > 0 && h.t < MaxT(s)
    ensures MaxT(s[FirstMax(s) := h]) <= MaxT(s)
  {
    var s' := s[FirstMax(s) := h];
    var i :| 0 <= i < |s'| && s'[i].t == MaxT(s');
  }

  /** Inserting any hit keeps every settled hit settled. */
  lemma InsertKeepsSettled(s: seq<Hit>, K: nat, h: Hit, g: Hit)
    requires 1 <= K && |s| <= K && Settled(s, K, g)
    ensures Settled(InsertNearest(s, K, h), K, g)
  {
    var r := InsertNearest(s, K, h);
    if |s| < K {
      assert g in s;
      assert r == s + [h];
    } else if h.t < MaxT(s) {
      var p := FirstMax(s);
      ReplaceFarthest(s, h);
      if g in s {
        var q :| 0 <= q < |s| && s[q] == g;
        if q != p {
          assert r[q] == g;
        }
      }
    }
  }

  /** The hits offered so far, one after the other, to an empty container. */
  function OfferAll(K: nat, hs: seq<Hit>): (r: seq<Hit>)
    requires 1 <= K
    ensures |r| == Min2(K, |hs|)
  {
    if |hs| == 0 then [] else InsertNearest(OfferAll(K, hs[..|hs| - 1]), K, hs[|hs| - 1])
  }

  function Min2(a: nat, b: nat): nat { if a < b then a else b }

  /** What the container is for: after any sequence of offers it holds
      min(K, offers) of the offered hits, and every offered hit is stored or
      no nearer than all stored ones, so the stored hits are K nearest ones. */
  lemma {:induction false} OfferAllKeepsNearest(K: nat, hs: seq<Hit>)
    requires 1 <= K
    ensures forall x :: x in OfferAll(K, hs) ==> x in hs
    ensures forall h :: h in hs ==> Settled(OfferAll(K, hs), K, h)
    decreases |hs|
  {
    if |hs| > 0 {
      var init, h := hs[..|hs| - 1], hs[|hs| - 1];
      var s := OfferAll(K, init);
      OfferAllKeepsNearest(K, init);
      assert hs == init + [h];
      InsertSettles(s, K, h);
      forall g | g in hs ensures Settled(OfferAll(K, hs), K, g) {
        if g != h {
          assert g in init;
          InsertKeepsSettled(s, K, h, g);
        }
      }
    }
  }

  /** The source's insertion, applied to a sequence of offers. */
  function OfferAllAsWritten(K: nat, hs: seq<Hit>): (r: seq<Hit>)
    ensures |r| == Min2(K, |hs|)
  {
    if |hs| == 0 then [] else InsertAsWritten(OfferAllAsWritten(K, hs[..|hs| - 1]), K, hs[|hs| - 1])
  }

  /** With room for two, offering hits at distances 1, 2 and 3 makes the
      source's insertion overwrite the hit at 2 with the farther one at 3:
      the hit at 2 is neither stored nor farther than the stored ones, while
      the intended insertion keeps the two nearest. */
  lemma AsWrittenEvictsNearer(p: Primitive)
    ensures var a, b, c := Hit(1.0, Some(p)), Hit(2.0, Some(p)), Hit(3.0, Some(p));
      && OfferAllAsWritten(2, [a, b, c]) == [a, c]
      && !Settled([a, c], 2, b)
      && OfferAll(2, [a, b, c]) == [a, b]
  {
    var a, b, c := Hit(1.0, Some(p)), Hit(2.0, Some(p)), Hit(3.0, Some(p));
    assert [a, b, c][..2] == [a, b] && [a, b][..1] == [a] && [a][..0] == [];
    assert OfferAllAsWritten(2, [a, b]) == [a, b];
    assert OfferAll(2, [a]) == [a];
    assert OfferAll(2, [a, b]) == [a, b];
    assert MaxT([a, b]) == 2.0 by {
      assert [a, b][..1] == [a];
    }
    assert FirstMax([a, b]) == 1 by {
      assert [a, b][1..] == [b];
    }
    assert MaxT([a, c]) == 3.0 by {
      assert [a, c][..1] == [a];
    }
  }

  /** The source's insertion and the intended one agree while there is room,
      and on a full container whose farthest stored hit is beyond 0 and
      farther than the new hit. */
  lemma AsWrittenAgrees(s: seq<Hit>, K: nat, h: Hit)
    requires 1 <= K && |s| <= K
    requires |s| < K || (0.0 < MaxT(s) && h.t < MaxT(s))
    ensures InsertAsWritten(s, K, h) == InsertNearest(s, K, h)
  {
  }

  /** On a full container whose farthest stored hit is beyond 0 and no
      farther than the new hit, the source's insertion still overwrites that
      farthest hit with the new one. When the new hit is strictly farther and
      the evicted hit was stored once, a hit that was settled is settled no
      more: it is gone, and a stored hit is now farther than it. */
  lemma AsWrittenEvicts(s: seq<Hit>, K: nat, h: Hit)
    requires 1 <= K && |s| == K && 0.0 < MaxT(s) <= h.t
    ensures InsertAsWritten(s, K, h) == s[FirstMax(s) := h]
    ensures MaxT(s) < h.t && (forall i :: 0 <= i < |s| && i != FirstMax(s) ==> s[i] != s[FirstMax(s)]) ==>
      Settled(s, K, s[FirstMax(s)]) && !Settled(InsertAsWritten(s, K, h), K, s[FirstMax(s)])
  {
    var p := FirstMax(s);
    var r := s[p := h];
    assert r[p] == h;
    if MaxT(s) < h.t && (forall i :: 0 <= i < |s| && i != p ==> s[i] != s[p]) {
      var x := s[p];
      assert x in s;
      assert h.t <= MaxT(r);
    }
  }

  /** The distance bookkeeping of the container: maxt stays FLT_MAX until
      the container first evicts, and bounds every stored distance, each of
      which is below FLT_MAX. */
  ghost predicate MaxtOK(s: seq<Hit>, K: nat, maxt: real)
  {
    && (|s| < K ==> maxt == FLT_MAX)
    && (forall i :: 0 <= i < |s| ==> s[i].t < FLT_MAX && s[i].t <= maxt)
  }

  /** A hit beyond maxt is settled. */
  lemma BeyondMaxtSettled(s: seq<Hit>, K: nat, maxt: real, h: Hit)
    requires MaxtOK(s, K, maxt) && |s| <= K && 1 <= K && h.t < FLT_MAX && maxt < h.t
    ensures Settled(s, K, h)
  {
  }

  /** BSSRDFIntersections: the K record slots, of which the first cnt are
      filled, and maxt. */
  class BssrdfIntersections {
    const K: nat
    const intersections: array<Hit>
    var cnt: nat
    var maxt: real

    ghost predicate Valid()
      reads this
    {
      1 <= K && intersections.Length == K && cnt <= K
    }

    /** The stored records. */
    ghost function Hits(): seq<Hit>
      reads this, intersections
      requires Valid()
    {
      intersections[..cnt]
    }

    /** An empty container with K slots. */
    constructor (K: nat)
      requires 1 <= K
      ensures Valid() && this.K == K && cnt == 0 && maxt == FLT_MAX && fresh(intersections)
    {
      this.K := K;
      intersections := new Hit[K](_ => NoHit);
      cnt := 0;
      maxt := FLT_MAX;
    }

    /** Stores a new hit (the body of the leaf loop's `if (intersected)`), with
        the eviction made conditional on the new hit being nearer; after an
        eviction attempt maxt is recomputed. */
    method Add(h: Hit)
      requires Valid()
      modifies this`cnt, this`maxt, intersections
      ensures Valid()
      ensures Hits() == InsertNearest(old(Hits()), K, h)
      ensures maxt == if old(cnt) < K then old(maxt) else MaxT(Hits())
    {
      if cnt < K {
        intersections[cnt] := h;
        cnt := cnt + 1;
        assert Hits() == old(Hits()) + [h];
      } else {
        var picked, t := FarthestSlot();
        if h.t < t {
          intersections[picked] := h;
          assert Hits() == old(Hits())[picked := h];
        }
        ResolveMaxDepth();
      }
    }

    /** The eviction scan of the intended insertion: the first slot of the
        largest stored distance. It starts from slot 0 and its distance, so
        it finds that slot even when no stored distance is above 0, where
        the source's scan (PickSlotAsWritten), started from no slot and
        distance 0, picks none. */
    method FarthestSlot() returns (picked: nat, t: real)
      requires Valid() && cnt == K
      ensures picked == FirstMax(Hits()) && t == MaxT(Hits())
    {
      ghost var s := Hits();
      picked, t := 0, intersections[0].t;
      for i := 1 to K
        invariant picked < i && t == s[picked].t
        invariant forall j :: 0 <= j < i ==> s[j].t <= t
        invariant forall j :: 0 <= j < picked ==> s[j].t < t
      {
        if t < intersections[i].t {
          t := intersections[i].t;
          picked := i;
        }
      }
      FirstAtUnique(s, t, picked);
    }

    /** The leaf loop's `if (intersected)` body as the source writes it:
        append while there is room; otherwise overwrite the slot the source's
        scan picks, whatever the new hit's distance, and recompute maxt. */
    method AddAsWritten(h: Hit)
      requires Valid()
      modifies this`cnt, this`maxt, intersections
      ensures Valid()
      ensures Hits() == InsertAsWritten(old(Hits()), K, h)
      ensures maxt == if old(cnt) < K then old(maxt) else MaxT(Hits())
    {
      if cnt < K {
        intersections[cnt] := h;
        cnt := cnt + 1;
        assert Hits() == old(Hits()) + [h];
      } else {
        var picked := PickSlotAsWritten();
        if picked >= 0 {
          intersections[picked] := h;
          assert Hits() == old(Hits())[picked := h];
        }
        ResolveMaxDepth();
      }
    }

    /** The source's eviction scan: it starts from no slot and distance 0,
        so it picks the first slot of the largest distance only when that
        distance is above 0, and no slot (-1) otherwise. */
    method PickSlotAsWritten() returns (picked: int)
      requires Valid() && cnt == K
      ensures picked == PickedAsWritten(Hits())
      ensures 0 <= picked ==> picked < cnt && 0.0 < intersections[picked].t
    {
      ghost var s := Hits();
      picked := -1;
      var t := 0.0;
      for i := 0 to K
        invariant -1 <= picked < i || (picked == -1 && i == 0)
        invariant picked == -1 ==> t == 0.0
        invariant 0 <= picked ==> t == s[picked].t && 0.0 < t
        invariant forall j :: 0 <= j < i ==> s[j].t <= t
        invariant forall j :: 0 <= j < picked ==> s[j].t < t
      {
        if t < intersections[i].t {
          t := intersections[i].t;
          picked := i;
        }
      }
      if picked >= 0 {
        FirstAtUnique(s, t, picked);
      } else {
        ghost var m :| 0 <= m < |s| && s[m].t == MaxT(s);
      }
    }

    /** ResolveMaxDepth: maxt becomes the largest stored distance. */
    method ResolveMaxDepth()
      requires Valid() && cnt >= 1
      modifies this`maxt
      ensures forall i :: 0 <= i < cnt ==> intersections[i].t <= maxt
      ensures exists i :: 0 <= i < cnt && intersections[i].t == maxt
      ensures maxt == MaxT(Hits())
    {
      maxt := MaxT(intersections[..cnt]);
    }
  }

  /** The position a scan finds for the largest distance is the first one. */
  lemma FirstAtUnique(s: seq<Hit>, m: real, p: nat)
    requires p < |s| && s[p].t == m
    requires forall j :: 0 <= j < |s| ==> s[j].t <= m
    requires forall j :: 0 <= j < p ==> s[j].t < m
    ensures MaxT(s) == m && FirstMax(s) == p
  {
    var i :| 0 <= i < |s| && s[i].t == MaxT(s);
    assert s[p].t <= MaxT(s);
  }

  /** Adding a hit nearer than FLT_MAX keeps the distance bookkeeping. */
  lemma InsertKeepsMaxt(s: seq<Hit>, K: nat, maxt: real, h: Hit)
    requires 1 <= K && |s| <= K && MaxtOK(s, K, maxt) && h.t < FLT_MAX
    ensures MaxtOK(InsertNearest(s, K, h), K, if |s| < K then maxt else MaxT(InsertNearest(s, K, h)))
  {
    var r := InsertNearest(s, K, h);
    if |s| < K {
      assert r == s + [h];
      forall i | 0 <= i < |r| ensures r[i].t < FLT_MAX && r[i].t <= maxt {
        if i < |s| { assert r[i] == s[i]; }
      }
    } else {
      forall i | 0 <= i < |r| ensures r[i].t < FLT_MAX {
        assert r[i] in r;
      }
    }
  }
}
