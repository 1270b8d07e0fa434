/** Half-open ranges of primitive indices and tilings of a range by sub-ranges:
    the shape of a node's children in the primitive array. */
module Ranges {
  /** The indices start .. end - 1 of the primitive array. */
  datatype Range = Range(start: nat, end: nat) {
    predicate Contains(i: int) { start <= i < end }
    function Size(): int { end - start }
  }

  predicate Disjoint(r: Range, s: Range)
  {
    r.end <= s.start || s.end <= r.start
  }

  /** Some range of `rs` includes index `x`. */
  ghost predicate Covered(rs: multiset<Range>, x: int)
  {
    exists r :: r in rs && r.Contains(x)
  }

  /** `rs` splits [lo, hi) into non-empty, pairwise disjoint ranges, each once. */
  ghost predicate Tiling(rs: multiset<Range>, lo: nat, hi: nat)
  {
    && (forall r :: r in rs ==> r.start < r.end && lo <= r.start && r.end <= hi)
    && (forall r :: r in rs ==> rs[r] == 1)
    && (forall r, s :: r in rs && s in rs && r != s ==> Disjoint(r, s))
    && (forall x :: lo <= x < hi ==> Covered(rs, x))
  }

  lemma TilingSingle(lo: nat, hi: nat)
    requires lo < hi
    ensures Tiling(multiset{Range(lo, hi)}, lo, hi)
  {
    forall x | lo <= x < hi ensures Covered(multiset{Range(lo, hi)}, x) {
      assert Range(lo, hi).Contains(x);
    }
  }

  /** Splitting one range of a tiling at an interior point gives a tiling. */
  lemma TilingSplit(rs: multiset<Range>, lo: nat, hi: nat, r: Range, mid: nat)
    requires Tiling(rs, lo, hi) && r in rs && r.start < mid < r.end
    ensures Tiling(rs - multiset{r} + multiset{Range(r.start, mid), Range(mid, r.end)}, lo, hi)
  {
    var a, b := Range(r.start, mid), Range(mid, r.end);
    var rest := rs - multiset{r};
    var rs' := rest + multiset{a, b};
    assert a != r && !Disjoint(a, r);
    assert b != r && !Disjoint(b, r);
    assert a !in rs && b !in rs;
    assert !Disjoint(a, b) ==> false;
    forall s | s in rs' ensures s.start < s.end && lo <= s.start && s.end <= hi {
      if s != a && s != b { assert s in rs; }
    }
    forall s | s in rs' ensures rs'[s] == 1 {
      if s != a && s != b { assert s in rest && rest[s] == 1; }
    }
    forall s, t | s in rs' && t in rs' && s != t ensures Disjoint(s, t) {
      if s != a && s != b { assert s in rest && s != r; }
      if t != a && t != b { assert t in rest && t != r; }
    }
    forall x | lo <= x < hi ensures Covered(rs', x) {
      assert Covered(rs, x);
      var s :| s in rs && s.Contains(x);
      if s == r {
        if x < mid { assert a in rs' && a.Contains(x); } else { assert b in rs' && b.Contains(x); }
      } else {
        assert s in rest;
        assert s in rs';
      }
    }
  }

  /** The parts of a tiling by two or more ranges are each smaller than the whole. */
  lemma TilingPartsSmaller(rs: multiset<Range>, lo: nat, hi: nat, r: Range)
    requires Tiling(rs, lo, hi) && r in rs && |rs| >= 2
    ensures r.Size() < hi - lo
  {
    var rest := rs - multiset{r};
    assert |rest| == |rs| - 1;
    assert rest != multiset{};
    var s :| s in rest;
    assert s != r by { assert rest[r] == 0; }
  }

  /** Two positions of a sequence holding the same value count twice in its multiset. */
  lemma MultisetTwice<T>(xs: seq<T>, i: nat, j: nat)
    requires i < j < |xs| && xs[i] == xs[j]
    ensures multiset(xs)[xs[i]] >= 2
  {
    assert xs == xs[..i] + [xs[i]] + xs[i+1..j] + [xs[j]] + xs[j+1..];
  }

  /** The sequence form of a tiling, by position: the ranges are non-empty,
      inside [lo, hi), pairwise disjoint, and cover [lo, hi). */
  ghost predicate Tiles(rs: seq<Range>, lo: nat, hi: nat)
  {
    && (forall j :: 0 <= j < |rs| ==> rs[j].start < rs[j].end && lo <= rs[j].start && rs[j].end <= hi)
    && (forall j1, j2 :: 0 <= j1 < j2 < |rs| ==> Disjoint(rs[j1], rs[j2]))
    && (forall x :: lo <= x < hi ==> CoveredAt(rs, x))
  }

  /** Some range of `rs` includes index `x`. */
  ghost predicate CoveredAt(rs: seq<Range>, x: int)
  {
    exists j :: 0 <= j < |rs| && rs[j].Contains(x)
  }

  /** An index of a tiled range lies in exactly one of the ranges. */
  lemma TilesUnique(rs: seq<Range>, lo: nat, hi: nat, j1: nat, j2: nat, x: int)
    requires Tiles(rs, lo, hi) && j1 < |rs| && j2 < |rs| && rs[j1].Contains(x) && rs[j2].Contains(x)
    ensures j1 == j2
  {
  }

  /** A sequence whose multiset is a tiling tiles by position. */
  lemma TilingTiles(rs: seq<Range>, lo: nat, hi: nat)
    requires Tiling(multiset(rs), lo, hi)
    ensures Tiles(rs, lo, hi)
  {
    forall j | 0 <= j < |rs| ensures rs[j].start < rs[j].end && lo <= rs[j].start && rs[j].end <= hi {
      assert rs[j] in multiset(rs);
    }
    forall j1, j2 | 0 <= j1 < j2 < |rs| ensures Disjoint(rs[j1], rs[j2]) {
      assert rs[j1] in multiset(rs) && rs[j2] in multiset(rs);
      if rs[j1] == rs[j2] {
        MultisetTwice(rs, j1, j2);
      }
    }
    forall x | lo <= x < hi ensures CoveredAt(rs, x) {
      assert Covered(multiset(rs), x);
      var r: Range :| r in multiset(rs) && r.Contains(x);
      var j :| 0 <= j < |rs| && rs[j] == r;
    }
  }
}
