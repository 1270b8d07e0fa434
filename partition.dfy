/** std::partition over a range of the primitive array, with the split test
    of the SAH build: a primitive goes first when its centroid lies below the
    split position on the split axis. */
module Partition {
  import opened Geometry

  /** The compare lambda of the split: centroid[axis] < pos. */
  predicate Left(p: BvhPrimitive, axis: Axis, pos: real)
  {
    p.centroid.Coord(axis) < pos
  }

  /** Reorders a[lo..hi] so that the primitives passing the split test come
      first; mid is the first position of the rest. The range keeps its
      elements and nothing outside it changes. */
  method PartitionRange(a: array<BvhPrimitive>, lo: nat, hi: nat, axis: Axis, pos: real) returns (mid: nat)
    requires lo <= hi <= a.Length
    modifies a
    ensures lo <= mid <= hi
    ensures forall i :: lo <= i < mid ==> Left(a[i], axis, pos)
    ensures forall i :: mid <= i < hi ==> !Left(a[i], axis, pos)
    ensures multiset(a[lo..hi]) == multiset(old(a[lo..hi]))
    ensures forall i :: 0 <= i < a.Length && !(lo <= i < hi) ==> a[i] == old(a[i])
  {
    var i, j := lo, hi;
    while i < j
      invariant lo <= i <= j <= hi
      invariant forall t :: lo <= t < i ==> Left(a[t], axis, pos)
      invariant forall t :: j <= t < hi ==> !Left(a[t], axis, pos)
      invariant multiset(a[lo..hi]) == multiset(old(a[lo..hi]))
      invariant forall t :: 0 <= t < a.Length && !(lo <= t < hi) ==> a[t] == old(a[t])
      decreases j - i
    {
      if Left(a[i], axis, pos) {
        i := i + 1;
      } else {
        j := j - 1;
        ghost var before := a[..];
        a[i], a[j] := a[j], a[i];
        SwapInRange(before, a[..], lo, hi, i, j);
      }
    }
    mid := i;
  }

  /** Exchanging two elements of a range keeps the range's multiset. */
  lemma SwapInRange<T>(s: seq<T>, s': seq<T>, lo: nat, hi: nat, i: nat, j: nat)
    requires lo <= i < hi && lo <= j < hi && hi <= |s|
    requires s' == s[i := s[j]][j := s[i]]
    ensures multiset(s'[lo..hi]) == multiset(s[lo..hi])
  {
    var r := s[lo..hi];
    assert s'[lo..hi] == r[i - lo := r[j - lo]][j - lo := r[i - lo]];
    var r1 := r[i - lo := r[j - lo]];
    assert multiset(r1) == multiset(r) - multiset{r[i - lo]} + multiset{r[j - lo]};
  }

  /** Changing only a sub-range [s, e) of [lo, hi), and keeping that
      sub-range's multiset, keeps the multiset of [lo, hi). */
  lemma MultisetWithin<T>(x: seq<T>, y: seq<T>, lo: nat, s: nat, e: nat, hi: nat)
    requires lo <= s <= e <= hi <= |x| == |y|
    requires forall t :: lo <= t < hi && !(s <= t < e) ==> x[t] == y[t]
    requires multiset(x[s..e]) == multiset(y[s..e])
    ensures multiset(x[lo..hi]) == multiset(y[lo..hi])
  {
    assert x[lo..hi] == x[lo..s] + x[s..e] + x[e..hi];
    assert y[lo..hi] == y[lo..s] + y[s..e] + y[e..hi];
    assert x[lo..s] == y[lo..s];
    assert x[e..hi] == y[e..hi];
  }
}
