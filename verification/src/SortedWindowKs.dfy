/**
  The second implementation of the sliding-window statistic: both windows are kept as sorted lists and the
  empirical distributions are read off by binary search.
 */
module SortedWindowKs {
  import opened PrefixSums
  import opened SortedLists
  import opened ValueKs

  function RemoveAt(s: seq<real>, i: nat): seq<real>
    requires i < |s|
  {
    s[..i] + s[i + 1..]
  }

  lemma RemoveAtMeaning(s: seq<real>, n: nat)
    requires n < |s|
    ensures Ascending(s) ==> Ascending(RemoveAt(s, n))
    ensures multiset(RemoveAt(s, n)) == multiset(s) - multiset{s[n]}
  {
    assert s == s[..n] + ([s[n]] + s[n + 1..]);
    assert multiset(s) == multiset(s[..n]) + (multiset{s[n]} + multiset(s[n + 1..]));
  }

  /** The element found by the left search for a member of the list is that member. */
  lemma RemoveMeaning(s: seq<real>, v: real)
    requires Ascending(s) && v in s
    ensures BisectLeft(s, v) < |s| && s[BisectLeft(s, v)] == v
    ensures Ascending(RemoveAt(s, BisectLeft(s, v)))
    ensures multiset(RemoveAt(s, BisectLeft(s, v))) == multiset(s) - multiset{v}
  {
    BisectLeftSplits(s, v);
    var i :| 0 <= i < |s| && s[i] == v;
    assert BisectLeft(s, v) <= i;
    RemoveAtMeaning(s, BisectLeft(s, v));
  }

  /** Largest absolute difference of the two searches over the given points. */
  function PeakBySearch(points: seq<real>, curSorted: seq<real>, refSorted: seq<real>): nat {
    if points == [] then 0 else
      var last := points[|points| - 1];
      var rest := PeakBySearch(points[..|points| - 1], curSorted, refSorted);
      var here := Abs(BisectRight(curSorted, last) - BisectRight(refSorted, last));
      if here > rest then here else rest
  }

  lemma {:induction false} PeakBySearchIsPeakOver(points: seq<real>, curSorted: seq<real>, refSorted: seq<real>,
                                                  cur: seq<real>, ref: seq<real>)
    requires Ascending(curSorted) && multiset(curSorted) == multiset(cur)
    requires Ascending(refSorted) && multiset(refSorted) == multiset(ref)
    ensures PeakBySearch(points, curSorted, refSorted) == PeakOver(points, cur, ref)
  {
    if points != [] {
      var n := |points| - 1;
      PeakBySearchIsPeakOver(points[..n], curSorted, refSorted, cur, ref);
      BisectRightCounts(curSorted, cur, points[n]);
      BisectRightCounts(refSorted, ref, points[n]);
    }
  }

  /** The peak only depends on which points there are, not on their order. */
  lemma PeakOverReordered(points: seq<real>, other: seq<real>, cur: seq<real>, ref: seq<real>)
    requires forall v :: v in points <==> v in other
    ensures PeakOver(points, cur, ref) == PeakOver(other, cur, ref)
  {
    PeakOverMeaning(points, cur, ref);
    PeakOverMeaning(other, cur, ref);
  }

  class VFastIKSSW {
    const W: nat
    var refSorted: seq<real>
    /** The current window in temporal order. */
    var cur: seq<real>
    var curSorted: seq<real>
    /** The reference window in temporal order. */
    ghost var ref: seq<real>

    ghost predicate Valid()
      reads this
    {
      && |cur| == |ref| == W
      && Ascending(curSorted) && multiset(curSorted) == multiset(cur)
      && Ascending(refSorted) && multiset(refSorted) == multiset(ref)
    }

    constructor (reference: seq<real>)
      ensures Valid() && cur == ref == reference && W == |reference|
    {
      W := |reference|;
      refSorted, curSorted := SortedCopy(reference), SortedCopy(reference);
      cur, ref := reference, reference;
    }

    method Increment(v: real)
      requires Valid() && W > 0
      modifies this
      ensures Valid() && cur == old(cur)[1..] + [v] && ref == old(ref)
    {
      var o, rest := cur[0], cur[1..];
      FirstAndRest(cur);
      assert o in multiset(curSorted);
      RemoveMeaning(curSorted, o);
      var without := RemoveAt(curSorted, BisectLeft(curSorted, o));
      InsortMeaning(without, v);
      assert multiset(without) == multiset(rest);
      assert multiset(Insort(without, v)) == multiset(rest + [v]);
      cur, curSorted := rest + [v], Insort(without, v);
    }

    /** The value-based statistic of the two windows. */
    method KS() returns (ks: real)
      requires Valid() && W > 0
      ensures ks == ValuePeak(cur, ref) as real / W as real
    {
      var merged := refSorted + curSorted;
      PeakBySearchIsPeakOver(merged, curSorted, refSorted, cur, ref);
      forall v ensures v in merged <==> v in ref + cur {
        assert v in refSorted <==> v in multiset(refSorted);
        assert v in ref <==> v in multiset(ref);
        assert v in curSorted <==> v in multiset(curSorted);
        assert v in cur <==> v in multiset(cur);
      }
      PeakOverReordered(merged, ref + cur, cur, ref);
      ks := PeakBySearch(merged, curSorted, refSorted) as real / W as real;
    }

    method Update()
      requires Valid()
      modifies this
      ensures Valid() && cur == old(cur) && ValuePeak(cur, ref) == 0
    {
      refSorted := curSorted;
      ref := cur;
      EqualWindows(cur);
    }
  }
}
