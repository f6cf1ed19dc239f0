/**
  The value-based KS statistic of two windows, and how the composite-key statistic of the treap
  relates to it.  Statistics are kept as integer peaks; dividing by the window size W gives KS.
 */
module ValueKs {
  import opened FlatList
  import opened PrefixSums
  import opened Counting
  import opened SortedLists

  /** Difference of the two empirical distributions at `v`, times W. */
  ghost function DiffAt(cur: seq<real>, ref: seq<real>, v: real): int {
    CountLe(cur, v) - CountLe(ref, v)
  }

  /** The same just below `v`. */
  ghost function DiffBelow(cur: seq<real>, ref: seq<real>, v: real): int {
    CountLt(cur, v) - CountLt(ref, v)
  }

  /** Largest absolute difference over the given points. */
  ghost function PeakOver(points: seq<real>, cur: seq<real>, ref: seq<real>): nat {
    if points == [] then 0 else
      var rest, here := PeakOver(points[..|points| - 1], cur, ref), Abs(DiffAt(cur, ref, points[|points| - 1]));
      if here > rest then here else rest
  }

  /** W times the value-based KS statistic: the largest difference over the merged sample. */
  ghost function ValuePeak(cur: seq<real>, ref: seq<real>): nat {
    PeakOver(ref + cur, cur, ref)
  }

  lemma {:induction false} PeakOverMeaning(points: seq<real>, cur: seq<real>, ref: seq<real>)
    ensures forall v :: v in points ==> Abs(DiffAt(cur, ref, v)) <= PeakOver(points, cur, ref)
    ensures PeakOver(points, cur, ref) == 0
      || exists v :: v in points && Abs(DiffAt(cur, ref, v)) == PeakOver(points, cur, ref)
  {
    if points != [] {
      var front, last := points[..|points| - 1], points[|points| - 1];
      PeakOverMeaning(front, cur, ref);
      assert points == front + [last];
    }
  }

  function Least(a: nat, b: nat): nat { if a < b then a else b }

  /** The largest number of copies a value has in both windows. */
  ghost function SharedCopies(points: seq<real>, cur: seq<real>, ref: seq<real>): nat {
    if points == [] then 0 else
      var v := points[|points| - 1];
      var rest, here := SharedCopies(points[..|points| - 1], cur, ref), Least(Copies(cur, v), Copies(ref, v));
      if here > rest then here else rest
  }

  ghost function LexBias(cur: seq<real>, ref: seq<real>): nat {
    SharedCopies(ref + cur, cur, ref)
  }

  lemma {:induction false} SharedCopiesMeaning(points: seq<real>, cur: seq<real>, ref: seq<real>)
    ensures forall v :: v in points ==> Least(Copies(cur, v), Copies(ref, v)) <= SharedCopies(points, cur, ref)
    ensures SharedCopies(points, cur, ref) == 0
      || exists v :: v in points && Least(Copies(cur, v), Copies(ref, v)) == SharedCopies(points, cur, ref)
  {
    if points != [] {
      var front, last := points[..|points| - 1], points[|points| - 1];
      SharedCopiesMeaning(front, cur, ref);
      assert points == front + [last];
    }
  }

  // ---------- keys drawn for two windows ----------

  function ValuesOf(keys: seq<Key>): seq<real> {
    seq(|keys|, i requires 0 <= i < |keys| => keys[i].value)
  }

  ghost predicate AllInGroup(keys: seq<Key>, group: int) {
    forall i :: 0 <= i < |keys| ==> keys[i].group == group
  }

  /** `keys` is what the treap holds for the windows `cur` and `ref`, with arbitrary tie-break numbers. */
  ghost predicate Drawn(keys: seq<Key>, sliding: seq<Key>, reference: seq<Key>, cur: seq<real>, ref: seq<real>) {
    && SortedKeys(keys)
    && multiset(keys) == multiset(sliding) + multiset(reference)
    && AllInGroup(sliding, GROUP_CURRENT) && AllInGroup(reference, GROUP_REFERENCE)
    && ValuesOf(sliding) == cur && ValuesOf(reference) == ref
  }

  /** Current (reference) keys that satisfy `p`. */
  function CurOf(p: Key -> bool): Key -> bool { (k: Key) => k.group == GROUP_CURRENT && p(k) }

  function RefOf(p: Key -> bool): Key -> bool { (k: Key) => k.group != GROUP_CURRENT && p(k) }

  function With(p: real -> bool): Key -> bool { (k: Key) => p(k.value) }

  function Any(): Key -> bool { (k: Key) => true }

  /** The difference over any keys, counted by group. */
  lemma {:induction false} GCounts(keys: seq<Key>)
    ensures G(keys) == Count(keys, CurOf(Any())) - Count(keys, RefOf(Any()))
  {
    if keys != [] { GCounts(keys[..|keys| - 1]); }
  }

  /** The current (reference) keys in the treap are those drawn for the sliding (reference) window. */
  lemma DrawnCounts(keys: seq<Key>, sliding: seq<Key>, reference: seq<Key>, cur: seq<real>, ref: seq<real>,
                    p: Key -> bool)
    requires Drawn(keys, sliding, reference, cur, ref)
    ensures Count(keys, CurOf(p)) == Count(sliding, p)
    ensures Count(keys, RefOf(p)) == Count(reference, p)
  {
    assert multiset(sliding + reference) == multiset(keys);
    CountPermuted(sliding + reference, keys, CurOf(p));
    CountPermuted(sliding + reference, keys, RefOf(p));
    CountConcat(sliding, reference, CurOf(p));
    CountConcat(sliding, reference, RefOf(p));
    CountAgree(sliding, CurOf(p), p);
    CountNone(reference, CurOf(p));
    CountNone(sliding, RefOf(p));
    CountAgree(reference, RefOf(p), p);
  }

  /** Leading keys: later keys satisfy `p` only if earlier ones do. */
  ghost predicate Leading(keys: seq<Key>, p: Key -> bool) {
    forall i, j :: 0 <= i < j < |keys| && p(keys[j]) ==> p(keys[i])
  }

  /** The difference over the leading keys is read off the two windows. */
  lemma LeadingKeys(keys: seq<Key>, sliding: seq<Key>, reference: seq<Key>, cur: seq<real>, ref: seq<real>,
                    p: Key -> bool)
    requires Drawn(keys, sliding, reference, cur, ref) && Leading(keys, p)
    ensures var n := Count(keys, p);
      && n <= |keys|
      && (forall i :: 0 <= i < |keys| ==> (p(keys[i]) <==> i < n))
      && G(keys[..n]) == Count(sliding, p) - Count(reference, p)
  {
    CountLeading(keys, p);
    DrawnCounts(keys, sliding, reference, cur, ref, p);
    LeadingSplit(keys, Count(keys, p), p);
  }

  lemma LeadingSplit(keys: seq<Key>, n: nat, p: Key -> bool)
    requires n <= |keys| && forall i :: 0 <= i < |keys| ==> (p(keys[i]) <==> i < n)
    ensures G(keys[..n]) == Count(keys, CurOf(p)) - Count(keys, RefOf(p))
  {
    assert keys == keys[..n] + keys[n..];
    FrontDifference(keys[..n], keys[n..], p);
  }

  /** The difference over a front that satisfies `p`, with a back that does not. */
  lemma FrontDifference(front: seq<Key>, back: seq<Key>, p: Key -> bool)
    requires forall i :: 0 <= i < |front| ==> p(front[i])
    requires forall i :: 0 <= i < |back| ==> !p(back[i])
    ensures G(front) == Count(front + back, CurOf(p)) - Count(front + back, RefOf(p))
  {
    GCounts(front);
    CountConcat(front, back, CurOf(p));
    CountConcat(front, back, RefOf(p));
    CountNone(back, CurOf(p));
    CountNone(back, RefOf(p));
    CountAgree(front, CurOf(p), CurOf(Any()));
    CountAgree(front, RefOf(p), RefOf(Any()));
  }

  /** The same for a downward-closed set of values. */
  lemma LeadingDifference(keys: seq<Key>, sliding: seq<Key>, reference: seq<Key>, cur: seq<real>, ref: seq<real>,
                          p: real -> bool)
    requires Drawn(keys, sliding, reference, cur, ref)
    requires forall x, y :: x <= y && p(y) ==> p(x)
    ensures var n := Count(keys, With(p));
      && n <= |keys|
      && (forall i :: 0 <= i < |keys| ==> (p(keys[i].value) <==> i < n))
      && G(keys[..n]) == Count(cur, p) - Count(ref, p)
  {
    LeadingKeys(keys, sliding, reference, cur, ref, With(p));
    CountMapped(sliding, cur, With(p), p);
    CountMapped(reference, ref, With(p), p);
  }

  /** Every drawn key has its value in one of the windows, and every window value is drawn. */
  lemma DrawnValues(keys: seq<Key>, sliding: seq<Key>, reference: seq<Key>, cur: seq<real>, ref: seq<real>)
    requires Drawn(keys, sliding, reference, cur, ref)
    ensures forall i :: 0 <= i < |keys| ==> keys[i].value in ref + cur
    ensures forall v :: v in ref + cur ==> exists i :: 0 <= i < |keys| && keys[i].value == v
    ensures |keys| == |cur| + |ref|
  {
    var all := sliding + reference;
    assert multiset(all) == multiset(keys);
    assert |multiset(all)| == |all| && |multiset(keys)| == |keys|;
    forall i | 0 <= i < |keys| ensures keys[i].value in ref + cur {
      assert keys[i] in multiset(keys);
      assert keys[i] in all;
      var j :| 0 <= j < |all| && all[j] == keys[i];
      if j < |sliding| {
        assert cur[j] == keys[i].value;
      } else {
        assert ref[j - |sliding|] == keys[i].value;
      }
    }
    forall v | v in ref + cur ensures exists i :: 0 <= i < |keys| && keys[i].value == v {
      var k: Key;
      if v in cur {
        var j :| 0 <= j < |cur| && cur[j] == v;
        k := sliding[j];
      } else {
        var j :| 0 <= j < |ref| && ref[j] == v;
        k := reference[j];
      }
      assert k in multiset(all);
      assert k in keys;
    }
  }

  /** The treap statistic never falls below the value-based one. */
  lemma ValuePeakBelow(keys: seq<Key>, sliding: seq<Key>, reference: seq<Key>, cur: seq<real>, ref: seq<real>)
    requires Drawn(keys, sliding, reference, cur, ref)
    ensures ValuePeak(cur, ref) <= PeakAbs(keys)
  {
    PeakOverMeaning(ref + cur, cur, ref);
    if ValuePeak(cur, ref) > 0 {
      var v :| v in ref + cur && Abs(DiffAt(cur, ref, v)) == ValuePeak(cur, ref);
      LeadingDifference(keys, sliding, reference, cur, ref, AtMost(v));
      DrawnValues(keys, sliding, reference, cur, ref);
      PeakAbsMeaning(keys);
    }
  }

  /** Across the block of value `v` the difference of the windows changes by the copies of `v`. */
  lemma DiffStep(cur: seq<real>, ref: seq<real>, v: real)
    ensures DiffAt(cur, ref, v) == DiffBelow(cur, ref, v) + Copies(cur, v) - Copies(ref, v)
  {
    CountSum(cur, Under(v), Equals(v), AtMost(v));
    CountSum(ref, Under(v), Equals(v), AtMost(v));
  }

  /** Just below `v` the windows differ as at the next smaller value, or not at all. */
  lemma BelowIsAt(keys: seq<Key>, sliding: seq<Key>, reference: seq<Key>, cur: seq<real>, ref: seq<real>, v: real)
    requires Drawn(keys, sliding, reference, cur, ref)
    ensures Abs(DiffBelow(cur, ref, v)) <= ValuePeak(cur, ref)
  {
    var n := Count(keys, With(Under(v)));
    assert n <= |keys| && G(keys[..n]) == DiffBelow(cur, ref, v)
      && forall j :: 0 <= j < |keys| ==> (keys[j].value < v <==> j < n) by {
      LeadingDifference(keys, sliding, reference, cur, ref, Under(v));
    }
    if n == 0 {
      assert keys[..n] == [];
    } else {
      var u := keys[n - 1].value;
      assert DiffAt(cur, ref, u) == G(keys[..n]) by {
        LeadingDifference(keys, sliding, reference, cur, ref, AtMost(u));
        var m := Count(keys, With(AtMost(u)));
        assert AtMost(u)(keys[n - 1].value);
        assert n < |keys| ==> !AtMost(u)(keys[n].value);
      }
      assert u in ref + cur by { DrawnValues(keys, sliding, reference, cur, ref); }
      PeakOverMeaning(ref + cur, cur, ref);
    }
  }

  /** A stretch of keys that all have value `v` moves the difference by its current and reference copies. */
  lemma Stretch(block: seq<Key>, v: real)
    requires forall j :: 0 <= j < |block| ==> block[j].value == v
    ensures G(block) == Count(block, CurOf(With(Equals(v)))) - Count(block, RefOf(With(Equals(v))))
  {
    GCounts(block);
    CountAgree(block, CurOf(Any()), CurOf(With(Equals(v))));
    CountAgree(block, RefOf(Any()), RefOf(With(Equals(v))));
  }

  /** The keys up to the i-th that share its value, after those below it. */
  lemma BlockStart(keys: seq<Key>, sliding: seq<Key>, reference: seq<Key>, cur: seq<real>, ref: seq<real>, i: nat)
    returns (n: nat)
    requires Drawn(keys, sliding, reference, cur, ref) && i < |keys|
    ensures n <= i && G(keys[..n]) == DiffBelow(cur, ref, keys[i].value)
    ensures forall j :: n <= j <= i ==> keys[j].value == keys[i].value
  {
    var v := keys[i].value;
    n := Count(keys, With(Under(v)));
    LeadingDifference(keys, sliding, reference, cur, ref, Under(v));
    assert !Under(v)(keys[i].value);
    forall j | n <= j <= i ensures keys[j].value == v {
      assert !Under(v)(keys[j].value);
      assert j < i ==> !Less(keys[i], keys[j]);
    }
  }

  /** No stretch of the keys holds more copies of `v` than the window they were drawn for. */
  lemma BlockCopies(keys: seq<Key>, sliding: seq<Key>, reference: seq<Key>, cur: seq<real>, ref: seq<real>,
                    n: nat, m: nat, v: real)
    requires Drawn(keys, sliding, reference, cur, ref) && n <= m <= |keys|
    ensures Count(keys[n..m], CurOf(With(Equals(v)))) <= Copies(cur, v)
    ensures Count(keys[n..m], RefOf(With(Equals(v)))) <= Copies(ref, v)
  {
    CountSlice(keys, n, m, CurOf(With(Equals(v))));
    CountSlice(keys, n, m, RefOf(With(Equals(v))));
    DrawnCounts(keys, sliding, reference, cur, ref, With(Equals(v)));
    CountMapped(sliding, cur, With(Equals(v)), Equals(v));
    CountMapped(reference, ref, With(Equals(v)), Equals(v));
  }

  /** ... so it moves by no more than the copies of its value. */
  lemma BlockBounds(keys: seq<Key>, sliding: seq<Key>, reference: seq<Key>, cur: seq<real>, ref: seq<real>,
                    n: nat, m: nat, v: real)
    requires Drawn(keys, sliding, reference, cur, ref) && n <= m <= |keys|
    requires forall j :: n <= j < m ==> keys[j].value == v
    ensures 0 <= G(keys[n..m]) + Copies(ref, v)
    ensures G(keys[n..m]) <= Copies(cur, v)
  {
    forall j | 0 <= j < m - n ensures keys[n..m][j].value == v {
      assert keys[n..m][j] == keys[n + j];
    }
    Stretch(keys[n..m], v);
    BlockCopies(keys, sliding, reference, cur, ref, n, m, v);
  }

  /** Inside the block of value `v` the difference stays between `below - #reference` and `below + #current` copies. */
  lemma InsideBlock(keys: seq<Key>, sliding: seq<Key>, reference: seq<Key>, cur: seq<real>, ref: seq<real>, i: nat)
    requires Drawn(keys, sliding, reference, cur, ref) && i < |keys|
    ensures var v, b := keys[i].value, DiffBelow(cur, ref, keys[i].value);
      b - Copies(ref, v) <= G(keys[..i + 1]) <= b + Copies(cur, v)
  {
    var n := BlockStart(keys, sliding, reference, cur, ref, i);
    BlockBounds(keys, sliding, reference, cur, ref, n, i + 1, keys[i].value);
    assert keys[..i + 1] == keys[..n] + keys[n..i + 1];
    GConcat(keys[..n], keys[n..i + 1]);
  }

  /** ... and never exceeds it by more than the number of copies some value has in both windows. */
  lemma ValuePeakAbove(keys: seq<Key>, sliding: seq<Key>, reference: seq<Key>, cur: seq<real>, ref: seq<real>)
    requires Drawn(keys, sliding, reference, cur, ref)
    ensures PeakAbs(keys) <= ValuePeak(cur, ref) + LexBias(cur, ref)
  {
    if keys != [] {
      PeakAbsMeaning(keys);
      var i :| 1 <= i <= |keys| && Abs(G(keys[..i])) == PeakAbs(keys);
      PositionBound(keys, sliding, reference, cur, ref, i - 1);
    }
  }

  lemma PositionBound(keys: seq<Key>, sliding: seq<Key>, reference: seq<Key>, cur: seq<real>, ref: seq<real>, i: nat)
    requires Drawn(keys, sliding, reference, cur, ref) && i < |keys|
    ensures Abs(G(keys[..i + 1])) <= ValuePeak(cur, ref) + LexBias(cur, ref)
  {
    var v := keys[i].value;
    assert v in ref + cur by { DrawnValues(keys, sliding, reference, cur, ref); }
    assert Abs(DiffAt(cur, ref, v)) <= ValuePeak(cur, ref) by { PeakOverMeaning(ref + cur, cur, ref); }
    assert Least(Copies(cur, v), Copies(ref, v)) <= LexBias(cur, ref) by { SharedCopiesMeaning(ref + cur, cur, ref); }
    BelowIsAt(keys, sliding, reference, cur, ref, v);
    InsideBlock(keys, sliding, reference, cur, ref, i);
    DiffStep(cur, ref, v);
  }

  /** The bias is at most one copy when no value has two copies in both windows. */
  lemma BiasAtMostOne(cur: seq<real>, ref: seq<real>)
    ensures LexBias(cur, ref) <= 1 <==>
            forall v :: v in ref + cur ==> Copies(cur, v) <= 1 || Copies(ref, v) <= 1
  {
    SharedCopiesMeaning(ref + cur, cur, ref);
    if LexBias(cur, ref) > 1 {
      var v :| v in ref + cur && Least(Copies(cur, v), Copies(ref, v)) == LexBias(cur, ref);
    } else {
      forall v | v in ref + cur ensures Copies(cur, v) <= 1 || Copies(ref, v) <= 1 {
        assert Least(Copies(cur, v), Copies(ref, v)) <= LexBias(cur, ref);
      }
    }
  }

  // ---------- exactly when the claimed 1/W bound holds ----------

  /** All tie-break numbers for the two windows, and any arrival order. */
  ghost predicate Possible(keys: seq<Key>, cur: seq<real>, ref: seq<real>) {
    exists sliding, reference :: Drawn(keys, sliding, reference, cur, ref)
  }

  /** At no value can the current (reference) copies alone push the difference past the value-based peak plus one. */
  ghost predicate NoOvershoot(cur: seq<real>, ref: seq<real>) {
    forall v :: v in ref + cur ==>
      && DiffBelow(cur, ref, v) + Copies(cur, v) <= ValuePeak(cur, ref) + 1
      && Copies(ref, v) - DiffBelow(cur, ref, v) <= ValuePeak(cur, ref) + 1
  }

  lemma NoOvershootSuffices(keys: seq<Key>, cur: seq<real>, ref: seq<real>)
    requires Possible(keys, cur, ref) && NoOvershoot(cur, ref)
    ensures PeakAbs(keys) <= ValuePeak(cur, ref) + 1
  {
    var sliding, reference :| Drawn(keys, sliding, reference, cur, ref);
    if keys != [] {
      PeakAbsMeaning(keys);
      var i :| 1 <= i <= |keys| && Abs(G(keys[..i])) == PeakAbs(keys);
      assert keys[i - 1].value in ref + cur by { DrawnValues(keys, sliding, reference, cur, ref); }
      InsideBlock(keys, sliding, reference, cur, ref, i - 1);
    }
  }

  /** The keys of a window when every draw gives the same tie-break number. */
  ghost function KeysWith(xs: seq<real>, rnd: int, group: int): seq<Key> {
    seq(|xs|, i requires 0 <= i < |xs| => Key(xs[i], rnd, group))
  }

  /** Keys inserted one after the other, as `add` does. */
  ghost function InsertAll(keys: seq<Key>): seq<Key> {
    if keys == [] then [] else Insert(InsertAll(keys[..|keys| - 1]), keys[|keys| - 1])
  }

  lemma {:induction false} InsertAllMeaning(keys: seq<Key>)
    ensures SortedKeys(InsertAll(keys)) && multiset(InsertAll(keys)) == multiset(keys)
  {
    if keys != [] {
      var front, last := keys[..|keys| - 1], keys[|keys| - 1];
      InsertAllMeaning(front);
      InsertMeaning(InsertAll(front), last);
      assert keys == front + [last];
    }
  }

  /** The unlucky draw: tie-break `c` for every current and `r` for every reference observation. */
  ghost function Unlucky(cur: seq<real>, ref: seq<real>, c: int, r: int): seq<Key> {
    InsertAll(KeysWith(cur, c, GROUP_CURRENT) + KeysWith(ref, r, GROUP_REFERENCE))
  }

  lemma UnluckyDrawn(cur: seq<real>, ref: seq<real>, c: int, r: int)
    ensures Drawn(Unlucky(cur, ref, c, r), KeysWith(cur, c, GROUP_CURRENT), KeysWith(ref, r, GROUP_REFERENCE), cur, ref)
  {
    InsertAllMeaning(KeysWith(cur, c, GROUP_CURRENT) + KeysWith(ref, r, GROUP_REFERENCE));
  }

  /** Everything below `v`, and the copies of `v` with the smaller tie-break number. */
  function UpTo(v: real): Key -> bool { (k: Key) => k.value < v || (k.value == v && k.rnd <= 0) }

  /** Tie-breaks that put the current copies of every value first reach `below + #current copies` ... */
  lemma CurrentFirst(cur: seq<real>, ref: seq<real>, v: real)
    ensures PeakAbs(Unlucky(cur, ref, 0, 1)) >= Abs(DiffBelow(cur, ref, v) + Copies(cur, v))
  {
    var keys := Unlucky(cur, ref, 0, 1);
    var sliding, reference := KeysWith(cur, 0, GROUP_CURRENT), KeysWith(ref, 1, GROUP_REFERENCE);
    UnluckyDrawn(cur, ref, 0, 1);
    LeadingKeys(keys, sliding, reference, cur, ref, UpTo(v));
    CountMapped(sliding, cur, UpTo(v), AtMost(v));
    CountMapped(reference, ref, UpTo(v), Under(v));
    CountSum(cur, Under(v), Equals(v), AtMost(v));
    Reached(keys, Count(keys, UpTo(v)));
  }

  /** ... and those that put the reference copies first reach `below - #reference copies`. */
  lemma ReferenceFirst(cur: seq<real>, ref: seq<real>, v: real)
    ensures PeakAbs(Unlucky(cur, ref, 1, 0)) >= Abs(DiffBelow(cur, ref, v) - Copies(ref, v))
  {
    var keys := Unlucky(cur, ref, 1, 0);
    var sliding, reference := KeysWith(cur, 1, GROUP_CURRENT), KeysWith(ref, 0, GROUP_REFERENCE);
    UnluckyDrawn(cur, ref, 1, 0);
    LeadingKeys(keys, sliding, reference, cur, ref, UpTo(v));
    CountMapped(sliding, cur, UpTo(v), Under(v));
    CountMapped(reference, ref, UpTo(v), AtMost(v));
    CountSum(ref, Under(v), Equals(v), AtMost(v));
    Reached(keys, Count(keys, UpTo(v)));
  }

  lemma Reached(keys: seq<Key>, n: nat)
    requires n <= |keys|
    ensures Abs(G(keys[..n])) <= PeakAbs(keys)
  {
    PeakAbsMeaning(keys);
    if n == 0 { assert keys[..n] == []; }
  }

  /** The claimed bound: the treap statistic exceeds the value-based one by at most 1/W, whatever the tie-breaks. */
  ghost predicate BiasOneForAllDraws(cur: seq<real>, ref: seq<real>) {
    forall keys :: Possible(keys, cur, ref) ==> PeakAbs(keys) <= ValuePeak(cur, ref) + 1
  }

  /** The claimed bound holds for a pair of windows exactly when no value overshoots. */
  lemma BiasOneExactly(cur: seq<real>, ref: seq<real>)
    ensures BiasOneForAllDraws(cur, ref) <==> NoOvershoot(cur, ref)
  {
    if NoOvershoot(cur, ref) {
      forall keys | Possible(keys, cur, ref) ensures PeakAbs(keys) <= ValuePeak(cur, ref) + 1 {
        NoOvershootSuffices(keys, cur, ref);
      }
    }
    if BiasOneForAllDraws(cur, ref) {
      UnluckyDrawn(cur, ref, 0, 1);
      UnluckyDrawn(cur, ref, 1, 0);
      assert Possible(Unlucky(cur, ref, 0, 1), cur, ref);
      assert Possible(Unlucky(cur, ref, 1, 0), cur, ref);
      forall v | v in ref + cur
        ensures DiffBelow(cur, ref, v) + Copies(cur, v) <= ValuePeak(cur, ref) + 1
        ensures Copies(ref, v) - DiffBelow(cur, ref, v) <= ValuePeak(cur, ref) + 1
      {
        CurrentFirst(cur, ref, v);
        ReferenceFirst(cur, ref, v);
      }
    }
  }

  /** It fails on two equal windows of one repeated value: value-based KS is 0, the treap may report 1. */
  lemma BiasOneFails()
    ensures ValuePeak([0.5, 0.5], [0.5, 0.5]) == 0
    ensures PeakAbs(Unlucky([0.5, 0.5], [0.5, 0.5], 0, 1)) >= 2
    ensures !BiasOneForAllDraws([0.5, 0.5], [0.5, 0.5])
  {
    var w := [0.5, 0.5];
    PeakOverMeaning(w + w, w, w);
    CurrentFirst(w, w, 0.5);
    CountAll(w, Equals(0.5));
    UnluckyDrawn(w, w, 0, 1);
    assert Possible(Unlucky(w, w, 0, 1), w, w);
  }

  /** The statistic never exceeds 1: no prefix differs by more than the window size. */
  lemma PeakAtMostW(keys: seq<Key>, sliding: seq<Key>, reference: seq<Key>, cur: seq<real>, ref: seq<real>, w: nat)
    requires Drawn(keys, sliding, reference, cur, ref) && |cur| == |ref| == w
    ensures PeakAbs(keys) <= w
  {
    if keys != [] {
      PeakAbsMeaning(keys);
      var i :| 1 <= i <= |keys| && Abs(G(keys[..i])) == PeakAbs(keys);
      GCounts(keys[..i]);
      assert keys[0..i] == keys[..i];
      CountSlice(keys, 0, i, CurOf(Any()));
      CountSlice(keys, 0, i, RefOf(Any()));
      DrawnCounts(keys, sliding, reference, cur, ref, Any());
      CountAtMost(sliding, Any());
      CountAtMost(reference, Any());
    }
  }

  /** Equal windows have value-based statistic 0. */
  lemma EqualWindows(w: seq<real>)
    ensures ValuePeak(w, w) == 0
  {
    PeakOverMeaning(w + w, w, w);
  }

  // ---------- how the windows move ----------

  lemma AddCurrent(keys: seq<Key>, sliding: seq<Key>, reference: seq<Key>, cur: seq<real>, ref: seq<real>, k: Key)
    requires Drawn(keys, sliding, reference, cur, ref) && k.group == GROUP_CURRENT
    ensures Drawn(Insert(keys, k), sliding + [k], reference, cur + [k.value], ref)
  {
    InsertMeaning(keys, k);
  }

  lemma AddReference(keys: seq<Key>, sliding: seq<Key>, reference: seq<Key>, cur: seq<real>, ref: seq<real>, k: Key)
    requires Drawn(keys, sliding, reference, cur, ref) && k.group == GROUP_REFERENCE
    ensures Drawn(Insert(keys, k), sliding, reference + [k], cur, ref + [k.value])
  {
    InsertMeaning(keys, k);
  }

  lemma FirstAndRest<T>(s: seq<T>)
    requires s != []
    ensures multiset(s) == multiset{s[0]} + multiset(s[1..])
  {
    assert s == [s[0]] + s[1..];
  }

  /** The oldest current key is in the treap, and its removal hits. */
  lemma RemoveCurrent(keys: seq<Key>, sliding: seq<Key>, reference: seq<Key>, cur: seq<real>, ref: seq<real>)
    requires Drawn(keys, sliding, reference, cur, ref) && sliding != []
    ensures sliding[0] in keys
    ensures Drawn(Delete(keys, sliding[0]), sliding[1..], reference, cur[1..], ref)
  {
    FirstAndRest(sliding);
    DeleteMeaning(keys, sliding[0]);
    TakeOut(multiset(keys), multiset(sliding[1..]), multiset(reference), sliding[0]);
  }

  lemma TakeOut<T>(m: multiset<T>, a: multiset<T>, b: multiset<T>, x: T)
    requires m == multiset{x} + a + b
    ensures x in m && m - multiset{x} == a + b
  {
  }

  lemma TakeOutRight<T>(m: multiset<T>, a: multiset<T>, r: multiset<T>, b: multiset<T>, x: T)
    requires m == a + r && r == multiset{x} + b
    ensures x in m && m - multiset{x} == a + b
  {
  }

  lemma RemoveReference(keys: seq<Key>, sliding: seq<Key>, reference: seq<Key>, cur: seq<real>, ref: seq<real>)
    requires Drawn(keys, sliding, reference, cur, ref) && reference != []
    ensures reference[0] in keys
    ensures Drawn(Delete(keys, reference[0]), sliding, reference[1..], cur, ref[1..])
  {
    FirstAndRest(reference);
    DeleteMeaning(keys, reference[0]);
    TakeOutRight(multiset(keys), multiset(sliding), multiset(reference), multiset(reference[1..]), reference[0]);
  }

  /** One slide: the oldest current key leaves, a new one enters. */
  lemma SlideCurrent(keys: seq<Key>, sliding: seq<Key>, reference: seq<Key>, cur: seq<real>, ref: seq<real>, k: Key)
    requires Drawn(keys, sliding, reference, cur, ref) && sliding != [] && k.group == GROUP_CURRENT
    ensures Drawn(Insert(Delete(keys, sliding[0]), k), sliding[1..] + [k], reference, cur[1..] + [k.value], ref)
  {
    RemoveCurrent(keys, sliding, reference, cur, ref);
    AddCurrent(Delete(keys, sliding[0]), sliding[1..], reference, cur[1..], ref, k);
  }
}
