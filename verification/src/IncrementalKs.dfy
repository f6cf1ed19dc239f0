/**
  The incremental Kolmogorov-Smirnov detector: a reference window counting -1 and a sliding window
  counting +1, both kept in one treap, with the statistic read off the root.
 */
module IncrementalKs {
  import opened FlatList
  import opened TreapModel
  import opened TreapHeap
  import opened PrefixSums
  import opened KsTree
  import opened ValueKs
  import opened Results
  import opened DriftEvents

  /** The value of the in-order predecessor: the last node is split off, read and merged back. */
  method PredecessorValue(left: Treap?, ghost L: set<Treap>, ghost l: Tree)
    returns (left': Treap?, val: int, ghost L': set<Treap>)
    requires Rep(left, L, l)
    modifies L
    ensures val == LastValue(l) && Within(L, left', L', Rejoined(l))
  {
    var front, leftG, F, LG := SplitGreatest(left, L, l);
    ghost var (f, g) := SplitGreatestTree(l);
    val := if leftG == null then 0 else leftG.value;
    left', L' := Merge(front, leftG, F, LG, f, g);
  }

  /** A fresh node in front of `right`, and the contribution of its group applied to all of it. */
  method Prepend(key: Key, val: int, group: int, priority: real, right: Treap?, ghost R: set<Treap>, ghost r: Tree)
    returns (m: Treap?, ghost S: set<Treap>)
    requires Rep(right, R, r) && key.group == group
    modifies R
    ensures fresh(S - R) && Rep(m, S, Prepended(key, priority, val, r))
  {
    var single := new Treap(key, val, priority);
    m, S := Merge(single, right, {single}, R, Single(key, priority, val), r);
    SumAll(m, if group == GROUP_CURRENT then 1 else -1, S, MergeTree(Single(key, priority, val), r));
  }

  lemma Scaled(a: nat, b: nat, w: nat)
    requires a <= b && w > 0
    ensures a as real / w as real <= b as real / w as real
    ensures w as real / w as real == 1.0
    ensures 0 as real / w as real == 0.0
  {
  }

  /** The statistic of a key sequence: its peak over the size of a window. */
  ghost function Statistic(keys: seq<Key>, w: int): real
    requires w != 0
  {
    PeakAbs(keys) as real / w as real
  }

  /** `ks` is the statistic of two windows of size w under some tie-break numbers. */
  ghost predicate IsStatistic(ks: real, cur: seq<real>, ref: seq<real>, w: nat)
    requires w > 0
  {
    exists keys :: Possible(keys, cur, ref) && ks == Statistic(keys, w)
  }

  /**
    A statistic of two windows of size w: in [0, 1], never below the value-based one, and above it by at most the
    number of copies some value has in both windows (over w).
   */
  ghost predicate InRange(ks: real, cur: seq<real>, ref: seq<real>, w: nat)
    requires w > 0
  {
    var v, b := ValuePeak(cur, ref), LexBias(cur, ref);
    0.0 <= v as real / w as real <= ks <= (v + b) as real / w as real && ks <= 1.0
  }

  lemma StatisticOfKeys(keys: seq<Key>, cur: seq<real>, ref: seq<real>, w: nat)
    requires Possible(keys, cur, ref) && |cur| == |ref| == w > 0
    ensures InRange(Statistic(keys, w), cur, ref, w)
  {
    var sliding, reference :| Drawn(keys, sliding, reference, cur, ref);
    ValuePeakBelow(keys, sliding, reference, cur, ref);
    ValuePeakAbove(keys, sliding, reference, cur, ref);
    PeakAtMostW(keys, sliding, reference, cur, ref, w);
    Scaled(0, ValuePeak(cur, ref), w);
    Scaled(ValuePeak(cur, ref), PeakAbs(keys), w);
    Scaled(PeakAbs(keys), ValuePeak(cur, ref) + LexBias(cur, ref), w);
    Scaled(PeakAbs(keys), w, w);
  }

  /** Whatever the tie-breaks, a statistic of two windows of equal size is in range of the value-based one. */
  lemma StatisticInRange(ks: real, cur: seq<real>, ref: seq<real>, w: nat)
    requires |cur| == |ref| == w > 0 && IsStatistic(ks, cur, ref, w)
    ensures InRange(ks, cur, ref, w)
  {
    var keys :| Possible(keys, cur, ref) && ks == Statistic(keys, w);
    StatisticOfKeys(keys, cur, ref, w);
  }

  /** `IKS.add` on the treap. */
  method AddToTreap(treap: Treap?, key: Key, group: int, priority: real, ghost S: set<Treap>, ghost t: Tree)
    returns (treap': Treap?, ghost S': set<Treap>)
    requires Rep(treap, S, t) && key.group == group
    modifies S
    ensures fresh(S' - S) && Rep(treap', S', AddTree(t, key, priority))
  {
    ghost var (l, r) := SplitTree(t, key);
    var left, right, L, R := SplitKeepRight(treap, key, S, t);
    var left', val, L' := PredecessorValue(left, L, l);
    var right', R' := Prepend(key, val, group, priority, right, R, r);
    treap', S' := Merge(left', right', L', R', Rejoined(l), Prepended(key, priority, val, r));
  }

  /** The right half of a removal: its first node is dropped if it holds `key`, and merged back otherwise. */
  method Drop(key: Key, group: int, right: Treap?, ghost R: set<Treap>, ghost r: Tree)
    returns (right': Treap?, ghost R': set<Treap>)
    requires Rep(right, R, r) && key.group == group
    modifies R
    ensures Within(R, right', R', Dropped(key, r))
  {
    ghost var (g, t) := SplitSmallestTree(r);
    var rightL, rest, RL, RR := SplitSmallest(right, R, r);
    if rightL != null && rightL.key == key {
      SumAll(rest, if group == GROUP_CURRENT then -1 else 1, RR, t);
      return rest, RR;
    } else {
      right', R' := Merge(rightL, rest, RL, RR, g, t);
    }
  }

  /** `IKS.remove` on the treap. */
  method RemoveFromTreap(treap: Treap?, key: Key, group: int, ghost S: set<Treap>, ghost t: Tree)
    returns (treap': Treap?, ghost S': set<Treap>)
    requires Rep(treap, S, t) && key.group == group
    modifies S
    ensures S' <= S && Rep(treap', S', RemoveTree(t, key))
  {
    ghost var (l, r) := SplitTree(t, key);
    var left, right, L, R := SplitKeepRight(treap, key, S, t);
    var right', R' := Drop(key, group, right, R, r);
    treap', S' := Merge(left, right', L, R', l, Dropped(key, r));
  }

  class IKS {
    const windowSize: nat
    /** The test threshold ca * sqrt(2 / W). */
    const threshold: real

    var treap: Treap?
    var nCurrent: int
    var nReference: int
    var sliding: seq<Key>
    var warmupBuffer: seq<real>
    var initialized: bool
    var n: nat

    ghost var nodes: set<Treap>
    ghost var tree: Tree
    /** All keys in the treap, in key order. */
    ghost var keys: seq<Key>
    /** The keys drawn for the reference window, in arrival order. */
    ghost var reference: seq<Key>
    /** Every value seen since the last reset. */
    ghost var history: seq<real>

    /** The treap holds `keys`: the representation invariant of add, remove and ks. */
    ghost predicate Valid()
      reads `treap, `nodes, `tree, `keys, nodes
    {
      Rep(treap, nodes, tree) && Holds(tree, keys)
    }

    /** The sliding window in values: the last W seen. */
    ghost function CurWindow(): seq<real>
      requires |history| >= windowSize
      reads `history
    {
      history[|history| - windowSize..]
    }

    /** The reference window in values: the first W seen since the last reset. */
    ghost function RefWindow(): seq<real>
      requires |history| >= windowSize
      reads `history
    {
      history[..windowSize]
    }

    ghost predicate WarmingUp()
      reads `history, `warmupBuffer, `keys, `sliding, `reference, `nCurrent, `nReference
    {
      && |history| < windowSize && warmupBuffer == history
      && keys == [] && sliding == [] && reference == [] && nCurrent == nReference == 0
    }

    ghost predicate Warm()
      reads `history, `warmupBuffer, `keys, `sliding, `reference, `nCurrent, `nReference
    {
      && |history| >= windowSize && warmupBuffer == []
      && Drawn(keys, sliding, reference, CurWindow(), RefWindow())
      && nCurrent == nReference == windowSize
    }

    /** The state of a detector driven by update and reset alone. */
    ghost predicate Live()
      reads this, nodes
    {
      Valid() && windowSize > 0 && n == |history| && if initialized then Warm() else WarmingUp()
    }

    constructor (windowSize: nat, threshold: real)
      ensures Valid() && keys == [] && nCurrent == nReference == 0 && nodes == {}
      ensures this.windowSize == windowSize && this.threshold == threshold
      ensures history == [] && (windowSize > 0 ==> Live())
    {
      this.windowSize, this.threshold := windowSize, threshold;
      treap, nCurrent, nReference, sliding, warmupBuffer, initialized, n := null, 0, 0, [], [], false, 0;
      nodes, tree, keys, reference, history := {}, Leaf, [], [], [];
    }

    method Reset()
      requires windowSize > 0
      modifies this
      ensures Live() && history == [] && nodes == {}
    {
      treap, nCurrent, nReference, sliding, warmupBuffer, initialized, n := null, 0, 0, [], [], false, 0;
      nodes, tree, keys, reference, history := {}, Leaf, [], [], [];
    }

    /** Re-basing after a confirmed onset is a reset: the reference is rebuilt from the next W values. */
    method Rebase()
      requires windowSize > 0
      modifies this
      ensures Live() && history == [] && nodes == {}
    {
      Reset();
    }

    /** A treap of a key sequence becomes the state. */
    method Hold(root: Treap?, ghost S: set<Treap>, ghost t: Tree, ghost ks: seq<Key>)
      requires Rep(root, S, t) && Holds(t, ks)
      modifies this`treap, this`nodes, this`tree, this`keys
      ensures Valid() && treap == root && nodes == S && keys == ks
    {
      treap, nodes, tree, keys := root, S, t, ks;
    }

    /** Inserts a key of the given group. */
    method Add(key: Key, group: int)
      requires Valid() && key.group == group
      modifies this`treap, this`nCurrent, this`nReference, this`nodes, this`tree, this`keys, nodes
      ensures Valid() && fresh(nodes - old(nodes))
      ensures keys == Insert(old(keys), key)
      ensures nCurrent == old(nCurrent) + (if group == GROUP_CURRENT then 1 else 0)
      ensures nReference == old(nReference) + (if group == GROUP_CURRENT then 0 else 1)
    {
      if group == GROUP_CURRENT { nCurrent := nCurrent + 1; } else { nReference := nReference + 1; }
      Enter(key, group);
    }

    /** The treap part of an insertion. */
    method Enter(key: Key, group: int)
      requires Valid() && key.group == group
      modifies this`treap, this`nodes, this`tree, this`keys, nodes
      ensures Valid() && fresh(nodes - old(nodes)) && keys == Insert(old(keys), key)
    {
      var priority: real := *;
      ghost var t, ks := AddTree(tree, key, priority), Insert(keys, key);
      assert Holds(t, ks) by { AddMeaning(tree, keys, key, priority); }
      var root, all := AddToTreap(treap, key, group, priority, nodes, tree);
      Hold(root, all, t, ks);
    }

    /** Takes out the first copy of a key; a key that is not there leaves the treap as it was. */
    method Remove(key: Key, group: int)
      requires Valid() && key.group == group
      modifies this`treap, this`nCurrent, this`nReference, this`nodes, this`tree, this`keys, nodes
      ensures Valid() && nodes <= old(nodes)
      ensures keys == Delete(old(keys), key)
      ensures nCurrent == old(nCurrent) - (if group == GROUP_CURRENT then 1 else 0)
      ensures nReference == old(nReference) - (if group == GROUP_CURRENT then 0 else 1)
    {
      if group == GROUP_CURRENT { nCurrent := nCurrent - 1; } else { nReference := nReference - 1; }
      Leave(key, group);
    }

    /** The treap part of a removal. */
    method Leave(key: Key, group: int)
      requires Valid() && key.group == group
      modifies this`treap, this`nodes, this`tree, this`keys, nodes
      ensures Valid() && nodes <= old(nodes) && keys == Delete(old(keys), key)
    {
      ghost var t, ks := RemoveTree(tree, key), Delete(keys, key);
      assert Holds(t, ks) by { RemoveMeaning(tree, keys, key); }
      var root, rest := RemoveFromTreap(treap, key, group, nodes, tree);
      Hold(root, rest, t, ks);
    }

    lemma WarmStatistic()
      requires windowSize > 0 && Warm()
      ensures IsStatistic(Statistic(keys, windowSize), CurWindow(), RefWindow(), windowSize)
    {
      assert Possible(keys, CurWindow(), RefWindow());
    }

    /** The statistic, read off the root; an error when the two windows differ in size. */
    method Ks() returns (r: Result<real>)
      requires Valid()
      ensures r.Err? <==> nCurrent != nReference
      ensures r.Ok? && nCurrent == 0 ==> r.value == 0.0
      ensures r.Ok? && nCurrent != 0 ==> r.value == Statistic(keys, nCurrent)
      ensures Live() ==> r.Ok? && (!initialized ==> r.value == 0.0)
      ensures Live() && initialized ==> IsStatistic(r.value, CurWindow(), RefWindow(), windowSize)
    {
      if nCurrent != nReference { return Err; }
      var W := nCurrent;
      RootStatistic(tree, keys);
      assert Live() && initialized ==>
          IsStatistic(Statistic(keys, windowSize), CurWindow(), RefWindow(), windowSize) by {
        if Live() && initialized { WarmStatistic(); }
      }
      if W == 0 || treap == null { return Ok(0.0); }
      var peak := Max(treap.maxValue, -treap.minValue);
      return Ok(peak as real / W as real);
    }

    /** One warm-up value enters both windows, under two independent tie-break numbers. */
    method FlushOne(v: real, ghost cur: seq<real>, ghost ref: seq<real>)
      requires Valid() && Drawn(keys, sliding, reference, cur, ref)
      modifies this`treap, this`nCurrent, this`nReference, this`nodes, this`tree, this`keys, nodes
      modifies this`sliding, this`reference
      ensures Valid() && fresh(nodes - old(nodes)) && Drawn(keys, sliding, reference, cur + [v], ref + [v])
      ensures nCurrent == old(nCurrent) + 1 && nReference == old(nReference) + 1
    {
      ghost var ks := keys;
      var rnd: int := *;
      var refKey := Key(v, rnd, GROUP_REFERENCE);
      Add(refKey, GROUP_REFERENCE);
      var rnd2: int := *;
      var curKey := Key(v, rnd2, GROUP_CURRENT);
      Add(curKey, GROUP_CURRENT);
      assert Drawn(keys, sliding + [curKey], reference + [refKey], cur + [v], ref + [v]) by {
        AddReference(ks, sliding, reference, cur, ref, refKey);
        AddCurrent(Insert(ks, refKey), sliding, reference + [refKey], cur, ref + [v], curKey);
      }
      sliding := sliding + [curKey];
      reference := reference + [refKey];
    }

    /** The whole warm-up buffer goes into both windows. */
    method Flush()
      requires Valid() && windowSize > 0 && |warmupBuffer| == windowSize && history == warmupBuffer
      requires keys == [] && sliding == [] && reference == [] && nCurrent == nReference == 0
      modifies this`treap, this`nCurrent, this`nReference, this`nodes, this`tree, this`keys, nodes
      modifies this`sliding, this`reference, this`initialized, this`warmupBuffer
      ensures Valid() && fresh(nodes - old(nodes)) && initialized && Warm()
    {
      for i := 0 to |warmupBuffer|
        invariant Valid() && fresh(nodes - old(nodes))
        invariant warmupBuffer == history && nCurrent == nReference == i
        invariant Drawn(keys, sliding, reference, history[..i], history[..i])
      {
        assert history[..i + 1] == history[..i] + [warmupBuffer[i]];
        FlushOne(warmupBuffer[i], history[..i], history[..i]);
      }
      assert history[..windowSize] == history && history[|history| - windowSize..] == history;
      initialized := true;
      warmupBuffer := [];
    }

    /** One current key out, another one in. */
    method Replace(oldest: Key, newKey: Key)
      requires Valid() && oldest.group == newKey.group == GROUP_CURRENT
      modifies this`treap, this`nCurrent, this`nReference, this`nodes, this`tree, this`keys, nodes
      ensures Valid() && fresh(nodes - old(nodes)) && keys == Insert(Delete(old(keys), oldest), newKey)
      ensures nCurrent == old(nCurrent) && nReference == old(nReference)
    {
      Remove(oldest, GROUP_CURRENT);
      Add(newKey, GROUP_CURRENT);
    }

    /** The oldest current observation leaves the treap and the new one enters. */
    method Slide(value: real, ghost cur: seq<real>, ghost ref: seq<real>)
      requires Valid() && Drawn(keys, sliding, reference, cur, ref) && sliding != []
      modifies this`treap, this`nCurrent, this`nReference, this`nodes, this`tree, this`keys, nodes
      modifies this`sliding
      ensures Valid() && fresh(nodes - old(nodes)) && Drawn(keys, sliding, reference, cur[1..] + [value], ref)
      ensures nCurrent == old(nCurrent) && nReference == old(nReference)
    {
      var oldest := sliding[0];
      var rnd: int := *;
      var newKey := Key(value, rnd, GROUP_CURRENT);
      SlideCurrent(keys, sliding, reference, cur, ref, newKey);
      Replace(oldest, newKey);
      sliding := sliding[1..] + [newKey];
    }

    /** One observation before the detector is warm; the W-th one fills both windows. */
    method WarmUp(value: real)
      requires Valid() && windowSize > 0 && !initialized && WarmingUp()
      modifies this`treap, this`nCurrent, this`nReference, this`nodes, this`tree, this`keys, nodes
      modifies this`sliding, this`reference, this`initialized, this`warmupBuffer, this`history
      ensures Valid() && fresh(nodes - old(nodes)) && history == old(history) + [value]
      ensures if initialized then Warm() else WarmingUp()
    {
      warmupBuffer := warmupBuffer + [value];
      history := history + [value];
      if |warmupBuffer| == windowSize {
        Flush();
      }
    }

    ghost method Remember(value: real)
      requires Valid() && windowSize > 0 && |history| >= windowSize && warmupBuffer == []
      requires nCurrent == nReference == windowSize
      requires Drawn(keys, sliding, reference, CurWindow()[1..] + [value], RefWindow())
      modifies this`history
      ensures Valid() && history == old(history) + [value] && Warm()
    {
      ghost var h := history;
      history := history + [value];
      assert CurWindow() == h[|h| - windowSize..][1..] + [value] && RefWindow() == h[..windowSize];
    }

    /** A warm detector's current window moves on by one observation. */
    method Advance(value: real)
      requires Valid() && windowSize > 0 && Warm()
      modifies this`treap, this`nCurrent, this`nReference, this`nodes, this`tree, this`keys, nodes
      modifies this`sliding, this`history
      ensures Valid() && fresh(nodes - old(nodes)) && Warm() && history == old(history) + [value]
    {
      Slide(value, CurWindow(), RefWindow());
      Remember(value);
    }

    method Test() returns (status: DriftStatus)
      requires Valid() && windowSize > 0 && Warm()
      ensures status == if Statistic(keys, windowSize) > threshold then DRIFT else STABLE
    {
      var ks := Ks();
      return if ks.value > threshold then DRIFT else STABLE;
    }

    /** One observation: fills the warm-up buffer, or slides the current window by one and tests. */
    method Update(value: real) returns (status: DriftStatus)
      requires Live()
      modifies this, nodes
      ensures Live() && fresh(nodes - old(nodes))
      ensures history == old(history) + [value]
      ensures status == if |old(history)| >= windowSize && Statistic(keys, windowSize) > threshold
                        then DRIFT else STABLE
    {
      n := n + 1;
      if !initialized {
        WarmUp(value);
        return STABLE;
      }
      Advance(value);
      status := Test();
    }
  }
}
