/**
  The sliding-window detector built on the incremental statistic: the window moves one observation at a
  time, and `Update` makes the current window the new reference without losing a sample.
 */
module SlidingWindowKs {
  import opened FlatList
  import opened PrefixSums
  import opened ValueKs
  import opened IncrementalKs
  import opened Results

  /** One reference key per value, in order, under arbitrary tie-break numbers. */
  method DrawReference(values: seq<real>) returns (keys: seq<Key>)
    ensures ValuesOf(keys) == values && AllInGroup(keys, GROUP_REFERENCE)
  {
    keys := [];
    for i := 0 to |values|
      invariant ValuesOf(keys) == values[..i] && AllInGroup(keys, GROUP_REFERENCE)
    {
      var rnd: int := *;
      keys := keys + [Key(values[i], rnd, GROUP_REFERENCE)];
    }
  }

  class IKSSW {
    const iks: IKS
    var sw: seq<Key>
    var reference: seq<Key>

    /** The treap holds exactly the two windows, and they are of equal size. */
    ghost predicate Valid()
      reads this, iks, iks.nodes
    {
      && iks.Valid()
      && Drawn(iks.keys, sw, reference, ValuesOf(sw), ValuesOf(reference))
      && iks.nCurrent == iks.nReference == |sw| == |reference|
    }

    constructor (values: seq<real>)
      ensures Valid() && fresh(iks) && fresh(iks.nodes)
      ensures ValuesOf(sw) == values && ValuesOf(reference) == values
    {
      var refs := DrawReference(values);
      iks := new IKS(0, 0.0);
      sw, reference := [], refs;
      new;
      AddReferences();
      FillWindow(values);
    }

    /** Every initial value enters the current window. */
    method FillWindow(values: seq<real>)
      requires iks.Valid() && Drawn(iks.keys, sw, reference, [], values) && sw == [] && iks.nCurrent == 0
      modifies this`sw, iks, iks.nodes
      ensures iks.Valid() && fresh(iks.nodes - old(iks.nodes)) && Drawn(iks.keys, sw, reference, values, values)
      ensures iks.nCurrent == |sw| && iks.nReference == old(iks.nReference)
    {
      for i := 0 to |values|
        invariant fresh(iks.nodes - old(iks.nodes)) && iks.Valid()
        invariant Drawn(iks.keys, sw, reference, values[..i], values)
        invariant iks.nCurrent == |sw| && iks.nReference == old(iks.nReference)
      {
        assert values[..i + 1] == values[..i] + [values[i]];
        AddSliding(values[i], values[..i], values);
      }
      assert values[..|values|] == values;
    }

    method AddSliding(value: real, ghost cur: seq<real>, ghost ref: seq<real>)
      requires iks.Valid() && Drawn(iks.keys, sw, reference, cur, ref)
      modifies this`sw, iks, iks.nodes
      ensures iks.Valid() && fresh(iks.nodes - old(iks.nodes))
      ensures Drawn(iks.keys, sw, reference, cur + [value], ref)
      ensures iks.nCurrent == old(iks.nCurrent) + 1 && iks.nReference == old(iks.nReference) && |sw| == old(|sw|) + 1
    {
      var rnd: int := *;
      var wrnd := Key(value, rnd, GROUP_CURRENT);
      AddCurrent(iks.keys, sw, reference, cur, ref, wrnd);
      iks.Add(wrnd, GROUP_CURRENT);
      sw := sw + [wrnd];
    }

    /** Adds every reference key to a treap that holds the current window alone. */
    method AddReferences()
      requires iks.Valid() && Drawn(iks.keys, sw, [], ValuesOf(sw), []) && AllInGroup(reference, GROUP_REFERENCE)
      modifies iks, iks.nodes
      ensures iks.Valid() && fresh(iks.nodes - old(iks.nodes))
      ensures Drawn(iks.keys, sw, reference, ValuesOf(sw), ValuesOf(reference))
      ensures iks.nCurrent == old(iks.nCurrent) && iks.nReference == old(iks.nReference) + |reference|
    {
      for i := 0 to |reference|
        invariant iks.Valid() && fresh(iks.nodes - old(iks.nodes))
        invariant Drawn(iks.keys, sw, reference[..i], ValuesOf(sw), ValuesOf(reference[..i]))
        invariant iks.nCurrent == old(iks.nCurrent) && iks.nReference == old(iks.nReference) + i
      {
        AddReference(iks.keys, sw, reference[..i], ValuesOf(sw), ValuesOf(reference[..i]), reference[i]);
        assert reference[..i + 1] == reference[..i] + [reference[i]];
        assert ValuesOf(reference[..i + 1]) == ValuesOf(reference[..i]) + [reference[i].value];
        iks.Add(reference[i], GROUP_REFERENCE);
      }
      assert reference[..|reference|] == reference;
    }

    /** Takes every reference key out of the treap; each removal hits. */
    method RemoveReferences()
      requires Valid()
      modifies iks, iks.nodes
      ensures iks.Valid() && fresh(iks.nodes - old(iks.nodes))
      ensures Drawn(iks.keys, sw, [], ValuesOf(sw), [])
      ensures iks.nCurrent == old(iks.nCurrent) && iks.nReference == 0
    {
      for i := 0 to |reference|
        invariant iks.Valid() && fresh(iks.nodes - old(iks.nodes))
        invariant Drawn(iks.keys, sw, reference[i..], ValuesOf(sw), ValuesOf(reference[i..]))
        invariant iks.nCurrent == old(iks.nCurrent) && iks.nReference == |reference| - i
      {
        RemoveReference(iks.keys, sw, reference[i..], ValuesOf(sw), ValuesOf(reference[i..]));
        assert reference[i..][1..] == reference[i + 1..];
        assert ValuesOf(reference[i..])[1..] == ValuesOf(reference[i + 1..]);
        iks.Remove(reference[i], GROUP_REFERENCE);
      }
      assert reference[|reference|..] == [] && ValuesOf([]) == [];
    }

    /** The oldest observation leaves the current window and `value` enters. */
    method Increment(value: real)
      requires Valid() && sw != []
      modifies this, iks, iks.nodes
      ensures Valid() && fresh(iks.nodes - old(iks.nodes))
      ensures ValuesOf(sw) == old(ValuesOf(sw))[1..] + [value] && reference == old(reference)
    {
      ghost var cur, ref := ValuesOf(sw), ValuesOf(reference);
      var rnd: int := *;
      var wrnd := Key(value, rnd, GROUP_CURRENT);
      SlideCurrent(iks.keys, sw, reference, cur, ref, wrnd);
      iks.Replace(sw[0], wrnd);
      sw := sw[1..] + [wrnd];
    }

    /** The current window becomes the reference; the value-based statistic is then 0. */
    method Update()
      requires Valid()
      modifies this, iks, iks.nodes
      ensures Valid() && fresh(iks.nodes - old(iks.nodes))
      ensures sw == old(sw) && ValuesOf(reference) == ValuesOf(sw)
      ensures ValuePeak(ValuesOf(sw), ValuesOf(reference)) == 0
      ensures PeakAbs(iks.keys) <= LexBias(ValuesOf(sw), ValuesOf(reference))
    {
      RemoveReferences();
      reference := DrawReference(ValuesOf(sw));
      AddReferences();
      EqualWindows(ValuesOf(sw));
      ValuePeakAbove(iks.keys, sw, reference, ValuesOf(sw), ValuesOf(reference));
      assert |sw| == |ValuesOf(sw)| && |reference| == |ValuesOf(reference)|;
    }

    /** The statistic of the two windows: never an error, always in range of the value-based one. */
    method KS() returns (r: Result<real>)
      requires Valid()
      ensures r.Ok?
      ensures r.value == if sw == [] then 0.0 else Statistic(iks.keys, |sw|)
      ensures sw != [] ==> InRange(r.value, ValuesOf(sw), ValuesOf(reference), |sw|)
    {
      r := iks.Ks();
      if sw != [] {
        assert Possible(iks.keys, ValuesOf(sw), ValuesOf(reference));
        StatisticOfKeys(iks.keys, ValuesOf(sw), ValuesOf(reference), |sw|);
      }
    }
  }
}
