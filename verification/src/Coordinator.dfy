/** The coordinator operator, with its state updated in place. */
module Coordinator {
  import opened Messages
  import opened Results
  import opened CoordinatorModel

  class CoordinatorFunction {
    const parallelism: nat
    const localTreeCount: nat
    const expectedSlots: nat

    var trees: map<(int, int), TreeMsg>
    var currentVersion: Option<int>
    var dirty: Option<bool>
    /** The output collector. */
    var out: seq<Forest>

    ghost predicate Valid() {
      expectedSlots == parallelism * localTreeCount
    }

    ghost function State(): Coord
      reads this
    {
      Coord(trees, currentVersion, dirty)
    }

    constructor (parallelism: nat, totalTrees: nat)
      requires parallelism > 0
      ensures Valid() && State() == NEW_COORD && out == []
      ensures this.parallelism == parallelism
      ensures totalTrees == localTreeCount == 0
              || parallelism * (localTreeCount - 1) < totalTrees <= parallelism * localTreeCount
    {
      this.parallelism := parallelism;
      localTreeCount := CeilDiv(totalTrees, parallelism);
      expectedSlots := parallelism * CeilDiv(totalTrees, parallelism);
      trees, currentVersion, dirty, out := map[], None, None, [];
    }

    /** Stores the tree (overwriting its slot) and fires if every slot is filled. */
    method ProcessElement(msg: TreeMsg)
      requires Valid()
      modifies this
      ensures var (s, f) := Receive(parallelism, localTreeCount, old(State()), msg);
        State() == s && out == old(out) + if f.Some? then [f.value] else []
    {
      var subtask, slot := msg.subtask, msg.slot;
      if subtask < 0 || subtask >= parallelism { return; }
      if slot < 0 || slot >= localTreeCount { return; }
      trees := trees[(subtask, slot) := msg];
      dirty := Some(true);
      var filledCount := |trees|;
      if filledCount >= expectedSlots && dirty == Some(true) {
        FireForest();
        dirty := Some(false);
      }
    }

    method FireForest()
      requires Valid()
      modifies this`currentVersion, this`out
      ensures var (s, f) := Fire(old(State()), parallelism, localTreeCount);
        State() == s && out == old(out) + if f.Some? then [f.value] else []
    {
      var ordered: seq<TreeMsg> := [];
      for subtask := 0 to parallelism
        invariant ordered == Rows(trees, subtask, localTreeCount)
      {
        for slot := 0 to localTreeCount
          invariant ordered == Rows(trees, subtask, localTreeCount) + Row(trees, subtask, slot)
        {
          if (subtask, slot) in trees {
            ordered := ordered + [trees[(subtask, slot)]];
          }
        }
      }
      if |ordered| != expectedSlots || |ordered| == 0 { return; }
      var expectedRound := LowRound(ordered[0]);
      for i := 0 to |ordered|
        invariant forall j :: 0 <= j < i ==> LowRound(ordered[j]) == expectedRound
      {
        if LowRound(ordered[i]) != expectedRound { return; }
      }
      var subsampleSize := ordered[0].tree.subsampleSize;
      for i := 0 to |ordered|
        invariant forall j :: 0 <= j < i ==> ordered[j].tree.subsampleSize == subsampleSize
      {
        if ordered[i].tree.subsampleSize != subsampleSize { return; }
      }
      var version := currentVersion.GetOr(0) + 1;
      currentVersion := Some(version);
      out := out + [Forest(version, subsampleSize, ordered)];
    }
  }

  /** Rounded up, as the tree quota per subtask is. */
  function CeilDiv(a: nat, b: nat): (q: nat)
    requires b > 0
    ensures if a == 0 then q == 0 else b * (q - 1) < a <= b * q
  {
    if a == 0 then 0 else (a - 1) / b + 1
  }
}
