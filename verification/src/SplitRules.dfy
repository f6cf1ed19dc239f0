/** When a node of an isolation tree is split and where, given the random choices of its construction. */
module SplitRules {
  import opened RealArith
  import opened IsolationTree

  /** A random number in [0, 1). */
  type Share = u: real | 0.0 <= u < 1.0 witness 0.0

  /** The random choices at one node: a number from which the feature is taken, and how far into its range to cut. */
  datatype Draw = Draw(pick: nat, u: Share)

  /** What a construction is given; every position in the node list has its own choices. */
  datatype Plan = Plan(limit: nat, dimension: nat, draw: nat -> Draw)

  /** A random feature: any of them, and the one picked if there are that many. */
  function FeatureAt(plan: Plan, i: nat): (feature: nat)
    requires plan.dimension > 0
    ensures feature < plan.dimension
    ensures plan.draw(i).pick < plan.dimension ==> feature == plan.draw(i).pick
  {
    plan.draw(i).pick % plan.dimension
  }

  /** Every row has the feature. */
  ghost predicate Has(rows: seq<Row>, feature: nat) {
    forall i :: 0 <= i < |rows| ==> feature < |rows[i]|
  }

  /** The smallest and the largest value of a feature. */
  ghost predicate IsRange(rows: seq<Row>, feature: nat, min: real, max: real) {
    && Has(rows, feature)
    && (forall i :: 0 <= i < |rows| ==> min <= rows[i][feature] <= max)
    && (exists i :: 0 <= i < |rows| && rows[i][feature] == min)
    && (exists i :: 0 <= i < |rows| && rows[i][feature] == max)
  }

  function Threshold(min: real, max: real, u: real): real {
    min + Times(max - min, u)
  }

  ghost predicate Stops(rows: seq<Row>, depth: nat, limit: nat) {
    |rows| <= 1 || depth >= limit
  }

  /** A leaf: nothing to split, or no way of splitting with the choices made for it. */
  ghost predicate LeafRule(rows: seq<Row>, depth: nat, plan: Plan, i: nat) {
    Stops(rows, depth, plan.limit) ||
    (plan.dimension > 0 && exists min, max :: Futile(rows, FeatureAt(plan, i), plan.draw(i).u, min, max))
  }

  ghost predicate Futile(rows: seq<Row>, feature: nat, u: real, min: real, max: real) {
    && IsRange(rows, feature, min, max)
    && (min == max
        || Select(rows, Lower(feature, Threshold(min, max, u))) == []
        || Select(rows, Upper(feature, Threshold(min, max, u))) == [])
  }

  /** A split at the drawn feature, as far into its range as drawn. */
  ghost predicate SplitRule(rows: seq<Row>, depth: nat, plan: Plan, i: nat, feature: nat, threshold: real) {
    && !Stops(rows, depth, plan.limit)
    && plan.dimension > 0 && feature == FeatureAt(plan, i)
    && exists min, max :: Cuts(rows, feature, plan.draw(i).u, min, max, threshold)
  }

  ghost predicate Cuts(rows: seq<Row>, feature: nat, u: real, min: real, max: real, threshold: real) {
    && IsRange(rows, feature, min, max) && min < max && threshold == Threshold(min, max, u)
    && Select(rows, Lower(feature, threshold)) != [] && Select(rows, Upper(feature, threshold)) != []
  }

  /** Every node of the subtree follows the rules for the rows that come to it. */
  ghost predicate Decided(nodes: seq<ITreeNode>, lo: nat, hi: nat, rows: seq<Row>, depth: nat, plan: Plan)
    decreases hi - lo
  {
    lo < hi <= |nodes| &&
    match nodes[lo]
    case Reserved => false
    case Leaf(_, _) => hi == lo + 1 && LeafRule(rows, depth, plan, lo)
    case Internal(_, feature, threshold, left, right, _) =>
      && SplitRule(rows, depth, plan, lo, feature, threshold)
      && lo + 1 == left < right < hi
      && Decided(nodes, left, right, Select(rows, Lower(feature, threshold)), depth + 1, plan)
      && Decided(nodes, right, hi, Select(rows, Upper(feature, threshold)), depth + 1, plan)
  }

  /** Only the nodes of the range matter. */
  lemma {:induction false} DecidedFrame(nodes: seq<ITreeNode>, nodes': seq<ITreeNode>, lo: nat, hi: nat,
                                        rows: seq<Row>, depth: nat, plan: Plan)
    requires Decided(nodes, lo, hi, rows, depth, plan)
    requires hi <= |nodes'| && forall i :: lo <= i < hi ==> nodes'[i] == nodes[i]
    ensures Decided(nodes', lo, hi, rows, depth, plan)
    decreases hi - lo
  {
    match nodes[lo]
    case Internal(_, feature, threshold, left, right, _) =>
      DecidedFrame(nodes, nodes', left, right, Select(rows, Lower(feature, threshold)), depth + 1, plan);
      DecidedFrame(nodes, nodes', right, hi, Select(rows, Upper(feature, threshold)), depth + 1, plan);
    case Leaf(_, _) =>
  }

  // ---------- what the rules come to ----------

  lemma {:induction false} SelectMember(rows: seq<Row>, p: Row -> bool, i: nat)
    requires i < |rows| && p(rows[i])
    ensures Select(rows, p) != []
  {
    if i < |rows| - 1 { SelectMember(rows[..|rows| - 1], p, i); }
  }

  lemma {:induction false} SelectNone(rows: seq<Row>, p: Row -> bool)
    requires forall i :: 0 <= i < |rows| ==> !p(rows[i])
    ensures Select(rows, p) == []
  {
    if rows != [] { SelectNone(rows[..|rows| - 1], p); }
  }

  lemma InsideRange(min: real, max: real, u: Share)
    requires min < max
    ensures min <= Threshold(min, max, u) < max
    ensures Threshold(min, max, u) == min <==> u == 0.0
  {
    assert Times(max - min, 1.0 - u) > 0.0 by { Positive(max - min, 1.0 - u); }
    Distributes(max - min, u, 1.0 - u);
    if u > 0.0 { Positive(max - min, u); }
  }

  lemma Positive(a: real, b: real)
    requires a > 0.0 && b > 0.0
    ensures Times(a, b) > 0.0
  {
  }

  /** On a feature that varies, a side is empty exactly if the smallest value itself is drawn as the threshold. */
  lemma Sides(rows: seq<Row>, feature: nat, u: Share, min: real, max: real)
    requires IsRange(rows, feature, min, max) && min < max
    ensures var t := Threshold(min, max, u);
      Select(rows, Upper(feature, t)) != [] && (Select(rows, Lower(feature, t)) == [] <==> u == 0.0)
  {
    var t := Threshold(min, max, u);
    InsideRange(min, max, u);
    var top :| 0 <= top < |rows| && rows[top][feature] == max;
    SelectMember(rows, Upper(feature, t), top);
    if u == 0.0 {
      SelectNone(rows, Lower(feature, t));
    } else {
      var bottom :| 0 <= bottom < |rows| && rows[bottom][feature] == min;
      SelectMember(rows, Lower(feature, t), bottom);
    }
  }

  /** All rows have the same value of the feature. */
  ghost predicate Constant(rows: seq<Row>, feature: nat) {
    Has(rows, feature) && forall i, j :: 0 <= i < |rows| && 0 <= j < |rows| ==> rows[i][feature] == rows[j][feature]
  }

  lemma RangeMeaning(rows: seq<Row>, feature: nat, min: real, max: real)
    requires IsRange(rows, feature, min, max)
    ensures min == max <==> Constant(rows, feature)
  {
    var bottom :| 0 <= bottom < |rows| && rows[bottom][feature] == min;
    var top :| 0 <= top < |rows| && rows[top][feature] == max;
  }

  /**
    A node is a leaf exactly when at most one row comes to it, it lies at the depth limit, its feature is constant on
    its rows, or 0 was drawn; otherwise it is split at its feature, the drawn share into the range on its rows.
   */
  ghost predicate NodeDecided(node: ITreeNode, rows: seq<Row>, depth: nat, plan: Plan, i: nat) {
    && !node.Reserved?
    && (plan.dimension == 0 ==> Stops(rows, depth, plan.limit))
    && (node.Leaf? <==>
          || |rows| <= 1 || depth >= plan.limit
          || Constant(rows, FeatureAt(plan, i)) || plan.draw(i).u == 0.0)
    && (node.Internal? ==>
          && node.feature == FeatureAt(plan, i)
          && exists min, max :: IsRange(rows, node.feature, min, max)
                                && Times(plan.draw(i).u, max - min) == node.threshold - min)
  }

  lemma LeafDecided(node: ITreeNode, rows: seq<Row>, depth: nat, plan: Plan, i: nat)
    requires node.Leaf? && LeafRule(rows, depth, plan, i)
    ensures NodeDecided(node, rows, depth, plan, i)
  {
    if !Stops(rows, depth, plan.limit) {
      var feature := FeatureAt(plan, i);
      var min, max :| Futile(rows, feature, plan.draw(i).u, min, max);
      RangeMeaning(rows, feature, min, max);
      if min < max { Sides(rows, feature, plan.draw(i).u, min, max); }
    }
  }

  lemma SplitDecided(node: ITreeNode, rows: seq<Row>, depth: nat, plan: Plan, i: nat)
    requires node.Internal? && SplitRule(rows, depth, plan, i, node.feature, node.threshold)
    ensures NodeDecided(node, rows, depth, plan, i)
  {
    var min, max :| Cuts(rows, node.feature, plan.draw(i).u, min, max, node.threshold);
    assert Times(plan.draw(i).u, max - min) == Times(max - min, plan.draw(i).u);
    RangeMeaning(rows, node.feature, min, max);
    Sides(rows, node.feature, plan.draw(i).u, min, max);
  }

  // ---------- every node of a tree ----------

  /** The walk of the row from node `from` passes node `i`. */
  predicate Passes(nodes: seq<ITreeNode>, from: nat, i: nat, r: Row)
    requires from < |nodes|
    decreases |nodes| - from
  {
    var next := Child(nodes, from, r);
    from == i || (from < next < |nodes| && Passes(nodes, next, i, r))
  }

  function Through(nodes: seq<ITreeNode>, from: nat, i: nat): Row -> bool
    requires from < |nodes|
  {
    (r: Row) => Passes(nodes, from, i, r)
  }

  /** The number of edges from node `from` down to node `i`. */
  function Level(nodes: seq<ITreeNode>, from: nat, i: nat): nat
    requires from < |nodes|
    decreases |nodes| - from
  {
    if i <= from || !nodes[from].Internal? then 0
    else
      var next := SideOf(nodes, from, i);
      if from < next < |nodes| then 1 + Level(nodes, next, i) else 0
  }

  lemma {:induction false} PassesInside(nodes: seq<ITreeNode>, lo: nat, hi: nat, rows: seq<Row>, depth: nat,
                                        plan: Plan, i: nat, r: Row)
    requires Decided(nodes, lo, hi, rows, depth, plan) && Passes(nodes, lo, i, r)
    ensures lo <= i < hi
    decreases hi - lo
  {
    match nodes[lo]
    case Leaf(_, _) =>
    case Internal(_, feature, threshold, left, right, _) =>
      if i != lo {
        if Lower(feature, threshold)(r) {
          PassesInside(nodes, left, right, Select(rows, Lower(feature, threshold)), depth + 1, plan, i, r);
        } else {
          PassesInside(nodes, right, hi, Select(rows, Upper(feature, threshold)), depth + 1, plan, i, r);
        }
      }
  }

  lemma {:induction false} SelectTwice(rows: seq<Row>, p: Row -> bool, q: Row -> bool, both: Row -> bool)
    requires forall r :: both(r) <==> p(r) && q(r)
    ensures Select(Select(rows, p), q) == Select(rows, both)
  {
    if rows != [] {
      var front, last := rows[..|rows| - 1], rows[|rows| - 1];
      SelectTwice(front, p, q, both);
      if p(last) {
        assert (Select(front, p) + [last])[..|Select(front, p)|] == Select(front, p);
      } else {
        assert Select(front, p) + [] == Select(front, p);
      }
    }
  }

  lemma {:induction false} SelectAll(rows: seq<Row>, p: Row -> bool)
    requires forall r :: p(r)
    ensures Select(rows, p) == rows
  {
    if rows != [] {
      SelectAll(rows[..|rows| - 1], p);
      assert rows == rows[..|rows| - 1] + [rows[|rows| - 1]];
    }
  }

  /** A row passes a node below a split exactly if it goes to the node's side and passes it from there. */
  lemma PassesBelow(nodes: seq<ITreeNode>, lo: nat, hi: nat, rows: seq<Row>, depth: nat, plan: Plan, i: nat, r: Row)
    requires Decided(nodes, lo, hi, rows, depth, plan) && nodes[lo].Internal? && lo < i < hi
    ensures Passes(nodes, lo, i, r) <==>
      Child(nodes, lo, r) == SideOf(nodes, lo, i) && Passes(nodes, SideOf(nodes, lo, i), i, r)
  {
    var n := nodes[lo];
    var lower, upper := Select(rows, Lower(n.feature, n.threshold)), Select(rows, Upper(n.feature, n.threshold));
    if Passes(nodes, n.left, i, r) { PassesInside(nodes, n.left, n.right, lower, depth + 1, plan, i, r); }
    if Passes(nodes, n.right, i, r) { PassesInside(nodes, n.right, hi, upper, depth + 1, plan, i, r); }
  }

  lemma LevelBelow(nodes: seq<ITreeNode>, lo: nat, i: nat)
    requires lo < |nodes| && nodes[lo].Internal? && lo < i
    requires lo < nodes[lo].left < |nodes| && lo < nodes[lo].right < |nodes|
    ensures Level(nodes, lo, i) == 1 + Level(nodes, SideOf(nodes, lo, i), i)
  {
  }

  /** The rows of a node whose walk passes a node below it. */
  lemma RowsBelow(nodes: seq<ITreeNode>, lo: nat, hi: nat, rows: seq<Row>, depth: nat, plan: Plan, i: nat,
                  p: Row -> bool)
    requires Decided(nodes, lo, hi, rows, depth, plan) && nodes[lo].Internal? && lo < i < hi
    requires forall r :: p(r) <==> Child(nodes, lo, r) == SideOf(nodes, lo, i)
    ensures Select(Select(rows, p), Through(nodes, SideOf(nodes, lo, i), i)) == Select(rows, Through(nodes, lo, i))
  {
    var from := SideOf(nodes, lo, i);
    forall r: Row ensures Through(nodes, lo, i)(r) <==> p(r) && Through(nodes, from, i)(r) {
      PassesBelow(nodes, lo, hi, rows, depth, plan, i, r);
    }
    SelectTwice(rows, p, Through(nodes, from, i), Through(nodes, lo, i));
  }

  lemma NodeHere(nodes: seq<ITreeNode>, lo: nat, hi: nat, rows: seq<Row>, depth: nat, plan: Plan)
    requires Decided(nodes, lo, hi, rows, depth, plan)
    ensures NodeDecided(nodes[lo], rows, depth, plan, lo)
    ensures Select(rows, Through(nodes, lo, lo)) == rows && Level(nodes, lo, lo) == 0
  {
    SelectAll(rows, Through(nodes, lo, lo));
    if nodes[lo].Leaf? {
      LeafDecided(nodes[lo], rows, depth, plan, lo);
    } else {
      SplitDecided(nodes[lo], rows, depth, plan, lo);
    }
  }

  /** `mine` are those of the rows whose walk from `lo` passes node `i`, which lies `level` - `depth` edges below. */
  ghost predicate Comes(nodes: seq<ITreeNode>, lo: nat, rows: seq<Row>, depth: nat, i: nat, mine: seq<Row>, level: nat)
    requires lo < |nodes|
  {
    mine == Select(rows, Through(nodes, lo, i)) && level == depth + Level(nodes, lo, i)
  }

  /** The side of a split that holds a node: its range, and the rows that go there. */
  lemma SideBelow(nodes: seq<ITreeNode>, lo: nat, hi: nat, rows: seq<Row>, depth: nat, plan: Plan, i: nat)
    returns (side: seq<Row>, from: nat, to: nat)
    requires Decided(nodes, lo, hi, rows, depth, plan) && lo < i < hi
    ensures lo < from <= i < to <= hi && Decided(nodes, from, to, side, depth + 1, plan)
    ensures forall mine, level ::
      Comes(nodes, from, side, depth + 1, i, mine, level) ==> Comes(nodes, lo, rows, depth, i, mine, level)
  {
    var n := nodes[lo];
    var p := if i < n.right then Lower(n.feature, n.threshold) else Upper(n.feature, n.threshold);
    to := if i < n.right then n.right else hi;
    side, from := Select(rows, p), SideOf(nodes, lo, i);
    RowsBelow(nodes, lo, hi, rows, depth, plan, i, p);
    LevelBelow(nodes, lo, i);
  }

  /** Every node follows the rules for the rows whose walk passes it, at its own depth. */
  lemma {:induction false} NodesDecided(nodes: seq<ITreeNode>, lo: nat, hi: nat, rows: seq<Row>, depth: nat,
                                        plan: Plan, i: nat)
    returns (mine: seq<Row>, level: nat)
    requires Decided(nodes, lo, hi, rows, depth, plan) && lo <= i < hi
    ensures Comes(nodes, lo, rows, depth, i, mine, level) && NodeDecided(nodes[i], mine, level, plan, i)
    decreases hi - lo
  {
    if i == lo {
      mine, level := rows, depth;
      NodeHere(nodes, lo, hi, rows, depth, plan);
    } else {
      var side, from, to := SideBelow(nodes, lo, hi, rows, depth, plan, i);
      mine, level := NodesDecided(nodes, from, to, side, depth + 1, plan, i);
    }
  }

  lemma DepthOn(nodes: seq<ITreeNode>, i: nat, r: Row)
    requires i < |nodes| && i < Child(nodes, i, r) < |nodes|
    ensures WalkDepth(nodes, i, r) == 1 + WalkDepth(nodes, Child(nodes, i, r), r)
  {
  }

  /** A walk takes as many edges as its leaf lies below the start. */
  lemma {:induction false} WalkLevel(nodes: seq<ITreeNode>, lo: nat, hi: nat, rows: seq<Row>, depth: nat,
                                     plan: Plan, r: Row)
    requires Decided(nodes, lo, hi, rows, depth, plan)
    ensures lo <= WalkLeaf(nodes, lo, r) < hi
    ensures WalkDepth(nodes, lo, r) == Level(nodes, lo, WalkLeaf(nodes, lo, r))
    decreases hi - lo
  {
    if nodes[lo].Internal? {
      var n := nodes[lo];
      var to := if Child(nodes, lo, r) == n.left then n.right else hi;
      var p := if Child(nodes, lo, r) == n.left then Lower(n.feature, n.threshold) else Upper(n.feature, n.threshold);
      WalkOn(nodes, lo, r);
      DepthOn(nodes, lo, r);
      WalkLevel(nodes, Child(nodes, lo, r), to, Select(rows, p), depth + 1, plan, r);
      LevelBelow(nodes, lo, WalkLeaf(nodes, lo, r));
    }
  }

  // ---------- the depth limit ----------

  function Pow2(n: nat): nat {
    if n == 0 then 1 else 2 * Pow2(n - 1)
  }

  /** The logarithm to base 2, rounded up. */
  function CeilLog2(n: nat): nat {
    if n <= 1 then 0 else 1 + CeilLog2((n + 1) / 2)
  }

  function DepthLimit(sampleSize: nat): nat {
    if CeilLog2(sampleSize) < 1 then 1 else CeilLog2(sampleSize)
  }

  lemma {:induction false} CeilLog2Meaning(n: nat)
    requires n >= 1
    ensures Pow2(CeilLog2(n)) >= n
    ensures CeilLog2(n) > 0 ==> Pow2(CeilLog2(n) - 1) < n
  {
    if n > 1 { CeilLog2Meaning((n + 1) / 2); }
  }

  /** At least one level, and no more than it takes for 2^limit leaves to hold every row of the sample. */
  lemma DepthLimitMeaning(sampleSize: nat)
    requires sampleSize >= 1
    ensures var limit := DepthLimit(sampleSize);
      && limit >= 1 && Pow2(limit) >= sampleSize
      && forall m :: 1 <= m < limit ==> Pow2(m) < sampleSize
  {
    CeilLog2Meaning(sampleSize);
    forall m | 1 <= m < DepthLimit(sampleSize) ensures Pow2(m) < sampleSize {
      PowersGrow(m, DepthLimit(sampleSize) - 1);
    }
  }

  lemma {:induction false} PowersGrow(m: nat, n: nat)
    requires m <= n
    ensures 1 <= Pow2(m) <= Pow2(n)
  {
    if m < n { PowersGrow(m, n - 1); } else if n > 0 { PowersGrow(n - 1, n - 1); }
  }
}
