/** Building isolation trees in place, sampling without replacement, and walking them to score. */
module TreeBuilder {
  import opened IsolationTree
  import opened RealArith
  import opened SplitRules
  import opened Results

  /** The growing node list shared by the recursive calls. */
  class NodeList {
    var nodes: seq<ITreeNode>

    constructor ()
      ensures nodes == []
    {
      nodes := [];
    }
  }

  // ---------- random choices ----------

  method NextInt(bound: nat) returns (k: nat)
    requires bound > 0
    ensures k < bound
  {
    k := *;
    if k >= bound { k := 0; }
  }

  // ---------- recursive construction ----------

  method AppendLeaf(list: NodeList, size: nat) returns (id: nat)
    modifies list
    ensures id == |old(list.nodes)| && list.nodes == old(list.nodes) + [Leaf(id, size)]
  {
    id := |list.nodes|;
    list.nodes := list.nodes + [Leaf(id, size)];
  }

  /** Every row has all features of the tree, and there are some. */
  ghost predicate Wide(rows: seq<Row>, dimension: nat) {
    dimension > 0 && forall i :: 0 <= i < |rows| ==> dimension <= |rows[i]|
  }

  /** Smallest and largest value of a feature; a failure when a row does not have it. */
  method FeatureRange(data: seq<Row>, feature: nat) returns (ok: bool, min: real, max: real)
    requires data != []
    ensures ok <==> Has(data, feature)
    ensures ok ==> IsRange(data, feature, min, max)
  {
    if |data[0]| <= feature { return false, 0.0, 0.0; }
    ok, min, max := true, data[0][feature], data[0][feature];
    for i := 1 to |data|
      invariant ok && Has(data[..i], feature)
      invariant forall j :: 0 <= j < i ==> min <= data[j][feature] <= max
      invariant exists j :: 0 <= j < i && data[j][feature] == min
      invariant exists j :: 0 <= j < i && data[j][feature] == max
    {
      if |data[i]| <= feature { return false, 0.0, 0.0; }
      var v := data[i][feature];
      if v < min { min := v; } else if v > max { max := v; }
    }
  }

  /** Rows below the threshold, and the others, in order. */
  method Partition(data: seq<Row>, feature: nat, threshold: real) returns (lefts: seq<Row>, rights: seq<Row>)
    requires Has(data, feature)
    ensures lefts == Select(data, Lower(feature, threshold)) && rights == Select(data, Upper(feature, threshold))
    ensures |lefts| + |rights| == |data|
  {
    lefts, rights := [], [];
    for i := 0 to |data|
      invariant lefts == Select(data[..i], Lower(feature, threshold))
      invariant rights == Select(data[..i], Upper(feature, threshold))
      invariant |lefts| + |rights| == i
    {
      var row := data[i];
      assert data[..i + 1][..i] == data[..i];
      if row[feature] < threshold {
        lefts := lefts + [row];
      } else {
        rights := rights + [row];
      }
    }
    assert data[..|data|] == data;
  }

  lemma {:induction false} SelectWide(rows: seq<Row>, p: Row -> bool, dimension: nat)
    requires Wide(rows, dimension)
    ensures Wide(Select(rows, p), dimension)
  {
    if rows != [] { SelectWide(rows[..|rows| - 1], p, dimension); }
  }

  /** The nodes in [lo, hi) are a subtree for `data` that follows the rules. */
  ghost predicate Part(nodes: seq<ITreeNode>, lo: nat, hi: nat, data: seq<Row>, depth: nat, plan: Plan) {
    && BuiltFor(nodes, lo, hi, data, depth, plan.limit, plan.dimension)
    && Decided(nodes, lo, hi, data, depth, plan)
  }

  /** The list has grown by a subtree for `data` at its end. */
  twostate predicate Grown(list: NodeList, id: nat, data: seq<Row>, depth: nat, plan: Plan)
    reads list
  {
    && id == |old(list.nodes)| && old(list.nodes) <= list.nodes
    && Part(list.nodes, id, |list.nodes|, data, depth, plan)
  }

  lemma PartFrame(nodes: seq<ITreeNode>, nodes': seq<ITreeNode>, lo: nat, hi: nat, data: seq<Row>, depth: nat,
                  plan: Plan)
    requires Part(nodes, lo, hi, data, depth, plan)
    requires hi <= |nodes'| && forall i :: lo <= i < hi ==> nodes'[i] == nodes[i]
    ensures Part(nodes', lo, hi, data, depth, plan)
  {
    BuiltForFrame(nodes, nodes', lo, hi, data, depth, plan.limit, plan.dimension);
    DecidedFrame(nodes, nodes', lo, hi, data, depth, plan);
  }

  /** Two subtrees behind a node that splits their rows. */
  lemma PartOfTwo(nodes: seq<ITreeNode>, id: nat, data: seq<Row>, depth: nat, plan: Plan)
    requires id < |nodes| && nodes[id].Internal? && nodes[id].id == id && nodes[id].size == |data|
    requires var n := nodes[id];
      && id + 1 == n.left < n.right < |nodes|
      && SplitRule(data, depth, plan, id, n.feature, n.threshold)
      && Part(nodes, n.left, n.right, Select(data, Lower(n.feature, n.threshold)), depth + 1, plan)
      && Part(nodes, n.right, |nodes|, Select(data, Upper(n.feature, n.threshold)), depth + 1, plan)
    ensures Part(nodes, id, |nodes|, data, depth, plan)
  {
  }

  /** A leaf at the end of the list. */
  method GrowLeaf(data: seq<Row>, depth: nat, plan: Plan, list: NodeList) returns (id: nat)
    requires LeafRule(data, depth, plan, |list.nodes|)
    modifies list
    ensures Grown(list, id, data, depth, plan)
  {
    id := AppendLeaf(list, |data|);
  }

  /** Both subtrees of a split behind its reserved node, which is then filled in. */
  method BuildSplit(lefts: seq<Row>, rights: seq<Row>, ghost data: seq<Row>, feature: nat, threshold: real,
                    depth: nat, plan: Plan, list: NodeList)
    returns (ok: bool, id: nat)
    requires lefts == Select(data, Lower(feature, threshold)) && rights == Select(data, Upper(feature, threshold))
    requires lefts != [] && rights != [] && |lefts| + |rights| == |data|
    requires SplitRule(data, depth, plan, |list.nodes|, feature, threshold)
    modifies list
    ensures Wide(data, plan.dimension) ==> ok
    ensures ok ==> Grown(list, id, data, depth, plan)
    decreases |data|, 0
  {
    if Wide(data, plan.dimension) {
      SelectWide(data, Lower(feature, threshold), plan.dimension);
      SelectWide(data, Upper(feature, threshold), plan.dimension);
    }
    id := |list.nodes|;
    list.nodes := list.nodes + [Reserved];
    var leftId, rightId;
    ok, leftId := BuildRecursive(lefts, depth + 1, plan, list);
    if !ok { return; }
    ghost var afterLeft := list.nodes;
    ok, rightId := BuildRecursive(rights, depth + 1, plan, list);
    if !ok { return; }
    ghost var afterRight := list.nodes;
    list.nodes := list.nodes[id := Internal(id, feature, threshold, leftId, rightId, |lefts| + |rights|)];
    PartFrame(afterLeft, list.nodes, leftId, rightId, lefts, depth + 1, plan);
    PartFrame(afterRight, list.nodes, rightId, |list.nodes|, rights, depth + 1, plan);
    PartOfTwo(list.nodes, id, data, depth, plan);
  }

  /** Appends a subtree for `data`; the nodes already in the list stay.  A row without a drawn feature is a failure. */
  method BuildRecursive(data: seq<Row>, depth: nat, plan: Plan, list: NodeList) returns (ok: bool, id: nat)
    requires data != []
    modifies list
    ensures Wide(data, plan.dimension) ==> ok
    ensures ok ==> Grown(list, id, data, depth, plan)
    decreases |data|, 1
  {
    ok := true;
    var n := |data|;
    if depth >= plan.limit || n <= 1 {
      id := GrowLeaf(data, depth, plan, list);
      return;
    }
    if plan.dimension == 0 { return false, 0; }
    var feature := FeatureAt(plan, |list.nodes|);
    var min, max;
    ok, min, max := FeatureRange(data, feature);
    if !ok { return false, 0; }
    var threshold := min + Times(max - min, plan.draw(|list.nodes|).u);
    if min == max {
      assert Futile(data, feature, plan.draw(|list.nodes|).u, min, max);
      id := GrowLeaf(data, depth, plan, list);
      return;
    }
    var leftList, rightList := Partition(data, feature, threshold);
    if leftList == [] || rightList == [] {
      assert Futile(data, feature, plan.draw(|list.nodes|).u, min, max);
      id := GrowLeaf(data, depth, plan, list);
      return;
    }
    assert Cuts(data, feature, plan.draw(|list.nodes|).u, min, max, threshold);
    ok, id := BuildSplit(leftList, rightList, data, feature, threshold, depth, plan, list);
  }

  // ---------- sampling ----------

  /** `idx` lists each of 0 .. n-1 once. */
  ghost predicate Permutation(idx: seq<nat>, n: nat) {
    && |idx| == n
    && (forall i :: 0 <= i < n ==> idx[i] < n)
    && forall i, j :: 0 <= i < j < n ==> idx[i] != idx[j]
  }

  /** `rows` is the data reordered by `idx`. */
  ghost predicate Reordered(rows: seq<Row>, data: seq<Row>, idx: seq<nat>) {
    && Permutation(idx, |data|)
    && |rows| == |data| && multiset(rows) == multiset(data)
    && forall k :: 0 <= k < |data| ==> rows[k] == data[idx[k]]
  }

  function Swapped<T>(s: seq<T>, i: nat, j: nat): seq<T>
    requires i < |s| && j < |s|
  {
    s[i := s[j]][j := s[i]]
  }

  lemma SwapKeepsElements<T>(s: seq<T>, i: nat, j: nat)
    requires i < |s| && j < |s|
    ensures multiset(Swapped(s, i, j)) == multiset(s)
  {
  }

  lemma SwapKeepsOrder(rows: seq<Row>, data: seq<Row>, idx: seq<nat>, i: nat, j: nat)
    requires Reordered(rows, data, idx) && i < |data| && j < |data|
    ensures Reordered(Swapped(rows, i, j), data, Swapped(idx, i, j))
  {
    SwapKeepsElements(rows, i, j);
  }

  /** Partial Fisher-Yates on an index array: after every swap it is a permutation. */
  method ShuffleFirst(idx: array<nat>, sampleSize: nat, ghost data: seq<Row>) returns (ghost rows: seq<Row>)
    requires idx.Length == |data| && sampleSize <= |data| && Reordered(data, data, idx[..])
    modifies idx
    ensures Reordered(rows, data, idx[..])
  {
    rows := data;
    var n := idx.Length;
    for i := 0 to sampleSize
      invariant Reordered(rows, data, idx[..])
    {
      var k := NextInt(n - i);
      var j := i + k;
      SwapKeepsOrder(rows, data, idx[..], i, j);
      rows := Swapped(rows, i, j);
      ghost var next := Swapped(idx[..], i, j);
      idx[i], idx[j] := idx[j], idx[i];
      assert idx[..] == next;
    }
  }

  /** Rows of the data at distinct positions, so no more of each than the data has. */
  ghost predicate Drawn(out: seq<Row>, data: seq<Row>, picked: seq<nat>) {
    && |picked| == |out| && multiset(out) <= multiset(data)
    && (forall i :: 0 <= i < |out| ==> picked[i] < |data| && out[i] == data[picked[i]])
    && forall i, j :: 0 <= i < j < |out| ==> picked[i] != picked[j]
  }

  lemma PrefixDrawn(rows: seq<Row>, data: seq<Row>, idx: seq<nat>, n: nat)
    requires Reordered(rows, data, idx) && n <= |data|
    ensures Drawn(rows[..n], data, idx[..n])
  {
    PrefixElements(rows, n);
  }

  /** The rows at the first positions of the index array. */
  method RowsAt(data: seq<Row>, idx: array<nat>, n: nat, ghost rows: seq<Row>) returns (out: seq<Row>)
    requires n <= |data| == idx.Length && Reordered(rows, data, idx[..])
    ensures out == rows[..n]
  {
    out := [];
    for i := 0 to n
      invariant out == rows[..i]
    {
      out := out + [data[idx[i]]];
    }
  }

  /** A sample without replacement. */
  method Subsample(data: seq<Row>, sampleSize: nat) returns (out: seq<Row>, ghost picked: seq<nat>)
    ensures |out| == if sampleSize < |data| then sampleSize else |data|
    ensures Drawn(out, data, picked)
  {
    var n := |data|;
    if sampleSize >= n {
      picked := seq(n, i => i);
      return data, picked;
    }
    var idx := new nat[n](i => i);
    ghost var rows := ShuffleFirst(idx, sampleSize, data);
    out := RowsAt(data, idx, sampleSize, rows);
    picked := idx[..][..sampleSize];
    PrefixDrawn(rows, data, idx[..], sampleSize);
  }

  lemma PrefixElements<T>(s: seq<T>, n: nat)
    requires n <= |s|
    ensures multiset(s[..n]) <= multiset(s)
  {
    assert s == s[..n] + s[n..];
  }

  /** Any order of the pool, as a full shuffle leaves it. */
  method Shuffle(pool: seq<Row>) returns (shuffled: seq<Row>)
    ensures multiset(shuffled) == multiset(pool) && |shuffled| == |pool|
  {
    shuffled := pool;
    var i := |pool|;
    while i > 1
      invariant i <= |pool| == |shuffled| && multiset(shuffled) == multiset(pool)
    {
      var k := NextInt(i);
      SwapKeepsElements(shuffled, i - 1, k);
      shuffled := Swapped(shuffled, i - 1, k);
      i := i - 1;
    }
  }

  ghost function PlanOf(t: ITree, draw: nat -> Draw): Plan {
    Plan(t.depthLimit, t.dimension, draw)
  }

  /** A tree built, by the rules, for a sample of min(size, |data|) rows without replacement. */
  ghost predicate BuiltFrom(t: ITree, sample: seq<Row>, data: seq<Row>, size: int, draw: nat -> Draw) {
    && Built(t, sample) && multiset(sample) <= multiset(data)
    && |sample| == (if size < |data| then size else |data|)
    && t.depthLimit == DepthLimit(|sample|)
    && Decided(t.nodes, 0, |t.nodes|, sample, 0, PlanOf(t, draw))
  }

  /** What the rules make of a whole tree. */
  lemma BuiltAsDrawn(t: ITree, sample: seq<Row>, data: seq<Row>, size: int, draw: nat -> Draw)
    requires BuiltFrom(t, sample, data, size, draw)
    ensures forall i :: 0 <= i < |t.nodes| ==>
      NodeDecided(t.nodes[i], Select(sample, Through(t.nodes, 0, i)), Level(t.nodes, 0, i), PlanOf(t, draw), i)
    ensures forall r: Row :: WalkDepth(t.nodes, 0, r) == Level(t.nodes, 0, WalkLeaf(t.nodes, 0, r))
  {
    forall i | 0 <= i < |t.nodes|
      ensures NodeDecided(t.nodes[i], Select(sample, Through(t.nodes, 0, i)), Level(t.nodes, 0, i), PlanOf(t, draw), i)
    {
      var mine, level := NodesDecided(t.nodes, 0, |t.nodes|, sample, 0, PlanOf(t, draw), i);
    }
    forall r: Row ensures WalkDepth(t.nodes, 0, r) == Level(t.nodes, 0, WalkLeaf(t.nodes, 0, r)) {
      WalkLevel(t.nodes, 0, |t.nodes|, sample, 0, PlanOf(t, draw), r);
    }
  }

  /** No data or no sample size is an error, and so is a row found to lack a drawn feature. */
  method Build(data: seq<Row>, subsampleSize: int, draw: nat -> Draw)
    returns (r: Result<ITree>, ghost sample: seq<Row>)
    ensures data == [] || subsampleSize <= 0 ==> r.Err?
    ensures data != [] && subsampleSize > 0 && Wide(data, |data[0]|) ==> r.Ok?
    ensures r.Ok? ==> BuiltFrom(r.value, sample, data, subsampleSize, draw) && r.value.dimension == |data[0]|
  {
    sample := [];
    if data == [] { return Err, sample; }
    if subsampleSize <= 0 { return Err, sample; }
    var dimension := |data[0]|;
    var actualSubsample := if subsampleSize < |data| then subsampleSize else |data|;
    var rows, picked := Subsample(data, actualSubsample);
    sample := rows;
    var depthLimit := DepthLimit(actualSubsample);
    var list := new NodeList();
    var ok, root := BuildRecursive(rows, 0, Plan(depthLimit, dimension, draw), list);
    if !ok { return Err, sample; }
    return Ok(ITree(list.nodes, actualSubsample, depthLimit, dimension)), sample;
  }

  ghost predicate Uniform(rows: seq<Row>, dimension: nat) {
    forall i :: 0 <= i < |rows| ==> |rows[i]| == dimension
  }

  /** Shuffle, take a prefix, build: again a tree for min(sampleSize, |pool|) rows of the pool. */
  method BuildFromPool(pool: seq<Row>, sampleSize: int, draw: nat -> Draw)
    returns (r: Result<ITree>, ghost sample: seq<Row>)
    ensures pool == [] || sampleSize <= 0 ==> r.Err?
    ensures pool != [] && sampleSize > 0 && |pool[0]| > 0 && Uniform(pool, |pool[0]|) ==> r.Ok?
    ensures r.Ok? ==> BuiltFrom(r.value, sample, pool, sampleSize, draw)
    ensures r.Ok? ==> exists row :: row in pool && r.value.dimension == |row|
  {
    sample := [];
    if pool == [] || sampleSize <= 0 { return Err, sample; }
    var actualN := if sampleSize < |pool| then sampleSize else |pool|;
    var shuffled := Shuffle(pool);
    var taken := shuffled[..actualN];
    PrefixElements(shuffled, actualN);
    assert taken[0] in multiset(taken);
    assert taken[0] in multiset(pool);
    if Uniform(pool, |pool[0]|) { UniformElements(pool, taken, |pool[0]|); }
    r, sample := Build(taken, actualN, draw);
  }

  lemma UniformElements(pool: seq<Row>, taken: seq<Row>, dimension: nat)
    requires Uniform(pool, dimension) && multiset(taken) <= multiset(pool)
    ensures Uniform(taken, dimension)
  {
    forall i | 0 <= i < |taken| ensures |taken[i]| == dimension {
      assert taken[i] in multiset(taken);
      assert taken[i] in multiset(pool);
    }
  }

  // ---------- scoring ----------

  function SizeAt(nodes: seq<ITreeNode>, i: nat): nat
    requires i < |nodes|
  {
    if nodes[i].Reserved? then 0 else nodes[i].size
  }

  /** Some rows have their subtree in [i, hi). */
  ghost predicate Subtree(t: ITree, i: nat, hi: nat, depth: nat) {
    exists rows :: BuiltFor(t.nodes, i, hi, rows, depth, t.depthLimit, t.dimension)
  }

  /** A walk from the root has come to node `i` after `depth` edges, the root of a subtree that ends at `hi`. */
  ghost predicate Reached(t: ITree, i: nat, hi: nat, depth: nat, r: Row) {
    && i < hi <= |t.nodes| && depth <= t.depthLimit && Subtree(t, i, hi, depth)
    && WalkLeaf(t.nodes, 0, r) == WalkLeaf(t.nodes, i, r)
    && WalkDepth(t.nodes, 0, r) == depth + WalkDepth(t.nodes, i, r)
  }

  lemma SplitBelow(t: ITree, i: nat, hi: nat, depth: nat)
    requires Subtree(t, i, hi, depth) && i < |t.nodes| && !t.nodes[i].Leaf?
    ensures t.nodes[i].Internal? && t.nodes[i].feature < t.dimension && depth < t.depthLimit
    ensures i < t.nodes[i].left < t.nodes[i].right < hi <= |t.nodes|
    ensures Subtree(t, t.nodes[i].left, t.nodes[i].right, depth + 1) && Subtree(t, t.nodes[i].right, hi, depth + 1)
  {
    var rows :| BuiltFor(t.nodes, i, hi, rows, depth, t.depthLimit, t.dimension);
    var n := t.nodes[i];
    var lower, upper := Select(rows, Lower(n.feature, n.threshold)), Select(rows, Upper(n.feature, n.threshold));
    assert BuiltFor(t.nodes, n.left, n.right, lower, depth + 1, t.depthLimit, t.dimension);
    assert BuiltFor(t.nodes, n.right, hi, upper, depth + 1, t.depthLimit, t.dimension);
  }

  /** One edge further down. */
  lemma OneDown(t: ITree, i: nat, hi: nat, depth: nat, r: Row) returns (hi': nat)
    requires Reached(t, i, hi, depth, r) && !t.nodes[i].Leaf? && |r| >= t.dimension
    ensures t.nodes[i].Internal? && t.nodes[i].feature < |r|
    ensures i < Child(t.nodes, i, r) && hi' <= hi && Reached(t, Child(t.nodes, i, r), hi', depth + 1, r)
  {
    SplitBelow(t, i, hi, depth);
    hi' := if Child(t.nodes, i, r) == t.nodes[i].left then t.nodes[i].right else hi;
  }

  /** Edges from the root to the row's leaf, plus the correction for the rows left together there. */
  method PathLength(features: Row, t: ITree, averagePathLength: nat -> real, ghost sample: seq<Row>) returns (h: real)
    requires Built(t, sample) && |features| >= t.dimension
    ensures h == WalkDepth(t.nodes, 0, features) as real
                 + averagePathLength(SizeAt(t.nodes, WalkLeaf(t.nodes, 0, features)))
    ensures WalkDepth(t.nodes, 0, features) <= t.depthLimit
  {
    var i: nat, depth: nat := 0, 0;
    ghost var hi: nat := |t.nodes|;
    WalkStaysInside(t.nodes, 0, hi, sample, 0, t.depthLimit, t.dimension, features);
    while !t.nodes[i].Leaf?
      invariant Reached(t, i, hi, depth, features)
      decreases hi - i
    {
      var node := t.nodes[i];
      hi := OneDown(t, i, hi, depth, features);
      if features[node.feature] < node.threshold {
        i := node.left;
      } else {
        i := node.right;
      }
      depth := depth + 1;
    }
    return depth as real + averagePathLength(t.nodes[i].size);
  }
}
