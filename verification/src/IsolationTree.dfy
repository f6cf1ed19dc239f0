/**
  A flat isolation tree: what it means to be built for a set of rows, where a row ends when it is walked down,
  and why the two agree.
 */
module IsolationTree {
  import opened Counting

  type Row = seq<real>

  /** `Reserved` is what an internal node's position holds until its children are built. */
  datatype ITreeNode =
    | Reserved
    | Leaf(id: nat, size: nat)
    | Internal(id: nat, feature: nat, threshold: real, left: nat, right: nat, size: nat)

  datatype ITree = ITree(nodes: seq<ITreeNode>, subsampleSize: nat, depthLimit: nat, dimension: nat)

  /** Rows going left (right) at a split. */
  function Lower(feature: nat, threshold: real): Row -> bool {
    (r: Row) => feature < |r| && r[feature] < threshold
  }

  function Upper(feature: nat, threshold: real): Row -> bool {
    (r: Row) => !(feature < |r| && r[feature] < threshold)
  }

  /** The rows satisfying `p`, in order. */
  ghost function Select(rows: seq<Row>, p: Row -> bool): seq<Row> {
    if rows == [] then [] else
      Select(rows[..|rows| - 1], p) + if p(rows[|rows| - 1]) then [rows[|rows| - 1]] else []
  }

  /**
    The nodes in [lo, hi) are a preorder subtree for `rows`: a leaf of their number, or a proper split of them below
    the depth limit, with the left subtree right behind the node and the right subtree behind that.
   */
  ghost predicate BuiltFor(nodes: seq<ITreeNode>, lo: nat, hi: nat, rows: seq<Row>,
                           depth: nat, limit: nat, dimension: nat)
    decreases hi - lo
  {
    lo < hi <= |nodes| &&
    match nodes[lo]
    case Reserved => false
    case Leaf(id, size) => id == lo && hi == lo + 1 && size == |rows|
    case Internal(id, feature, threshold, left, right, size) =>
      && id == lo && feature < dimension && size == |rows| && depth < limit
      && left == lo + 1 && left < right < hi
      && Select(rows, Lower(feature, threshold)) != [] && Select(rows, Upper(feature, threshold)) != []
      && BuiltFor(nodes, left, right, Select(rows, Lower(feature, threshold)), depth + 1, limit, dimension)
      && BuiltFor(nodes, right, hi, Select(rows, Upper(feature, threshold)), depth + 1, limit, dimension)
  }

  ghost predicate Built(t: ITree, rows: seq<Row>) {
    |rows| == t.subsampleSize && BuiltFor(t.nodes, 0, |t.nodes|, rows, 0, t.depthLimit, t.dimension)
  }

  /** Only the nodes of the range matter. */
  lemma {:induction false} BuiltForFrame(nodes: seq<ITreeNode>, nodes': seq<ITreeNode>,
                                         lo: nat, hi: nat, rows: seq<Row>,
                                         depth: nat, limit: nat, dimension: nat)
    requires BuiltFor(nodes, lo, hi, rows, depth, limit, dimension)
    requires hi <= |nodes'| && forall i :: lo <= i < hi ==> nodes'[i] == nodes[i]
    ensures BuiltFor(nodes', lo, hi, rows, depth, limit, dimension)
    decreases hi - lo
  {
    match nodes[lo]
    case Internal(id, feature, threshold, left, right, size) =>
      BuiltForFrame(nodes, nodes', left, right, Select(rows, Lower(feature, threshold)), depth + 1, limit, dimension);
      BuiltForFrame(nodes, nodes', right, hi, Select(rows, Upper(feature, threshold)), depth + 1, limit, dimension);
    case Leaf(_, _) =>
  }

  // ---------- the walk ----------

  /** The child a row goes to, or the node itself if it has none. */
  function Child(nodes: seq<ITreeNode>, i: nat, r: Row): nat
    requires i < |nodes|
  {
    match nodes[i]
    case Internal(_, feature, threshold, left, right, _) => if Lower(feature, threshold)(r) then left else right
    case Reserved => i
    case Leaf(_, _) => i
  }

  /** The node a row ends in when walked down from node `i`. */
  function WalkLeaf(nodes: seq<ITreeNode>, i: nat, r: Row): (leaf: nat)
    requires i < |nodes|
    ensures leaf < |nodes|
    decreases |nodes| - i
  {
    var next := Child(nodes, i, r);
    if i < next < |nodes| then WalkLeaf(nodes, next, r) else i
  }

  /** How many edges that takes. */
  function WalkDepth(nodes: seq<ITreeNode>, i: nat, r: Row): nat
    requires i < |nodes|
    decreases |nodes| - i
  {
    var next := Child(nodes, i, r);
    if i < next < |nodes| then 1 + WalkDepth(nodes, next, r) else 0
  }

  /** Every row ends in a leaf of the subtree, within the remaining depth. */
  lemma {:induction false} WalkStaysInside(nodes: seq<ITreeNode>, lo: nat, hi: nat, rows: seq<Row>,
                                           depth: nat, limit: nat, dimension: nat, r: Row)
    requires BuiltFor(nodes, lo, hi, rows, depth, limit, dimension) && depth <= limit
    ensures lo <= WalkLeaf(nodes, lo, r) < hi && nodes[WalkLeaf(nodes, lo, r)].Leaf?
    ensures WalkDepth(nodes, lo, r) <= limit - depth
    decreases hi - lo
  {
    match nodes[lo]
    case Internal(id, feature, threshold, left, right, size) =>
      if Lower(feature, threshold)(r) {
        WalkStaysInside(nodes, left, right, Select(rows, Lower(feature, threshold)), depth + 1, limit, dimension, r);
      } else {
        WalkStaysInside(nodes, right, hi, Select(rows, Upper(feature, threshold)), depth + 1, limit, dimension, r);
      }
    case Leaf(_, _) =>
  }

  // ---------- building and walking agree ----------

  function EndsAt(nodes: seq<ITreeNode>, lo: nat, leaf: nat): Row -> bool
    requires lo < |nodes|
  {
    (r: Row) => WalkLeaf(nodes, lo, r) == leaf
  }

  lemma {:induction false} SelectSizes(rows: seq<Row>, feature: nat, threshold: real)
    ensures |Select(rows, Lower(feature, threshold))| + |Select(rows, Upper(feature, threshold))| == |rows|
  {
    if rows != [] { SelectSizes(rows[..|rows| - 1], feature, threshold); }
  }

  /** Counting after a selection is counting those that pass both tests. */
  lemma {:induction false} CountSelected(rows: seq<Row>, p: Row -> bool, q: Row -> bool, both: Row -> bool)
    requires forall r :: both(r) <==> p(r) && q(r)
    ensures Count(Select(rows, p), q) == Count(rows, both)
  {
    if rows != [] {
      var front, last := rows[..|rows| - 1], rows[|rows| - 1];
      CountSelected(front, p, q, both);
      CountConcat(Select(front, p), if p(last) then [last] else [], q);
      assert Count([last], q) == if q(last) then 1 else 0;
    }
  }

  lemma WalkOn(nodes: seq<ITreeNode>, i: nat, r: Row)
    requires i < |nodes| && i < Child(nodes, i, r) < |nodes|
    ensures WalkLeaf(nodes, i, r) == WalkLeaf(nodes, Child(nodes, i, r), r)
  {
  }

  /** The child whose subtree holds the leaf. */
  function SideOf(nodes: seq<ITreeNode>, lo: nat, leaf: nat): (child: nat)
    requires lo < |nodes| && nodes[lo].Internal?
    ensures nodes[lo].left < |nodes| && nodes[lo].right < |nodes| ==> child < |nodes|
  {
    if leaf < nodes[lo].right then nodes[lo].left else nodes[lo].right
  }

  /** On either side of a split, a row ends within that side. */
  lemma SidesInside(nodes: seq<ITreeNode>, lo: nat, hi: nat, rows: seq<Row>, depth: nat, limit: nat, dimension: nat,
                    r: Row)
    requires BuiltFor(nodes, lo, hi, rows, depth, limit, dimension) && nodes[lo].Internal?
    ensures nodes[lo].left <= WalkLeaf(nodes, nodes[lo].left, r) < nodes[lo].right
    ensures nodes[lo].right <= WalkLeaf(nodes, nodes[lo].right, r) < hi
  {
    var n := nodes[lo];
    var lower, upper := Select(rows, Lower(n.feature, n.threshold)), Select(rows, Upper(n.feature, n.threshold));
    WalkStaysInside(nodes, n.left, n.right, lower, depth + 1, limit, dimension, r);
    WalkStaysInside(nodes, n.right, hi, upper, depth + 1, limit, dimension, r);
  }

  /** ... so it ends in a leaf exactly if it goes to the leaf's side and ends in it from there. */
  lemma EndsBelow(nodes: seq<ITreeNode>, lo: nat, hi: nat, leaf: nat, r: Row)
    requires lo < |nodes| && nodes[lo].Internal? && lo < nodes[lo].left < nodes[lo].right < hi <= |nodes|
    requires nodes[lo].left <= WalkLeaf(nodes, nodes[lo].left, r) < nodes[lo].right
    requires nodes[lo].right <= WalkLeaf(nodes, nodes[lo].right, r) < hi
    ensures WalkLeaf(nodes, lo, r) == leaf <==>
      Child(nodes, lo, r) == SideOf(nodes, lo, leaf) && WalkLeaf(nodes, SideOf(nodes, lo, leaf), r) == leaf
  {
    WalkOn(nodes, lo, r);
  }

  /** A leaf's size is the number of rows the walk brings to it. */
  lemma {:induction false} LeafSizes(nodes: seq<ITreeNode>, lo: nat, hi: nat, rows: seq<Row>,
                                     depth: nat, limit: nat, dimension: nat, leaf: nat)
    requires BuiltFor(nodes, lo, hi, rows, depth, limit, dimension) && depth <= limit
    requires lo <= leaf < hi && nodes[leaf].Leaf?
    ensures nodes[leaf].size == Count(rows, EndsAt(nodes, lo, leaf))
    decreases hi - lo
  {
    match nodes[lo]
    case Leaf(_, _) => CountAll(rows, EndsAt(nodes, lo, leaf));
    case Internal(id, feature, threshold, left, right, size) =>
      var here := EndsAt(nodes, lo, leaf);
      var p := if leaf < right then Lower(feature, threshold) else Upper(feature, threshold);
      var from, to := if leaf < right then left else right, if leaf < right then right else hi;
      LeafSizes(nodes, from, to, Select(rows, p), depth + 1, limit, dimension, leaf);
      forall r: Row ensures here(r) <==> p(r) && EndsAt(nodes, from, leaf)(r) {
        SidesInside(nodes, lo, hi, rows, depth, limit, dimension, r);
        EndsBelow(nodes, lo, hi, leaf, r);
      }
      CountSelected(rows, p, EndsAt(nodes, from, leaf), here);
  }

  ghost function LeafSum(nodes: seq<ITreeNode>, lo: nat, hi: nat): nat
    requires lo <= hi <= |nodes|
  {
    if lo == hi then 0 else LeafSum(nodes, lo, hi - 1) + if nodes[hi - 1].Leaf? then nodes[hi - 1].size else 0
  }

  lemma {:induction false} LeafSumSplit(nodes: seq<ITreeNode>, lo: nat, mid: nat, hi: nat)
    requires lo <= mid <= hi <= |nodes|
    ensures LeafSum(nodes, lo, hi) == LeafSum(nodes, lo, mid) + LeafSum(nodes, mid, hi)
  {
    if mid < hi { LeafSumSplit(nodes, lo, mid, hi - 1); }
  }

  /** Leaf sizes sum to the number of rows, and there are at most 2n - 1 nodes. */
  lemma {:induction false} TreeSize(nodes: seq<ITreeNode>, lo: nat, hi: nat, rows: seq<Row>,
                                    depth: nat, limit: nat, dimension: nat)
    requires BuiltFor(nodes, lo, hi, rows, depth, limit, dimension)
    ensures LeafSum(nodes, lo, hi) == |rows|
    ensures rows != [] ==> hi - lo <= 2 * |rows| - 1
    decreases hi - lo
  {
    match nodes[lo]
    case Leaf(_, _) =>
      assert LeafSum(nodes, lo, lo) == 0;
    case Internal(id, feature, threshold, left, right, size) =>
      TreeSize(nodes, left, right, Select(rows, Lower(feature, threshold)), depth + 1, limit, dimension);
      TreeSize(nodes, right, hi, Select(rows, Upper(feature, threshold)), depth + 1, limit, dimension);
      SelectSizes(rows, feature, threshold);
      LeafSumSplit(nodes, lo, left, hi);
      LeafSumSplit(nodes, left, right, hi);
      assert LeafSum(nodes, lo, left) == 0 by { assert LeafSum(nodes, lo, lo) == 0; }
  }

  /** Every node knows its position; every internal node lies before its children, whose sizes add up to its own. */
  ghost predicate NodeOk(nodes: seq<ITreeNode>, i: nat, dimension: nat)
    requires i < |nodes|
  {
    match nodes[i]
    case Reserved => false
    case Leaf(id, size) => id == i
    case Internal(id, feature, threshold, left, right, size) =>
      && id == i && feature < dimension && i < left < right < |nodes|
      && !nodes[left].Reserved? && !nodes[right].Reserved?
      && size == nodes[left].size + nodes[right].size
  }

  lemma {:induction false} NodesOk(nodes: seq<ITreeNode>, lo: nat, hi: nat, rows: seq<Row>,
                                   depth: nat, limit: nat, dimension: nat, i: nat)
    requires BuiltFor(nodes, lo, hi, rows, depth, limit, dimension) && lo <= i < hi
    ensures NodeOk(nodes, i, dimension)
    decreases hi - lo
  {
    match nodes[lo]
    case Leaf(_, _) =>
    case Internal(id, feature, threshold, left, right, size) =>
      SelectSizes(rows, feature, threshold);
      if i == lo {
      } else if i < right {
        NodesOk(nodes, left, right, Select(rows, Lower(feature, threshold)), depth + 1, limit, dimension, i);
      } else {
        NodesOk(nodes, right, hi, Select(rows, Upper(feature, threshold)), depth + 1, limit, dimension, i);
      }
  }

  /** A whole tree built for a sample: everything the builder promises and the scorer relies on. */
  lemma BuildAndWalkAgree(t: ITree, sample: seq<Row>)
    requires Built(t, sample) && sample != []
    ensures forall i :: 0 <= i < |t.nodes| ==> NodeOk(t.nodes, i, t.dimension)
    ensures forall i :: 0 <= i < |t.nodes| && t.nodes[i].Leaf? ==>
      t.nodes[i].size == Count(sample, EndsAt(t.nodes, 0, i))
    ensures LeafSum(t.nodes, 0, |t.nodes|) == t.subsampleSize
    ensures 1 <= |t.nodes| <= 2 * t.subsampleSize - 1
    ensures forall r :: t.nodes[WalkLeaf(t.nodes, 0, r)].Leaf? && WalkDepth(t.nodes, 0, r) <= t.depthLimit
  {
    var n := |t.nodes|;
    TreeSize(t.nodes, 0, n, sample, 0, t.depthLimit, t.dimension);
    forall i | 0 <= i < n ensures NodeOk(t.nodes, i, t.dimension) {
      NodesOk(t.nodes, 0, n, sample, 0, t.depthLimit, t.dimension, i);
    }
    forall i | 0 <= i < n && t.nodes[i].Leaf? ensures t.nodes[i].size == Count(sample, EndsAt(t.nodes, 0, i)) {
      LeafSizes(t.nodes, 0, n, sample, 0, t.depthLimit, t.dimension, i);
    }
    forall r: Row ensures t.nodes[WalkLeaf(t.nodes, 0, r)].Leaf? && WalkDepth(t.nodes, 0, r) <= t.depthLimit {
      WalkStaysInside(t.nodes, 0, n, sample, 0, t.depthLimit, t.dimension, r);
    }
  }
}
