/**
  Treap with lazy range-add and subtree aggregates, updated in place.

  `Rep(n, S, t)` says that the objects reachable from `n` lie in `S`, form a tree without sharing, and are
  node by node and field by field the tree value `t`.  Each method does the pointer surgery and is tied to
  a tree function of module TreapModel, where its meaning for the flat list of entries is proved.
 */
module TreapHeap {
  import opened FlatList
  import opened TreapModel

  class Treap {
    const key: Key
    const priority: real
    var value: int
    /** Delta not yet pushed to the children; already part of this node's own fields. */
    var lazy: int
    var maxValue: int
    var minValue: int
    var size: int
    var left: Treap?
    var right: Treap?
    /** Footprints of the two subtrees. */
    ghost var lefts: set<Treap>
    ghost var rights: set<Treap>

    constructor (key: Key, value: int, priority: real)
      ensures Rep(this, {this}, Single(key, priority, value))
    {
      this.key, this.value, this.priority := key, value, priority;
      lazy, maxValue, minValue, size := 0, value, value, 1;
      left, right := null, null;
      lefts, rights := {}, {};
    }

    ghost function OwnFields(): Fields
      reads this
    {
      Fields(key, priority, value, lazy, maxValue, minValue, size)
    }
  }

  ghost predicate Rep(n: Treap?, S: set<Treap>, t: Tree)
    reads S
    decreases t
  {
    match t
    case Leaf => n == null
    case Node(l, f, r) =>
      && n != null && n in S && n.OwnFields() == f
      && n.lefts <= S && n.rights <= S && n !in n.lefts && n !in n.rights && n.lefts !! n.rights
      && Rep(n.left, n.lefts, l) && Rep(n.right, n.rights, r)
  }

  /** Two treaps without a common node, both made of nodes of `S`. */
  ghost predicate Parted(S: set<Treap>, l: Treap?, Sl: set<Treap>, r: Treap?, Sr: set<Treap>, t: (Tree, Tree))
    reads Sl, Sr
  {
    Sl <= S && Sr <= S && Sl !! Sr && Rep(l, Sl, t.0) && Rep(r, Sr, t.1)
  }

  ghost predicate Within(T: set<Treap>, n: Treap?, S: set<Treap>, t: Tree)
    reads S
  {
    S <= T && Rep(n, S, t)
  }

  /** O(1) range-add over a whole subtree. */
  method SumAll(node: Treap?, delta: int, ghost S: set<Treap>, ghost t: Tree)
    requires Rep(node, S, t)
    modifies if node == null then {} else {node}
    ensures Rep(node, S, SumAllTree(t, delta))
  {
    if node == null { return; }
    node.value := node.value + delta;
    node.maxValue := node.maxValue + delta;
    node.minValue := node.minValue + delta;
    node.lazy := node.lazy + delta;
  }

  /** Pushes the pending delta down one level. */
  method Unlazy(node: Treap?, ghost S: set<Treap>, ghost t: Tree)
    requires Rep(node, S, t)
    modifies S
    ensures Rep(node, S, UnlazyTree(t))
  {
    if node == null || node.lazy == 0 { return; }
    SumAll(node.left, node.lazy, node.lefts, t.l);
    SumAll(node.right, node.lazy, node.rights, t.r);
    node.lazy := 0;
  }

  method Aggregate(node: Treap, ghost S: set<Treap>, ghost t: Tree) returns (s: int, mx: int, mn: int)
    requires Rep(node, S, t)
    ensures s == 1 + SizeOf(t.l) + SizeOf(t.r)
    ensures mx == MaxWith(MaxWith(t.f.value, t.l), t.r)
    ensures mn == MinWith(MinWith(t.f.value, t.l), t.r)
  {
    s, mx, mn := 1, node.value, node.value;
    if node.left != null {
      s := s + node.left.size;
      if node.left.maxValue > mx { mx := node.left.maxValue; }
      if node.left.minValue < mn { mn := node.left.minValue; }
    }
    if node.right != null {
      s := s + node.right.size;
      if node.right.maxValue > mx { mx := node.right.maxValue; }
      if node.right.minValue < mn { mn := node.right.minValue; }
    }
  }

  /** Recomputes the aggregates of a node from its children, after pushing its pending delta. */
  method Update(node: Treap?, ghost S: set<Treap>, ghost t: Tree)
    requires Rep(node, S, t)
    modifies S
    ensures Rep(node, S, UpdateTree(t))
  {
    if node == null { return; }
    Unlazy(node, S, t);
    var s, mx, mn := Aggregate(node, S, UnlazyTree(t));
    node.size := s;
    node.maxValue := mx;
    node.minValue := mn;
  }

  /** Relinks the left child and updates: `node.left = l; update(node)`. */
  method LinkLeft(node: Treap, l: Treap?, ghost L: set<Treap>, ghost R: set<Treap>, ghost u: Tree)
    requires u.Node? && node.OwnFields() == u.f && Rep(l, L, u.l) && Rep(node.right, R, u.r)
    requires R == node.rights && node !in L && node !in R && L !! R
    modifies {node} + L + R
    ensures Rep(node, {node} + L + R, UpdateTree(u))
  {
    node.left, node.lefts := l, L;
    Update(node, {node} + L + R, u);
  }

  /** Relinks the right child and updates: `node.right = r; update(node)`. */
  method LinkRight(node: Treap, r: Treap?, ghost L: set<Treap>, ghost R: set<Treap>, ghost u: Tree)
    requires u.Node? && node.OwnFields() == u.f && Rep(node.left, L, u.l) && Rep(r, R, u.r)
    requires L == node.lefts && node !in L && node !in R && L !! R
    modifies {node} + L + R
    ensures Rep(node, {node} + L + R, UpdateTree(u))
  {
    node.right, node.rights := r, R;
    Update(node, {node} + L + R, u);
  }

  /** What is left of a node after its left subtree was parted: `b` is relinked, `a` stays apart. */
  method RelinkLeft(node: Treap, a: Treap?, b: Treap?, ghost S: set<Treap>, ghost A: set<Treap>, ghost B: set<Treap>,
                    ghost u: Tree, ghost s: (Tree, Tree))
    requires node in S && u.Node? && node.OwnFields() == u.f
    requires Parted(node.lefts, a, A, b, B, s) && Rep(node.right, node.rights, u.r)
    requires node !in node.lefts && node !in node.rights && node.lefts !! node.rights
    requires node.lefts <= S && node.rights <= S
    modifies {node} + B + node.rights
    ensures Parted(S, a, A, node, {node} + B + old(node.rights), (s.0, UpdateTree(u.(l := s.1))))
  {
    LinkLeft(node, b, B, node.rights, u.(l := s.1));
  }

  /** What is left of a node after its right subtree was parted: `a` is relinked, `b` stays apart. */
  method RelinkRight(node: Treap, a: Treap?, b: Treap?, ghost S: set<Treap>, ghost A: set<Treap>, ghost B: set<Treap>,
                     ghost u: Tree, ghost s: (Tree, Tree))
    requires node in S && u.Node? && node.OwnFields() == u.f
    requires Parted(node.rights, a, A, b, B, s) && Rep(node.left, node.lefts, u.l)
    requires node !in node.lefts && node !in node.rights && node.lefts !! node.rights
    requires node.lefts <= S && node.rights <= S
    modifies {node} + node.lefts + A
    ensures Parted(S, node, {node} + old(node.lefts) + A, b, B, (UpdateTree(u.(r := s.0)), s.1))
  {
    LinkRight(node, a, node.lefts, A, u.(r := s.0));
  }

  /** left: keys < `key`; right: keys >= `key`. */
  method SplitKeepRight(node: Treap?, key: Key, ghost S: set<Treap>, ghost t: Tree)
    returns (l: Treap?, r: Treap?, ghost Sl: set<Treap>, ghost Sr: set<Treap>)
    requires Rep(node, S, t)
    modifies S
    ensures Parted(S, l, Sl, r, Sr, SplitTree(t, key))
    decreases Nodes(t)
  {
    if node == null { return null, null, {}, {}; }
    Unlazy(node, S, t);
    ghost var u, L, R := UnlazyTree(t), node.lefts, node.rights;
    if !Less(node.key, key) {
      var a, b, A, B := SplitKeepRight(node.left, key, L, u.l);
      RelinkLeft(node, a, b, S, A, B, u, SplitTree(u.l, key));
      return a, node, A, {node} + B + R;
    } else {
      var a, b, A, B := SplitKeepRight(node.right, key, R, u.r);
      RelinkRight(node, a, b, S, A, B, u, SplitTree(u.r, key));
      return node, b, {node} + L + A, B;
    }
  }

  /** Joins two treaps, the first entirely before the second. */
  method Merge(left: Treap?, right: Treap?, ghost L: set<Treap>, ghost R: set<Treap>, ghost a: Tree, ghost b: Tree)
    returns (m: Treap?, ghost S: set<Treap>)
    requires Rep(left, L, a) && Rep(right, R, b) && L !! R
    modifies L + R
    ensures Within(L + R, m, S, MergeTree(a, b))
    decreases Nodes(a) + Nodes(b), 1
  {
    if left == null { return right, R; }
    if right == null { return left, L; }
    if left.priority > right.priority {
      S := MergeIntoLeft(left, right, L, R, a, b);
      return left, S;
    } else {
      S := MergeIntoRight(left, right, L, R, a, b);
      return right, S;
    }
  }

  /** `left` stays the root. */
  method MergeIntoLeft(left: Treap, right: Treap, ghost L: set<Treap>, ghost R: set<Treap>,
                       ghost a: Tree, ghost b: Tree)
    returns (ghost S: set<Treap>)
    requires Rep(left, L, a) && Rep(right, R, b) && L !! R && left.priority > right.priority
    modifies L + R
    ensures Within(L + R, left, S, MergeTree(a, b))
    decreases Nodes(a) + Nodes(b), 0
  {
    Unlazy(left, L, a);
    ghost var u, LL, LR := UnlazyTree(a), left.lefts, left.rights;
    var t, T := Merge(left.right, right, LR, R, u.r, b);
    LinkRight(left, t, LL, T, u.(r := MergeTree(u.r, b)));
    S := {left} + LL + T;
  }

  /** `right` becomes the root. */
  method MergeIntoRight(left: Treap, right: Treap, ghost L: set<Treap>, ghost R: set<Treap>,
                       ghost a: Tree, ghost b: Tree)
    returns (ghost S: set<Treap>)
    requires Rep(left, L, a) && Rep(right, R, b) && L !! R && left.priority <= right.priority
    modifies L + R
    ensures Within(L + R, right, S, MergeTree(a, b))
    decreases Nodes(a) + Nodes(b), 0
  {
    Unlazy(right, R, b);
    ghost var u, RL, RR := UnlazyTree(b), right.lefts, right.rights;
    var t, T := Merge(left, right.left, L, RL, a, u.l);
    LinkLeft(right, t, T, RR, u.(l := MergeTree(a, u.l)));
    S := {right} + T + RR;
  }

  /** Splits off the first node. */
  method SplitSmallest(node: Treap?, ghost S: set<Treap>, ghost t: Tree)
    returns (l: Treap?, r: Treap?, ghost Sl: set<Treap>, ghost Sr: set<Treap>)
    requires Rep(node, S, t)
    modifies S
    ensures Parted(S, l, Sl, r, Sr, SplitSmallestTree(t))
    decreases Nodes(t)
  {
    if node == null { return null, null, {}, {}; }
    Unlazy(node, S, t);
    ghost var u, L, R := UnlazyTree(t), node.lefts, node.rights;
    if node.left == null {
      var rest := node.right;
      RelinkRight(node, null, rest, S, {}, R, u, (Leaf, u.r));
      return node, rest, {node} + L + {}, R;
    }
    var a, b, A, B := SplitSmallest(node.left, L, u.l);
    RelinkLeft(node, a, b, S, A, B, u, SplitSmallestTree(u.l));
    return a, node, A, {node} + B + R;
  }

  /** Splits off the last node. */
  method SplitGreatest(node: Treap?, ghost S: set<Treap>, ghost t: Tree)
    returns (l: Treap?, r: Treap?, ghost Sl: set<Treap>, ghost Sr: set<Treap>)
    requires Rep(node, S, t)
    modifies S
    ensures Parted(S, l, Sl, r, Sr, SplitGreatestTree(t))
    decreases Nodes(t)
  {
    if node == null { return null, null, {}, {}; }
    Unlazy(node, S, t);
    ghost var u, L, R := UnlazyTree(t), node.lefts, node.rights;
    if node.right == null {
      var rest := node.left;
      RelinkLeft(node, rest, null, S, L, {}, u, (u.l, Leaf));
      return rest, node, L, {node} + {} + R;
    }
    var a, b, A, B := SplitGreatest(node.right, R, u.r);
    RelinkRight(node, a, b, S, A, B, u, SplitGreatestTree(u.r));
    return node, b, {node} + L + A, B;
  }

  ghost function Values(s: seq<Entry>): seq<int> {
    seq(|s|, i requires 0 <= i < |s| => s[i].g)
  }

  /** In-order effective values, read without pushing anything down: the carry stands for what is pending above. */
  method ValuesInOrder(node: Treap?, inheritedLazy: int, out: seq<int>, ghost S: set<Treap>, ghost t: Tree)
    returns (r: seq<int>)
    requires Rep(node, S, t)
    ensures r == out + Values(Shift(Flat(t), inheritedLazy))
    decreases t
  {
    if node == null { return out; }
    var childCarry := inheritedLazy + node.lazy;
    r := ValuesInOrder(node.left, childCarry, out, node.lefts, t.l);
    r := r + [node.value + inheritedLazy];
    r := ValuesInOrder(node.right, childCarry, r, node.rights, t.r);
    ShiftNode3(Flat(t.l), Entry(t.f.key, t.f.value), Flat(t.r), t.f.lazy, inheritedLazy);
  }
}
