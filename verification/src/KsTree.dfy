/** Adding and removing one observation, on tree values: the difference sequence follows the keys. */
module KsTree {
  import opened FlatList
  import opened TreapModel
  import opened PrefixSums

  /** The value of the last node, 0 if there is none. */
  function LastValue(l: Tree): int {
    var g := SplitGreatestTree(l).1;
    if g.Leaf? then 0 else g.f.value
  }

  /** The last node split off and merged back. */
  function Rejoined(l: Tree): Tree {
    var (l', g) := SplitGreatestTree(l);
    MergeTree(l', g)
  }

  /** A new first node, and everything raised by the contribution of its key. */
  function Prepended(k: Key, priority: real, val: int, r: Tree): Tree {
    SumAllTree(MergeTree(Single(k, priority, val), r), Sign(k))
  }

  function AddTree(t: Tree, k: Key, priority: real): Tree {
    var (l, r) := SplitTree(t, k);
    MergeTree(Rejoined(l), Prepended(k, priority, LastValue(l), r))
  }

  /** The first node dropped and its contribution undone if its key is `k`; otherwise put back. */
  function Dropped(k: Key, r: Tree): Tree {
    var (g, r') := SplitSmallestTree(r);
    if g.Node? && g.f.key == k then SumAllTree(r', -Sign(k)) else MergeTree(g, r')
  }

  function RemoveTree(t: Tree, k: Key): Tree {
    var (l, r) := SplitTree(t, k);
    MergeTree(l, Dropped(k, r))
  }

  /** The treap of a key sequence: every effective value is the group difference up to its position. */
  ghost predicate Holds(t: Tree, keys: seq<Key>) {
    Good(t) && SortedKeys(keys) && Flat(t) == Annotate(0, keys)
  }

  lemma CutEntries(x: seq<Entry>, y: seq<Entry>, keys: seq<Key>, k: Key)
    requires SortedKeys(keys) && x + y == Annotate(0, keys)
    requires AllBelow(x, k) && AllAtOrAbove(y, k)
    ensures var n := LowerBound(keys, k); x == Annotate(0, keys[..n]) && y == Annotate(G(keys[..n]), keys[n..])
  {
    var n := |x|;
    assert |keys| == |x + y|;
    forall i | 0 <= i < n ensures Less(keys[i], k) {
      AnnotateAt(0, keys, i);
      assert (x + y)[i] == x[i];
    }
    forall i | n <= i < |keys| ensures !Less(keys[i], k) {
      AnnotateAt(0, keys, i);
      assert (x + y)[i] == y[i - n];
    }
    LowerBoundUnique(keys, k, n);
    assert keys[..n] + keys[n..] == keys;
    CutAt(x, y, keys[..n], keys[n..]);
  }

  lemma CutAt(x: seq<Entry>, y: seq<Entry>, a: seq<Key>, b: seq<Key>)
    requires x + y == Annotate(0, a + b) && |x| == |a|
    ensures x == Annotate(0, a) && y == Annotate(G(a), b)
  {
    AnnotateConcat(0, a, b);
    assert (x + y)[..|x|] == x && (x + y)[|x|..] == y;
  }

  /** The two halves of a split hold the two halves of the keys. */
  lemma SplitHolds(t: Tree, keys: seq<Key>, k: Key)
    requires Holds(t, keys)
    ensures var (l, r) := SplitTree(t, k); var n := LowerBound(keys, k);
      && Good(l) && Good(r)
      && Flat(l) == Annotate(0, keys[..n])
      && Flat(r) == Annotate(G(keys[..n]), keys[n..])
  {
    AnnotateSorted(0, keys);
    SplitMeaning(t, k);
    var (l, r) := SplitTree(t, k);
    CutEntries(Flat(l), Flat(r), keys, k);
  }

  /** The value popped off the left half is the difference before the cut. */
  lemma LastValueMeaning(l: Tree, a: seq<Key>)
    requires Good(l) && Flat(l) == Annotate(0, a)
    ensures LastValue(l) == G(a) && Good(Rejoined(l)) && Flat(Rejoined(l)) == Annotate(0, a)
  {
    SplitGreatestMeaning(l);
    var (l', g) := SplitGreatestTree(l);
    MergeMeaning(l', g);
    if g.Node? {
      var n := |a| - 1;
      AnnotateAt(0, a, n);
      assert Flat(l)[n] == Flat(g)[0];
      assert a[..n + 1] == a;
    }
  }

  lemma AnnotateOne(base: int, k: Key)
    ensures G([k]) == Sign(k)
    ensures Annotate(base, [k]) == [Entry(k, base + Sign(k))]
  {
    assert [k][..0] == [];
  }

  lemma ShiftOne(e: Entry, d: int)
    ensures Shift([e], d) == [Entry(e.key, e.g + d)]
  {
  }

  lemma RaisedEntries(g: int, k: Key, b: seq<Key>)
    ensures Shift([Entry(k, g)] + Annotate(g, b), Sign(k)) == Annotate(g, [k] + b)
  {
    var d := Sign(k);
    ShiftConcat([Entry(k, g)], Annotate(g, b), d);
    ShiftOne(Entry(k, g), d);
    AnnotateOne(g, k);
    AnnotateShift(g, b, d);
    AnnotateConcat(g, [k], b);
  }

  /** The new key and everything from it on, raised or lowered by one. */
  lemma InsertEntries(a: seq<Key>, k: Key, b: seq<Key>)
    ensures Annotate(0, a) + Shift([Entry(k, G(a))] + Annotate(G(a), b), Sign(k)) == Annotate(0, a + [k] + b)
  {
    RaisedEntries(G(a), k, b);
    AnnotateConcat(0, a, [k] + b);
    assert a + ([k] + b) == a + [k] + b;
  }

  lemma RaisedRight(r: Tree, k: Key, priority: real, val: int)
    requires Good(r)
    ensures var right := Prepended(k, priority, val, r);
      Good(right) && Flat(right) == Shift([Entry(k, val)] + Flat(r), Sign(k))
  {
    var single := Single(k, priority, val);
    SingleMeaning(k, priority, val);
    MergeMeaning(single, r);
    SumAllMeaning(MergeTree(single, r), Sign(k));
  }

  /** One `add` turns the treap of `keys` into the treap of `keys` with `k` inserted in order. */
  lemma AddMeaning(t: Tree, keys: seq<Key>, k: Key, priority: real)
    requires Holds(t, keys)
    ensures Holds(AddTree(t, k, priority), Insert(keys, k))
  {
    InsertMeaning(keys, k);
    SplitHolds(t, keys, k);
    var n := LowerBound(keys, k);
    var (l, r) := SplitTree(t, k);
    LastValueMeaning(l, keys[..n]);
    RaisedRight(r, k, priority, G(keys[..n]));
    MergeMeaning(Rejoined(l), Prepended(k, priority, G(keys[..n]), r));
    InsertEntries(keys[..n], k, keys[n..]);
  }

  /** Taking `k` out and undoing its contribution on what follows. */
  lemma DeleteEntries(a: seq<Key>, k: Key, b: seq<Key>, first: seq<Entry>, rest: seq<Entry>)
    requires first + rest == Annotate(G(a), [k] + b) && |first| == 1
    ensures first[0].key == k
    ensures Annotate(0, a) + Shift(rest, -Sign(k)) == Annotate(0, a + b)
  {
    AnnotateConcat(G(a), [k], b);
    AnnotateOne(G(a), k);
    assert (first + rest)[0] == first[0] && (first + rest)[1..] == rest;
    AnnotateShift(G(a) + Sign(k), b, -Sign(k));
    AnnotateConcat(0, a, b);
  }

  ghost function WithoutFirst(b: seq<Key>, k: Key): seq<Key> {
    if b != [] && b[0] == k then b[1..] else b
  }

  lemma DeleteParts(keys: seq<Key>, k: Key)
    ensures var n := LowerBound(keys, k); keys[..n] + WithoutFirst(keys[n..], k) == Delete(keys, k)
  {
    var n := LowerBound(keys, k);
    if n < |keys| {
      assert keys[n..][0] == keys[n] && keys[n..][1..] == keys[n + 1..];
    }
    assert keys[..n] + keys[n..] == keys;
  }

  lemma FirstCount(g: Tree, rest: Tree, base: int, b: seq<Key>)
    requires Flat(g) + Flat(rest) == Annotate(base, b) && (g.Node? ==> IsSingle(g)) && (g.Leaf? ==> rest.Leaf?)
    ensures |Flat(g)| == if b == [] then 0 else 1
  {
  }

  /** What comes off first is the first key, and lowering the rest by its contribution leaves the other keys. */
  lemma FirstKey(first: seq<Entry>, rest: seq<Entry>, a: seq<Key>, b: seq<Key>)
    requires first + rest == Annotate(G(a), b) && |first| == (if b == [] then 0 else 1)
    ensures b != [] ==> first[0].key == b[0]
    ensures b != [] ==> Annotate(0, a) + Shift(rest, -Sign(b[0])) == Annotate(0, a + b[1..])
  {
    if b != [] {
      assert b == [b[0]] + b[1..];
      DeleteEntries(a, b[0], b[1..], first, rest);
    }
  }

  /** The right half of a removal, when the key is there and when it is not. */
  lemma LoweredRightHit(r: Tree, a: seq<Key>, b: seq<Key>, k: Key)
    requires Good(r) && Flat(r) == Annotate(G(a), b) && b != [] && b[0] == k
    ensures Good(Dropped(k, r)) && Annotate(0, a) + Flat(Dropped(k, r)) == Annotate(0, a + b[1..])
  {
    SplitSmallestMeaning(r);
    var (g, r') := SplitSmallestTree(r);
    FirstCount(g, r', G(a), b);
    FirstKey(Flat(g), Flat(r'), a, b);
    SumAllMeaning(r', -Sign(k));
  }

  lemma LoweredRightMiss(r: Tree, a: seq<Key>, b: seq<Key>, k: Key)
    requires Good(r) && Flat(r) == Annotate(G(a), b) && (b == [] || b[0] != k)
    ensures Good(Dropped(k, r)) && Annotate(0, a) + Flat(Dropped(k, r)) == Annotate(0, a + b)
  {
    SplitSmallestMeaning(r);
    var (g, r') := SplitSmallestTree(r);
    FirstCount(g, r', G(a), b);
    FirstKey(Flat(g), Flat(r'), a, b);
    MergeMeaning(g, r');
    AnnotateConcat(0, a, b);
  }

  lemma LoweredRight(r: Tree, a: seq<Key>, b: seq<Key>, k: Key)
    requires Good(r) && Flat(r) == Annotate(G(a), b)
    ensures Good(Dropped(k, r)) && Annotate(0, a) + Flat(Dropped(k, r)) == Annotate(0, a + WithoutFirst(b, k))
  {
    if b != [] && b[0] == k {
      LoweredRightHit(r, a, b, k);
    } else {
      LoweredRightMiss(r, a, b, k);
    }
  }

  /** One `remove` takes the first copy of `k` out, or leaves the contents alone when there is none. */
  lemma RemoveMeaning(t: Tree, keys: seq<Key>, k: Key)
    requires Holds(t, keys)
    ensures Holds(RemoveTree(t, k), Delete(keys, k))
  {
    DeleteMeaning(keys, k);
    SplitHolds(t, keys, k);
    var n := LowerBound(keys, k);
    var (l, r) := SplitTree(t, k);
    LoweredRight(r, keys[..n], keys[n..], k);
    MergeMeaning(l, Dropped(k, r));
    DeleteParts(keys, k);
  }

  /** The aggregates at the root are the brute-force statistic. */
  lemma RootStatistic(t: Tree, keys: seq<Key>)
    requires Holds(t, keys)
    ensures t.Leaf? <==> keys == []
    ensures t.Node? ==> Max(t.f.maxValue, -t.f.minValue) == PeakAbs(keys)
  {
    if t.Node? {
      PeakFromExtremes(keys);
    }
  }
}
