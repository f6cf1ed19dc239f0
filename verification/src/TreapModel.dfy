/** The treap operations on tree values, and what they mean for the flat list of entries. */
module TreapModel {
  import opened FlatList

  datatype Fields = Fields(key: Key, priority: real, value: int, lazy: int, maxValue: int, minValue: int, size: int)

  /** A treap as a value. */
  datatype Tree = Leaf | Node(l: Tree, f: Fields, r: Tree)

  /** Number of nodes, counted and not cached. */
  ghost function Nodes(t: Tree): nat {
    if t.Leaf? then 0 else 1 + Nodes(t.l) + Nodes(t.r)
  }

  function Single(key: Key, priority: real, value: int): Tree {
    Node(Leaf, Fields(key, priority, value, 0, value, value, 1), Leaf)
  }

  // ---------- the operations ----------

  function SumAllTree(t: Tree, d: int): (u: Tree)
    ensures Nodes(u) == Nodes(t)
  {
    if t.Leaf? then t
    else t.(f := t.f.(value := t.f.value + d, maxValue := t.f.maxValue + d,
                      minValue := t.f.minValue + d, lazy := t.f.lazy + d))
  }

  function UnlazyTree(t: Tree): (u: Tree)
    ensures t.Node? ==> u.Node? && Nodes(u.l) == Nodes(t.l) && Nodes(u.r) == Nodes(t.r)
  {
    if t.Leaf? || t.f.lazy == 0 then t
    else Node(SumAllTree(t.l, t.f.lazy), t.f.(lazy := 0), SumAllTree(t.r, t.f.lazy))
  }

  function SizeOf(t: Tree): int {
    if t.Leaf? then 0 else t.f.size
  }

  function MaxWith(m: int, t: Tree): int {
    if t.Node? then Max(t.f.maxValue, m) else m
  }

  function MinWith(m: int, t: Tree): int {
    if t.Node? then Min(t.f.minValue, m) else m
  }

  function UpdateTree(t: Tree): Tree {
    if t.Leaf? then t
    else
      var u := UnlazyTree(t);
      u.(f := u.f.(size := 1 + SizeOf(u.l) + SizeOf(u.r),
                   maxValue := MaxWith(MaxWith(u.f.value, u.l), u.r),
                   minValue := MinWith(MinWith(u.f.value, u.l), u.r)))
  }

  function SplitTree(t: Tree, k: Key): (Tree, Tree)
    decreases Nodes(t)
  {
    if t.Leaf? then (Leaf, Leaf)
    else
      var u := UnlazyTree(t);
      if !Less(u.f.key, k) then
        var s := SplitTree(u.l, k);
        (s.0, UpdateTree(u.(l := s.1)))
      else
        var s := SplitTree(u.r, k);
        (UpdateTree(u.(r := s.0)), s.1)
  }

  function MergeTree(a: Tree, b: Tree): Tree
    decreases Nodes(a) + Nodes(b)
  {
    if a.Leaf? then b
    else if b.Leaf? then a
    else if a.f.priority > b.f.priority then
      var u := UnlazyTree(a);
      UpdateTree(u.(r := MergeTree(u.r, b)))
    else
      var u := UnlazyTree(b);
      UpdateTree(u.(l := MergeTree(a, u.l)))
  }

  function SplitSmallestTree(t: Tree): (Tree, Tree)
    decreases Nodes(t)
  {
    if t.Leaf? then (Leaf, Leaf)
    else
      var u := UnlazyTree(t);
      if u.l.Leaf? then (UpdateTree(u.(r := Leaf)), u.r)
      else
        var s := SplitSmallestTree(u.l);
        (s.0, UpdateTree(u.(l := s.1)))
  }

  function SplitGreatestTree(t: Tree): (Tree, Tree)
    decreases Nodes(t)
  {
    if t.Leaf? then (Leaf, Leaf)
    else
      var u := UnlazyTree(t);
      if u.r.Leaf? then (u.l, UpdateTree(u.(l := Leaf)))
      else
        var s := SplitGreatestTree(u.r);
        (UpdateTree(u.(r := s.0)), s.1)
  }

  // ---------- meaning ----------

  /** In-order entries with every pending ancestor delta accounted for. */
  ghost function Flat(t: Tree): seq<Entry> {
    if t.Leaf? then [] else Node3(Flat(t.l), Entry(t.f.key, t.f.value), Flat(t.r), t.f.lazy)
  }

  ghost predicate Below(t: Tree, p: real) {
    t.Node? ==> t.f.priority <= p
  }

  /** Max-heap on priorities, and every cached aggregate is exact. */
  ghost predicate Good(t: Tree) {
    t.Node? ==>
      && Good(t.l) && Good(t.r)
      && Below(t.l, t.f.priority) && Below(t.r, t.f.priority)
      && t.f.size == |Flat(t)| && t.f.maxValue == MaxG(Flat(t)) && t.f.minValue == MinG(Flat(t))
  }

  lemma SingleMeaning(key: Key, priority: real, value: int)
    ensures var t := Single(key, priority, value); Good(t) && Flat(t) == [Entry(key, value)]
  {
  }

  /** Range-add over a subtree adds to every effective value and keeps the treap good. */
  lemma SumAllMeaning(t: Tree, d: int)
    ensures Flat(SumAllTree(t, d)) == Shift(Flat(t), d)
    ensures Good(t) ==> Good(SumAllTree(t, d))
  {
    if t.Node? {
      ShiftNode3(Flat(t.l), Entry(t.f.key, t.f.value), Flat(t.r), t.f.lazy, d);
      ShiftExtremes(Flat(t), d);
    }
  }

  /** Pushing a pending delta down changes nothing that can be observed. */
  lemma UnlazyMeaning(t: Tree)
    requires t.Node?
    ensures var u := UnlazyTree(t);
      && u.f == t.f.(lazy := 0)
      && Flat(u) == Flat(t) == Flat(u.l) + [Entry(t.f.key, t.f.value)] + Flat(u.r)
      && (Good(t) ==> Good(u))
      && (Good(t.l) ==> Good(u.l)) && (Good(t.r) ==> Good(u.r))
      && (u.l.Leaf? <==> t.l.Leaf?) && (u.r.Leaf? <==> t.r.Leaf?)
      && (u.l.Node? ==> u.l.f.priority == t.l.f.priority)
      && (u.r.Node? ==> u.r.f.priority == t.r.f.priority)
  {
    SumAllMeaning(t.l, t.f.lazy);
    SumAllMeaning(t.r, t.f.lazy);
    var u := UnlazyTree(t);
    ShiftZero(Flat(u.l));
    ShiftZero(Flat(u.r));
  }

  /** `UpdateTree` repairs the aggregates of a node whose children are good. */
  lemma UpdateMeaning(t: Tree)
    requires t.Node? && Good(t.l) && Good(t.r) && Below(t.l, t.f.priority) && Below(t.r, t.f.priority)
    ensures var u := UpdateTree(t); Good(u) && Flat(u) == Flat(t) && u.f.priority == t.f.priority
  {
    UnlazyMeaning(t);
    var u, v := UnlazyTree(t), UpdateTree(t);
    AroundExtremes(Flat(u.l), Entry(t.f.key, t.f.value), Flat(u.r));
    ShiftZero(Flat(u.l));
    ShiftZero(Flat(u.r));
  }

  /** What a good node caches: the number of its entries, and their attained largest and smallest effective value. */
  lemma AggregatesExact(t: Tree)
    requires t.Node? && Good(t)
    ensures t.f.size == |Flat(t)| && IsMax(Flat(t), t.f.maxValue) && IsMin(Flat(t), t.f.minValue)
  {
    Extremes(Flat(t));
  }

  /** Both parts of `t` when its left (right) child is replaced: the node keeps its own entry. */
  lemma RelinkMeaning(t: Tree, u: Tree)
    requires t.Node? && u.Node? && t.f == u.f && t.f.lazy == 0
    requires Good(u.l) && Good(u.r) && Below(u.l, u.f.priority) && Below(u.r, u.f.priority)
    ensures Good(UpdateTree(u))
    ensures Flat(UpdateTree(u)) == Flat(u.l) + [Entry(t.f.key, t.f.value)] + Flat(u.r)
    ensures UpdateTree(u).Node? && UpdateTree(u).f.priority == t.f.priority
  {
    UpdateMeaning(u);
    ShiftZero(Flat(u.l));
    ShiftZero(Flat(u.r));
  }

  /** Splitting cuts the flat list in two: keys below `k` to the left, the others to the right. */
  lemma {:induction false} SplitMeaning(t: Tree, k: Key)
    requires Good(t) && Sorted(Flat(t))
    ensures var (a, b) := SplitTree(t, k);
      && Good(a) && Good(b)
      && Flat(a) + Flat(b) == Flat(t)
      && AllBelow(Flat(a), k) && AllAtOrAbove(Flat(b), k)
      && (t.Node? ==> Below(a, t.f.priority) && Below(b, t.f.priority))
    decreases Nodes(t)
  {
    if t.Node? {
      UnlazyMeaning(t);
      var u := UnlazyTree(t);
      var e := Entry(t.f.key, t.f.value);
      SplitSorted(Flat(u.l), e, Flat(u.r));
      if !Less(u.f.key, k) {
        SplitMeaning(u.l, k);
        var (a, b) := SplitTree(u.l, k);
        RelinkMeaning(u, u.(l := b));
        CutLeft(Flat(a), Flat(b), e, Flat(u.r), k);
      } else {
        SplitMeaning(u.r, k);
        var (a, b) := SplitTree(u.r, k);
        RelinkMeaning(u, u.(r := a));
        CutRight(Flat(u.l), e, Flat(a), Flat(b), k);
      }
    }
  }

  /** What `m` is to the two treaps it was merged from. */
  ghost predicate Joins(a: Tree, b: Tree, m: Tree) {
    && Good(m)
    && Flat(m) == Flat(a) + Flat(b)
    && (m.Leaf? <==> a.Leaf? && b.Leaf?)
    && (m.Node? ==> (a.Node? && m.f.priority == a.f.priority) || (b.Node? && m.f.priority == b.f.priority))
  }

  lemma JoinRight(a: Tree, b: Tree, m: Tree)
    requires Good(a) && a.Node? && b.Node? && a.f.priority > b.f.priority && Joins(UnlazyTree(a).r, b, m)
    ensures Joins(a, b, UpdateTree(UnlazyTree(a).(r := m)))
  {
    UnlazyMeaning(a);
    var u := UnlazyTree(a);
    RelinkMeaning(u, u.(r := m));
    Regroup(Flat(u.l), Entry(a.f.key, a.f.value), Flat(u.r), Flat(b));
  }

  lemma JoinLeft(a: Tree, b: Tree, m: Tree)
    requires Good(b) && a.Node? && b.Node? && a.f.priority <= b.f.priority && Joins(a, UnlazyTree(b).l, m)
    ensures Joins(a, b, UpdateTree(UnlazyTree(b).(l := m)))
  {
    UnlazyMeaning(b);
    var u := UnlazyTree(b);
    RelinkMeaning(u, u.(l := m));
    RegroupLeft(Flat(a), Flat(u.l), Entry(b.f.key, b.f.value), Flat(u.r));
  }

  /** Merging concatenates the flat lists, for arbitrary priorities. */
  lemma {:induction false} MergeMeaning(a: Tree, b: Tree)
    requires Good(a) && Good(b)
    ensures Joins(a, b, MergeTree(a, b))
    decreases Nodes(a) + Nodes(b)
  {
    if a.Leaf? {
      assert Flat(a) + Flat(b) == Flat(b);
    } else if b.Leaf? {
      assert Flat(a) + Flat(b) == Flat(a);
    } else if a.f.priority > b.f.priority {
      UnlazyMeaning(a);
      MergeMeaning(UnlazyTree(a).r, b);
      JoinRight(a, b, MergeTree(UnlazyTree(a).r, b));
    } else {
      UnlazyMeaning(b);
      MergeMeaning(a, UnlazyTree(b).l);
      JoinLeft(a, b, MergeTree(a, UnlazyTree(b).l));
    }
  }

  /** A single node whose own value is its effective value. */
  ghost predicate IsSingle(t: Tree) {
    t.Node? && t.l.Leaf? && t.r.Leaf? && Flat(t) == [Entry(t.f.key, t.f.value)]
  }

  /** The first entry comes off as a one-node treap; the rest keeps its order. */
  lemma {:induction false} SplitSmallestMeaning(t: Tree)
    requires Good(t)
    ensures var (a, b) := SplitSmallestTree(t);
      && Good(a) && Good(b)
      && Flat(a) + Flat(b) == Flat(t)
      && (t.Leaf? <==> a.Leaf?) && (a.Node? ==> IsSingle(a))
      && (t.Node? ==> Below(a, t.f.priority) && Below(b, t.f.priority))
    decreases Nodes(t)
  {
    if t.Node? {
      UnlazyMeaning(t);
      var u := UnlazyTree(t);
      var e := Entry(t.f.key, t.f.value);
      if u.l.Leaf? {
        RelinkMeaning(u, u.(r := Leaf));
        assert [] + [e] + [] == [e];
        assert [] + [e] + Flat(u.r) == [e] + Flat(u.r);
      } else {
        SplitSmallestMeaning(u.l);
        var (a, b) := SplitSmallestTree(u.l);
        RelinkMeaning(u, u.(l := b));
        RegroupLeft(Flat(a), Flat(b), e, Flat(u.r));
      }
    }
  }

  /** The last entry comes off as a one-node treap; the rest keeps its order. */
  lemma {:induction false} SplitGreatestMeaning(t: Tree)
    requires Good(t)
    ensures var (a, b) := SplitGreatestTree(t);
      && Good(a) && Good(b)
      && Flat(a) + Flat(b) == Flat(t)
      && (t.Leaf? <==> b.Leaf?) && (b.Node? ==> IsSingle(b))
      && (t.Node? ==> Below(a, t.f.priority) && Below(b, t.f.priority))
    decreases Nodes(t)
  {
    if t.Node? {
      UnlazyMeaning(t);
      var u := UnlazyTree(t);
      var e := Entry(t.f.key, t.f.value);
      if u.r.Leaf? {
        RelinkMeaning(u, u.(l := Leaf));
        assert [] + [e] + [] == [e];
        assert Flat(u.l) + [e] + [] == Flat(u.l) + [e];
      } else {
        SplitGreatestMeaning(u.r);
        var (a, b) := SplitGreatestTree(u.r);
        RelinkMeaning(u, u.(r := a));
        Regroup(Flat(u.l), e, Flat(a), Flat(b));
      }
    }
  }

  /** Adds `d` to exactly the entries whose key is not below `k`. */
  ghost function AddFrom(s: seq<Entry>, k: Key, d: int): seq<Entry> {
    seq(|s|, i requires 0 <= i < |s| => if Less(s[i].key, k) then s[i] else Entry(s[i].key, s[i].g + d))
  }

  lemma AddFromParts(a: seq<Entry>, b: seq<Entry>, k: Key, d: int)
    requires AllBelow(a, k) && AllAtOrAbove(b, k)
    ensures AddFrom(a + b, k, d) == a + Shift(b, d)
  {
  }

  /** Splitting and merging back changes nothing; a range-add in between is `AddFrom`. */
  lemma RangeAddFromKey(t: Tree, k: Key, d: int)
    requires Good(t) && Sorted(Flat(t))
    ensures var (l, r) := SplitTree(t, k); var m := MergeTree(l, SumAllTree(r, d));
      && Good(MergeTree(l, r)) && Flat(MergeTree(l, r)) == Flat(t)
      && Good(m) && Flat(m) == AddFrom(Flat(t), k, d)
  {
    SplitMeaning(t, k);
    var (l, r) := SplitTree(t, k);
    MergeMeaning(l, r);
    SumAllMeaning(r, d);
    MergeMeaning(l, SumAllTree(r, d));
    AddFromParts(Flat(l), Flat(r), k, d);
  }
}
