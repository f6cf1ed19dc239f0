/**
  The flat view of a treap: a sequence of (key, effective value) entries in key order.
  Range-add is `Shift`; the two aggregates are `MaxG` and `MinG`.
 */
module FlatList {

  /** Group numbers of the composite key: a current observation counts +1, a reference one -1. */
  const GROUP_CURRENT := 0
  const GROUP_REFERENCE := 1

  /** The composite key of an observation: value, then tie-break number, then group. */
  datatype Key = Key(value: real, rnd: int, group: int)

  /** Strict lexicographic order on keys (`IKSKey.compareTo` < 0). */
  predicate Less(a: Key, b: Key) {
    a.value < b.value ||
    (a.value == b.value && (a.rnd < b.rnd || (a.rnd == b.rnd && a.group < b.group)))
  }

  datatype Entry = Entry(key: Key, g: int)

  /** Weak key order; equal keys may repeat. */
  ghost predicate Sorted(s: seq<Entry>) {
    forall i, j :: 0 <= i < j < |s| ==> !Less(s[j].key, s[i].key)
  }

  ghost predicate AllBelow(s: seq<Entry>, k: Key) {
    forall i :: 0 <= i < |s| ==> Less(s[i].key, k)
  }

  ghost predicate AllAtOrAbove(s: seq<Entry>, k: Key) {
    forall i :: 0 <= i < |s| ==> !Less(s[i].key, k)
  }

  /** Adds `d` to every value. */
  ghost function Shift(s: seq<Entry>, d: int): seq<Entry> {
    seq(|s|, i requires 0 <= i < |s| => Entry(s[i].key, s[i].g + d))
  }

  lemma ShiftZero(s: seq<Entry>)
    ensures Shift(s, 0) == s
  {
    assert forall i :: 0 <= i < |s| ==> Shift(s, 0)[i] == s[i];
  }

  lemma ShiftShift(s: seq<Entry>, a: int, b: int)
    ensures Shift(Shift(s, a), b) == Shift(s, a + b)
  {
  }

  lemma ShiftConcat(s: seq<Entry>, t: seq<Entry>, d: int)
    ensures Shift(s + t, d) == Shift(s, d) + Shift(t, d)
  {
  }

  /** The flat contents of a node with left part `l`, own entry `e`, right part `r` and pending delta `d`. */
  ghost function Node3(l: seq<Entry>, e: Entry, r: seq<Entry>, d: int): (s: seq<Entry>)
    ensures |s| == |l| + 1 + |r|
  {
    Shift(l, d) + [e] + Shift(r, d)
  }

  lemma ShiftNode3(l: seq<Entry>, e: Entry, r: seq<Entry>, d: int, a: int)
    ensures Shift(Node3(l, e, r, d), a) == Node3(l, Entry(e.key, e.g + a), r, d + a)
  {
    ShiftShift(l, d, a);
    ShiftShift(r, d, a);
    ShiftConcat(Shift(l, d) + [e], Shift(r, d), a);
    ShiftConcat(Shift(l, d), [e], a);
  }

  function Max(a: int, b: int): int { if a > b then a else b }

  function Min(a: int, b: int): int { if a < b then a else b }

  ghost predicate IsMax(s: seq<Entry>, m: int) {
    (exists i :: 0 <= i < |s| && s[i].g == m) && forall i :: 0 <= i < |s| ==> s[i].g <= m
  }

  ghost predicate IsMin(s: seq<Entry>, m: int) {
    (exists i :: 0 <= i < |s| && s[i].g == m) && forall i :: 0 <= i < |s| ==> m <= s[i].g
  }

  ghost function MaxG(s: seq<Entry>): int
    requires |s| > 0
  {
    if |s| == 1 then s[0].g else Max(MaxG(s[..|s| - 1]), s[|s| - 1].g)
  }

  ghost function MinG(s: seq<Entry>): int
    requires |s| > 0
  {
    if |s| == 1 then s[0].g else Min(MinG(s[..|s| - 1]), s[|s| - 1].g)
  }

  /** `MaxG` and `MinG` are the exact extremes of the values. */
  lemma {:induction false} Extremes(s: seq<Entry>)
    requires |s| > 0
    ensures IsMax(s, MaxG(s)) && IsMin(s, MinG(s))
  {
    if |s| == 1 {
      assert s[0].g == MaxG(s);
    } else {
      var t, n := s[..|s| - 1], |s| - 1;
      Extremes(t);
      var i :| 0 <= i < n && t[i].g == MaxG(t);
      var j :| 0 <= j < n && t[j].g == MinG(t);
      assert s[i] == t[i] && s[j] == t[j];
      assert s[n].g == MaxG(s) || s[i].g == MaxG(s);
      assert s[n].g == MinG(s) || s[j].g == MinG(s);
      assert forall k :: 0 <= k < n ==> s[k] == t[k];
    }
  }

  lemma {:induction false} ShiftExtremes(s: seq<Entry>, d: int)
    requires |s| > 0
    ensures |Shift(s, d)| == |s|
    ensures MaxG(Shift(s, d)) == MaxG(s) + d
    ensures MinG(Shift(s, d)) == MinG(s) + d
  {
    if |s| > 1 {
      ShiftExtremes(s[..|s| - 1], d);
      assert Shift(s, d)[..|s| - 1] == Shift(s[..|s| - 1], d);
    }
  }

  lemma {:induction false} ConcatExtremes(s: seq<Entry>, t: seq<Entry>)
    requires |s| > 0 && |t| > 0
    ensures MaxG(s + t) == Max(MaxG(t), MaxG(s))
    ensures MinG(s + t) == Min(MinG(t), MinG(s))
  {
    var u := s + t;
    if |t| == 1 {
      assert u[..|u| - 1] == s;
    } else {
      ConcatExtremes(s, t[..|t| - 1]);
      assert u[..|u| - 1] == s + t[..|t| - 1];
    }
  }

  ghost function MaxWithPart(m: int, s: seq<Entry>): int {
    if s == [] then m else Max(MaxG(s), m)
  }

  ghost function MinWithPart(m: int, s: seq<Entry>): int {
    if s == [] then m else Min(MinG(s), m)
  }

  /** Extremes of a node's flat list from those of its parts. */
  lemma AroundExtremes(l: seq<Entry>, e: Entry, r: seq<Entry>)
    ensures MaxG(l + [e] + r) == MaxWithPart(MaxWithPart(e.g, l), r)
    ensures MinG(l + [e] + r) == MinWithPart(MinWithPart(e.g, l), r)
  {
    if l == [] {
      assert l + [e] == [e];
    } else {
      ConcatExtremes(l, [e]);
    }
    if r == [] {
      assert l + [e] + r == l + [e];
    } else {
      ConcatExtremes(l + [e], r);
    }
  }

  lemma SortedParts(s: seq<Entry>, t: seq<Entry>)
    requires Sorted(s + t)
    ensures Sorted(s) && Sorted(t)
    ensures forall i, j :: 0 <= i < |s| && 0 <= j < |t| ==> !Less(t[j].key, s[i].key)
  {
    var u := s + t;
    forall i, j | 0 <= i < j < |s| ensures !Less(s[j].key, s[i].key) {
      assert s[i] == u[i] && s[j] == u[j];
    }
    forall i, j | 0 <= i < j < |t| ensures !Less(t[j].key, t[i].key) {
      assert t[i] == u[|s| + i] && t[j] == u[|s| + j];
    }
    forall i, j | 0 <= i < |s| && 0 <= j < |t| ensures !Less(t[j].key, s[i].key) {
      assert s[i] == u[i] && t[j] == u[|s| + j];
    }
  }

  lemma SplitSorted(l: seq<Entry>, e: Entry, r: seq<Entry>)
    requires Sorted(l + [e] + r)
    ensures Sorted(l) && Sorted(r)
    ensures forall i :: 0 <= i < |l| ==> !Less(e.key, l[i].key)
    ensures forall i :: 0 <= i < |r| ==> !Less(r[i].key, e.key)
  {
    SortedParts(l + [e], r);
    SortedParts(l, [e]);
    assert (l + [e])[|l|] == e && [e][0] == e;
  }

  /** The cut falls inside `a + b`, left of the entry `e`. */
  lemma CutLeft(a: seq<Entry>, b: seq<Entry>, e: Entry, r: seq<Entry>, k: Key)
    requires AllAtOrAbove(b, k) && !Less(e.key, k)
    requires forall i :: 0 <= i < |r| ==> !Less(r[i].key, e.key)
    ensures a + (b + [e] + r) == (a + b) + [e] + r
    ensures AllAtOrAbove(b + [e] + r, k)
  {
  }

  /** The cut falls inside `a + b`, right of the entry `e`. */
  lemma CutRight(l: seq<Entry>, e: Entry, a: seq<Entry>, b: seq<Entry>, k: Key)
    requires AllBelow(a, k) && Less(e.key, k)
    requires forall i :: 0 <= i < |l| ==> !Less(e.key, l[i].key)
    ensures (l + [e] + a) + b == l + [e] + (a + b)
    ensures AllBelow(l + [e] + a, k)
  {
  }

  lemma Regroup(l: seq<Entry>, e: Entry, r: seq<Entry>, t: seq<Entry>)
    ensures (l + [e] + r) + t == l + [e] + (r + t)
  {
  }

  lemma RegroupLeft(t: seq<Entry>, l: seq<Entry>, e: Entry, r: seq<Entry>)
    ensures t + (l + [e] + r) == (t + l) + [e] + r
  {
  }
}
