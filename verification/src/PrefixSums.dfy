/**
  The sequence of keys behind a KS treap and its running group difference.
  Current keys count +1, reference keys -1; the value kept at a position is the difference up to it.
 */
module PrefixSums {
  import opened FlatList

  function Sign(k: Key): int {
    if k.group == GROUP_CURRENT then 1 else -1
  }

  /** #current keys minus #reference keys. */
  ghost function G(keys: seq<Key>): int {
    if keys == [] then 0 else G(keys[..|keys| - 1]) + Sign(keys[|keys| - 1])
  }

  function Abs(x: int): nat { if x < 0 then -x else x }

  /** Brute force: the largest |#current - #reference| over all nonempty prefixes (0 if there is none). */
  ghost function PeakAbs(keys: seq<Key>): nat {
    if keys == [] then 0 else
      var rest, here := PeakAbs(keys[..|keys| - 1]), Abs(G(keys));
      if here > rest then here else rest
  }

  lemma {:induction false} PeakAbsMeaning(keys: seq<Key>)
    ensures forall i :: 1 <= i <= |keys| ==> Abs(G(keys[..i])) <= PeakAbs(keys)
    ensures keys != [] ==> exists i :: 1 <= i <= |keys| && Abs(G(keys[..i])) == PeakAbs(keys)
  {
    if keys != [] {
      var n := |keys|;
      var front := keys[..n - 1];
      PeakAbsMeaning(front);
      assert keys[..n] == keys;
      forall i | 1 <= i <= n ensures Abs(G(keys[..i])) <= PeakAbs(keys) {
        if i < n { assert keys[..i] == front[..i]; }
      }
      if PeakAbs(keys) == Abs(G(keys)) {
        assert Abs(G(keys[..n])) == PeakAbs(keys);
      } else {
        assert front == [] ==> PeakAbs(front) == 0;
        var i :| 1 <= i <= |front| && Abs(G(front[..i])) == PeakAbs(front);
        assert front[..i] == keys[..i];
      }
    }
  }

  // ---------- the entries a sequence of keys stands for ----------

  /** Entries for `keys` when `base` is the difference before the first of them. */
  ghost function Annotate(base: int, keys: seq<Key>): (s: seq<Entry>)
    ensures |s| == |keys|
  {
    if keys == [] then [] else
      Annotate(base, keys[..|keys| - 1]) + [Entry(keys[|keys| - 1], base + G(keys))]
  }

  /** Position by position: the key itself, and the difference up to and including it. */
  lemma {:induction false} AnnotateAt(base: int, keys: seq<Key>, i: nat)
    requires i < |keys|
    ensures Annotate(base, keys)[i] == Entry(keys[i], base + G(keys[..i + 1]))
  {
    if i == |keys| - 1 {
      assert keys[..i + 1] == keys;
    } else {
      var front := keys[..|keys| - 1];
      AnnotateAt(base, front, i);
      assert front[..i + 1] == keys[..i + 1];
    }
  }

  lemma {:induction false} GConcat(a: seq<Key>, b: seq<Key>)
    ensures G(a + b) == G(a) + G(b)
  {
    if b == [] {
      assert a + b == a;
    } else {
      GConcat(a, b[..|b| - 1]);
      assert (a + b)[..|a + b| - 1] == a + b[..|b| - 1];
    }
  }

  lemma {:induction false} AnnotateConcat(base: int, a: seq<Key>, b: seq<Key>)
    ensures Annotate(base, a + b) == Annotate(base, a) + Annotate(base + G(a), b)
  {
    if b == [] {
      assert a + b == a;
    } else {
      var front := b[..|b| - 1];
      AnnotateConcat(base, a, front);
      assert (a + b)[..|a + b| - 1] == a + front;
      GConcat(a, b);
    }
  }

  lemma {:induction false} AnnotateShift(base: int, keys: seq<Key>, d: int)
    ensures Shift(Annotate(base, keys), d) == Annotate(base + d, keys)
  {
    if keys != [] {
      var n := |keys| - 1;
      AnnotateShift(base, keys[..n], d);
      ShiftConcat(Annotate(base, keys[..n]), [Entry(keys[n], base + G(keys))], d);
    }
  }

  /** The statistic read off the root is the brute-force one. */
  lemma {:induction false} PeakFromExtremes(keys: seq<Key>)
    requires keys != []
    ensures Max(MaxG(Annotate(0, keys)), -MinG(Annotate(0, keys))) == PeakAbs(keys)
  {
    var s, n := Annotate(0, keys), |keys|;
    assert s[..n - 1] == Annotate(0, keys[..n - 1]);
    if n > 1 {
      PeakFromExtremes(keys[..n - 1]);
    } else {
      assert keys[..n - 1] == [];
    }
  }

  // ---------- insertion and deletion in key order ----------

  ghost predicate SortedKeys(keys: seq<Key>) {
    forall i, j :: 0 <= i < j < |keys| ==> !Less(keys[j], keys[i])
  }

  lemma AnnotateSorted(base: int, keys: seq<Key>)
    requires SortedKeys(keys)
    ensures Sorted(Annotate(base, keys))
  {
    forall i | 0 <= i < |keys| ensures Annotate(base, keys)[i].key == keys[i] {
      AnnotateAt(base, keys, i);
    }
  }

  /** Number of leading keys below `k`. */
  ghost function LowerBound(keys: seq<Key>, k: Key): (n: nat)
    ensures n <= |keys|
  {
    if keys == [] || !Less(keys[0], k) then 0 else 1 + LowerBound(keys[1..], k)
  }

  /** `k` put before the first key that is not below it. */
  ghost function Insert(keys: seq<Key>, k: Key): seq<Key> {
    var n := LowerBound(keys, k);
    keys[..n] + [k] + keys[n..]
  }

  /** The first occurrence of `k` taken out, if there is one. */
  ghost function Delete(keys: seq<Key>, k: Key): seq<Key> {
    var n := LowerBound(keys, k);
    if n < |keys| && keys[n] == k then keys[..n] + keys[n + 1..] else keys
  }

  lemma {:induction false} LowerBoundSplits(keys: seq<Key>, k: Key)
    requires SortedKeys(keys)
    ensures forall i :: 0 <= i < LowerBound(keys, k) ==> Less(keys[i], k)
    ensures forall i :: LowerBound(keys, k) <= i < |keys| ==> !Less(keys[i], k)
  {
    if keys != [] && Less(keys[0], k) {
      LowerBoundSplits(keys[1..], k);
      var n := LowerBound(keys, k);
      forall i | 0 <= i < n ensures Less(keys[i], k) {
        if i > 0 { assert keys[i] == keys[1..][i - 1]; }
      }
      forall i | n <= i < |keys| ensures !Less(keys[i], k) {
        assert keys[i] == keys[1..][i - 1];
      }
    }
  }

  lemma LowerBoundUnique(keys: seq<Key>, k: Key, n: nat)
    requires SortedKeys(keys) && n <= |keys|
    requires forall i :: 0 <= i < n ==> Less(keys[i], k)
    requires forall i :: n <= i < |keys| ==> !Less(keys[i], k)
    ensures n == LowerBound(keys, k)
  {
    LowerBoundSplits(keys, k);
    var m := LowerBound(keys, k);
    assert m < |keys| ==> !Less(keys[m], k);
    assert n < |keys| ==> !Less(keys[n], k);
  }

  lemma LessAsymmetric(a: Key, b: Key)
    requires Less(a, b)
    ensures !Less(b, a)
  {
  }

  lemma SortedAround(a: seq<Key>, k: Key, b: seq<Key>)
    requires SortedKeys(a + b)
    requires forall i :: 0 <= i < |a| ==> Less(a[i], k)
    requires forall i :: 0 <= i < |b| ==> !Less(b[i], k)
    ensures SortedKeys(a + [k] + b)
  {
    var s, t := a + b, a + [k] + b;
    forall i, j | 0 <= i < j < |t| ensures !Less(t[j], t[i]) {
      if j == |a| {
        assert t[i] == a[i] && t[j] == k;
        LessAsymmetric(a[i], k);
      } else if i == |a| {
        assert t[i] == k && t[j] == b[j - |a| - 1];
      } else {
        var i', j' := if i < |a| then i else i - 1, if j < |a| then j else j - 1;
        assert t[i] == s[i'] && t[j] == s[j'];
      }
    }
  }

  /** Insertion keeps the order and adds exactly one copy of `k`. */
  lemma InsertMeaning(keys: seq<Key>, k: Key)
    requires SortedKeys(keys)
    ensures SortedKeys(Insert(keys, k))
    ensures multiset(Insert(keys, k)) == multiset(keys) + multiset{k}
  {
    LowerBoundSplits(keys, k);
    var n := LowerBound(keys, k);
    assert keys == keys[..n] + keys[n..];
    SortedAround(keys[..n], k, keys[n..]);
  }

  lemma SortedWithout(a: seq<Key>, k: Key, b: seq<Key>)
    requires SortedKeys(a + [k] + b)
    ensures SortedKeys(a + b)
  {
    var s, t := a + [k] + b, a + b;
    forall i, j | 0 <= i < j < |t| ensures !Less(t[j], t[i]) {
      var i', j' := if i < |a| then i else i + 1, if j < |a| then j else j + 1;
      assert t[i] == s[i'] && t[j] == s[j'];
    }
  }

  /** In a sorted sequence a present key sits at its lower bound. */
  lemma PresentAtLowerBound(keys: seq<Key>, k: Key)
    requires SortedKeys(keys) && k in keys
    ensures LowerBound(keys, k) < |keys| && keys[LowerBound(keys, k)] == k
  {
    LowerBoundSplits(keys, k);
    var n := LowerBound(keys, k);
    var i :| 0 <= i < |keys| && keys[i] == k;
    assert n <= i;
    assert !Less(keys[n], k);
    assert n < i ==> !Less(k, keys[n]);
    LessTotal(keys[n], k);
  }

  lemma LessTotal(a: Key, b: Key)
    ensures Less(a, b) || Less(b, a) || a == b
  {
  }

  /** Deletion of a present key always hits, keeps the order and removes exactly one copy. */
  lemma DeleteMeaning(keys: seq<Key>, k: Key)
    requires SortedKeys(keys)
    ensures SortedKeys(Delete(keys, k))
    ensures multiset(Delete(keys, k)) == multiset(keys) - multiset{k}
  {
    if k in keys {
      PresentAtLowerBound(keys, k);
      var n := LowerBound(keys, k);
      assert keys == keys[..n] + [k] + keys[n + 1..];
      SortedWithout(keys[..n], k, keys[n + 1..]);
    } else {
      assert k !in multiset(keys);
    }
  }

  /** Deleting what was just inserted gives back the sequence. */
  lemma DeleteInsert(keys: seq<Key>, k: Key)
    requires SortedKeys(keys)
    ensures Delete(Insert(keys, k), k) == keys
  {
    var n, s := LowerBound(keys, k), Insert(keys, k);
    FoundWhereInserted(keys, k);
    assert s == keys[..n] + [k] + keys[n..];
    assert s[..n] == keys[..n] && s[n + 1..] == keys[n..];
  }

  lemma FoundWhereInserted(keys: seq<Key>, k: Key)
    requires SortedKeys(keys)
    ensures LowerBound(Insert(keys, k), k) == LowerBound(keys, k)
  {
    var n, s := LowerBound(keys, k), Insert(keys, k);
    LowerBoundSplits(keys, k);
    InsertMeaning(keys, k);
    assert forall i :: 0 <= i < n ==> s[i] == keys[i];
    assert s[n] == k;
    assert forall i :: n < i < |s| ==> s[i] == keys[i - 1];
    LowerBoundUnique(s, k, n);
  }
}
