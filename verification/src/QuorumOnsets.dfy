/** The offline aggregator: onsets where enough features have a recent rising edge, over per-feature edge queues. */
module QuorumOnsets {
  import opened Counting

  const NEVER := -1_000_000_000_000_000_000

  datatype Params = Params(k: nat, persist: int, refractory: int, aggWin: nat)

  ghost predicate Ascending(s: seq<int>) {
    forall i, j :: 0 <= i <= j < |s| ==> s[i] <= s[j]
  }

  // ---------- the queues ----------

  /** The queue of one feature: its admitted, not yet evicted edges, and the position of the pending one. */
  datatype Queue = Queue(present: seq<int>, next: nat)

  /** What is left when edges before the window are dropped from the front. */
  function Evicted(win: nat, q: seq<int>, point: int): seq<int> {
    if q != [] && q[0] < point - win then Evicted(win, q[1..], point) else q
  }

  /** What is there when the pending edges that have been reached are appended. */
  function Admitted(edges: seq<int>, q: Queue, point: int): Queue
    decreases |edges| - q.next
  {
    if q.next < |edges| && edges[q.next] <= point
    then Admitted(edges, Queue(q.present + [edges[q.next]], q.next + 1), point) else q
  }

  /** One evaluation point: eviction, then admission. */
  function Slid(win: nat, edges: seq<int>, q: Queue, point: int): Queue {
    Admitted(edges, Queue(Evicted(win, q.present, point), q.next), point)
  }

  /** The queue after the first `i` evaluation points. */
  function QueueAfter(win: nat, edges: seq<int>, eval: seq<int>, i: nat): Queue
    requires i <= |eval|
  {
    if i == 0 then Queue([], 0) else Slid(win, edges, QueueAfter(win, edges, eval, i - 1), eval[i - 1])
  }

  // ---------- which edges count ----------

  /**
    Whether an edge of ascending lists counts at the i-th evaluation point: it has been reached, and it is in the
    window or has been reached since the point before, edges being evicted before new ones are admitted.
   */
  ghost predicate Counts(win: nat, eval: seq<int>, i: nat, e: int)
    requires i < |eval|
  {
    e <= eval[i] && (e >= eval[i] - win || i == 0 || e > eval[i - 1])
  }

  /** The documented window. */
  ghost predicate InWindow(win: nat, eval: seq<int>, i: nat, e: int)
    requires i < |eval|
  {
    eval[i] - win <= e <= eval[i]
  }

  ghost predicate Present(win: nat, eval: seq<int>, i: nat, edges: seq<int>)
    requires i < |eval|
  {
    exists j :: 0 <= j < |edges| && Counts(win, eval, i, edges[j])
  }

  ghost predicate PresentAsDocumented(win: nat, eval: seq<int>, i: nat, edges: seq<int>)
    requires i < |eval|
  {
    exists j :: 0 <= j < |edges| && InWindow(win, eval, i, edges[j])
  }

  // ---------- the onsets ----------

  /** When a feature takes part at the i-th point. */
  type Presence = (nat, seq<int>) -> bool

  /** Its queue is not empty. */
  function Queued(win: nat, eval: seq<int>): Presence {
    (i: nat, edges: seq<int>) => i < |eval| && QueueAfter(win, edges, eval, i + 1).present != []
  }

  /** One of its edges counts. */
  ghost function Counted(win: nat, eval: seq<int>): Presence {
    (i: nat, edges: seq<int>) => i < |eval| && Present(win, eval, i, edges)
  }

  /** One of its edges is in the documented window. */
  ghost function Documented(win: nat, eval: seq<int>): Presence {
    (i: nat, edges: seq<int>) => i < |eval| && PresentAsDocumented(win, eval, i, edges)
  }

  function At(p: Presence, i: nat): seq<int> -> bool {
    (edges: seq<int>) => p(i, edges)
  }

  /** At which points at least k features take part. */
  ghost function Quorums(c: Params, feats: seq<seq<int>>, n: nat, p: Presence): (held: seq<bool>)
    ensures |held| == n
  {
    seq(n, i requires 0 <= i < n => Count(feats, At(p, i)) >= c.k)
  }

  /** Unbroken quorums at the end of the first `i` points. */
  function Streak(held: seq<bool>, i: nat): (n: nat)
    requires i <= |held|
    ensures n <= i
  {
    if i > 0 && held[i - 1] then Streak(held, i - 1) + 1 else 0
  }

  function LastOnset(onsets: seq<int>): int {
    if onsets == [] then NEVER else onsets[|onsets| - 1]
  }

  /** The onsets among the first `i` points, given where quorums were held. */
  function Onsets(c: Params, eval: seq<int>, held: seq<bool>, i: nat): seq<int>
    requires i <= |eval| == |held|
  {
    if i == 0 then []
    else
      var before := Onsets(c, eval, held, i - 1);
      if Streak(held, i) >= c.persist && eval[i - 1] >= LastOnset(before) + c.refractory
      then before + [eval[i - 1]] else before
  }

  ghost function OnsetsBy(c: Params, feats: seq<seq<int>>, eval: seq<int>, p: Presence): seq<int> {
    Onsets(c, eval, Quorums(c, feats, |eval|, p), |eval|)
  }

  // ---------- the loops ----------

  method Evict(win: nat, q: seq<int>, point: int) returns (r: seq<int>)
    ensures r == Evicted(win, q, point)
  {
    r := q;
    while r != [] && r[0] < point - win
      invariant Evicted(win, r, point) == Evicted(win, q, point)
    {
      r := r[1..];
    }
  }

  method Admit(edges: seq<int>, q: Queue, point: int) returns (r: Queue)
    ensures r == Admitted(edges, q, point)
  {
    r := q;
    while r.next < |edges| && edges[r.next] <= point
      invariant Admitted(edges, r, point) == Admitted(edges, q, point)
      decreases |edges| - r.next
    {
      r := Queue(r.present + [edges[r.next]], r.next + 1);
    }
  }

  /** One evaluation point for every feature: all evictions, then all admissions. */
  method SlideAll(win: nat, feats: seq<seq<int>>, qs: seq<Queue>, point: int) returns (r: seq<Queue>)
    requires |qs| == |feats|
    ensures |r| == |feats| && forall f :: 0 <= f < |feats| ==> r[f] == Slid(win, feats[f], qs[f], point)
  {
    var kept: seq<Queue> := [];
    for f := 0 to |feats|
      invariant |kept| == f
      invariant forall g :: 0 <= g < f ==> kept[g] == Queue(Evicted(win, qs[g].present, point), qs[g].next)
    {
      var present := Evict(win, qs[f].present, point);
      kept := kept + [Queue(present, qs[f].next)];
    }
    r := [];
    for f := 0 to |feats|
      invariant |r| == f && forall g :: 0 <= g < f ==> r[g] == Slid(win, feats[g], qs[g], point)
    {
      var q := Admit(feats[f], kept[f], point);
      r := r + [q];
    }
  }

  /** The queues of all features after the first `i` points. */
  ghost predicate QueuesAfter(win: nat, feats: seq<seq<int>>, eval: seq<int>, i: nat, qs: seq<Queue>)
    requires i <= |eval|
  {
    |qs| == |feats| && forall f :: 0 <= f < |feats| ==> qs[f] == QueueAfter(win, feats[f], eval, i)
  }

  function NonEmpty(): Queue -> bool {
    (q: Queue) => q.present != []
  }

  /** The number of features with an edge. */
  method CountPresent(qs: seq<Queue>) returns (count: nat)
    ensures count == Count(qs, NonEmpty())
  {
    count := 0;
    for f := 0 to |qs|
      invariant count == Count(qs[..f], NonEmpty())
    {
      assert qs[..f + 1][..f] == qs[..f];
      if qs[f].present != [] { count := count + 1; }
    }
    assert qs[..|qs|] == qs;
  }

  /** Counting non-empty queues decides the quorum. */
  lemma QuorumOfQueues(c: Params, feats: seq<seq<int>>, eval: seq<int>, i: nat, qs: seq<Queue>)
    requires i < |eval| && QueuesAfter(c.aggWin, feats, eval, i + 1, qs)
    ensures Count(qs, NonEmpty()) >= c.k <==> Quorums(c, feats, |eval|, Queued(c.aggWin, eval))[i]
  {
    CountMapped(qs, feats, NonEmpty(), At(Queued(c.aggWin, eval), i));
  }

  /** The queues move on to the i-th point; how many are not empty then. */
  method Advance(c: Params, feats: seq<seq<int>>, qs: seq<Queue>, eval: seq<int>, i: nat)
    returns (r: seq<Queue>, count: nat)
    requires i < |eval| && QueuesAfter(c.aggWin, feats, eval, i, qs)
    ensures QueuesAfter(c.aggWin, feats, eval, i + 1, r)
    ensures count >= c.k <==> Quorums(c, feats, |eval|, Queued(c.aggWin, eval))[i]
  {
    r := SlideAll(c.aggWin, feats, qs, eval[i]);
    count := CountPresent(r);
    QuorumOfQueues(c, feats, eval, i, r);
  }

  /** For all edges and points: the onsets of the non-empty queues; none without features. */
  method Run(c: Params, feats: seq<seq<int>>, eval: seq<int>) returns (onsets: seq<int>)
    ensures onsets == if feats == [] then [] else OnsetsBy(c, feats, eval, Queued(c.aggWin, eval))
  {
    onsets := [];
    if feats == [] { return; }
    ghost var held := Quorums(c, feats, |eval|, Queued(c.aggWin, eval));
    var qs := seq(|feats|, _ => Queue([], 0));
    var streak, last := 0, NEVER;
    for i := 0 to |eval|
      invariant QueuesAfter(c.aggWin, feats, eval, i, qs)
      invariant streak == Streak(held, i)
      invariant onsets == Onsets(c, eval, held, i) && last == LastOnset(onsets)
    {
      var point, count := eval[i], 0;
      qs, count := Advance(c, feats, qs, eval, i);
      if count >= c.k { streak := streak + 1; } else { streak := 0; }
      if streak >= c.persist && point >= last + c.refractory {
        onsets := onsets + [point];
        last := point;
      }
    }
  }

  // ---------- what every run of onsets is like ----------

  ghost predicate Spaced(onsets: seq<int>, refractory: int) {
    forall m, n :: 0 <= m && n == m + 1 && n < |onsets| ==> onsets[n] >= onsets[m] + refractory
  }

  /** Onsets are at least the refractory apart. */
  lemma {:induction false} OnsetsSpaced(c: Params, eval: seq<int>, held: seq<bool>, i: nat)
    requires i <= |eval| == |held|
    ensures Spaced(Onsets(c, eval, held, i), c.refractory)
  {
    if i > 0 {
      OnsetsSpaced(c, eval, held, i - 1);
    }
  }

  /** The onset `e` at the n-th point ends `persist` quorums in a row. */
  ghost predicate Persistent(c: Params, eval: seq<int>, held: seq<bool>, n: nat, e: int)
    requires n < |eval| == |held|
  {
    && eval[n] == e && n + 1 >= c.persist
    && forall j :: 0 <= j <= n && j > n - c.persist ==> held[j]
  }

  lemma {:induction false} StreakMeaning(held: seq<bool>, i: nat, j: nat)
    requires i <= |held| && j < i && j >= i - Streak(held, i)
    ensures held[j]
  {
    if j < i - 1 { StreakMeaning(held, i - 1, j); }
  }

  /** Each onset ends a persistent quorum. */
  lemma {:induction false} OnsetsPersistent(c: Params, eval: seq<int>, held: seq<bool>, i: nat, m: nat)
    requires i <= |eval| == |held| && m < |Onsets(c, eval, held, i)|
    ensures exists n: nat :: n < i && Persistent(c, eval, held, n, Onsets(c, eval, held, i)[m])
  {
    var o, o' := Onsets(c, eval, held, i - 1), Onsets(c, eval, held, i);
    if m < |o| {
      OnsetsPersistent(c, eval, held, i - 1, m);
      assert o'[m] == o[m];
    } else {
      forall j | 0 <= j <= i - 1 && j > i - 1 - c.persist ensures held[j] {
        StreakMeaning(held, i, j);
      }
      assert Persistent(c, eval, held, i - 1, o'[m]);
    }
  }

  /** The points up to the n-th end with at least `persist` quorums in a row. */
  ghost predicate Lasting(held: seq<bool>, n: nat, persist: int)
    requires n < |held|
  {
    n + 1 >= persist && forall j :: 0 <= j <= n && j > n - persist ==> held[j]
  }

  lemma {:induction false} StreakReaches(held: seq<bool>, i: nat, k: nat)
    requires k <= i <= |held| && forall j :: i - k <= j < i ==> held[j]
    ensures Streak(held, i) >= k
  {
    if k > 0 { StreakReaches(held, i - 1, k - 1); }
  }

  lemma StreakExactly(held: seq<bool>, n: nat, persist: int)
    requires n < |held|
    ensures Streak(held, n + 1) >= persist <==> Lasting(held, n, persist)
  {
    if Streak(held, n + 1) >= persist {
      forall j | 0 <= j <= n && j > n - persist ensures held[j] {
        StreakMeaning(held, n + 1, j);
      }
    }
    if Lasting(held, n, persist) && persist > 0 {
      StreakReaches(held, n + 1, persist);
    }
  }

  /** A point is an onset exactly when persistent quorums end there and the refractory since the last one is over. */
  lemma OnsetsExactly(c: Params, eval: seq<int>, held: seq<bool>, n: nat)
    requires n < |eval| == |held|
    ensures var before := Onsets(c, eval, held, n);
      Onsets(c, eval, held, n + 1)
      == if Lasting(held, n, c.persist)
            && (if before == [] then eval[n] >= -1_000_000_000_000_000_000 + c.refractory
                else eval[n] - before[|before| - 1] >= c.refractory)
         then before + [eval[n]] else before
  {
    StreakExactly(held, n, c.persist);
  }

  /** Two rules that find the same features present at every point give the same onsets. */
  lemma SameOnsets(c: Params, feats: seq<seq<int>>, eval: seq<int>, p: Presence, q: Presence)
    requires forall i, f :: 0 <= i < |eval| && 0 <= f < |feats| ==> p(i, feats[f]) == q(i, feats[f])
    ensures OnsetsBy(c, feats, eval, p) == OnsetsBy(c, feats, eval, q)
  {
    forall i | 0 <= i < |eval| ensures Count(feats, At(p, i)) == Count(feats, At(q, i)) {
      CountAgree(feats, At(p, i), At(q, i));
    }
    assert Quorums(c, feats, |eval|, p) == Quorums(c, feats, |eval|, q);
  }

  // ---------- ascending edges and points ----------

  /** After `i` evaluation points edges[lo..next] are admitted and not evicted. */
  ghost predicate Bounds(win: nat, eval: seq<int>, i: nat, edges: seq<int>, lo: nat, next: nat)
    requires i <= |eval| && lo <= next <= |edges|
  {
    if i == 0 then next == 0
    else
      && (forall j :: 0 <= j < next ==> edges[j] <= eval[i - 1])
      && (forall j :: next <= j < |edges| ==> edges[j] > eval[i - 1])
      && (forall j :: lo <= j < next ==> Counts(win, eval, i - 1, edges[j]))
      && forall j :: 0 <= j < lo ==> edges[j] < eval[i - 1] - win && !Counts(win, eval, i - 1, edges[j])
  }

  ghost predicate Tracks(win: nat, eval: seq<int>, i: nat, edges: seq<int>, q: Queue)
    requires i <= |eval|
  {
    && |q.present| <= q.next <= |edges| && q.present == edges[q.next - |q.present|..q.next]
    && Bounds(win, eval, i, edges, q.next - |q.present|, q.next)
  }

  lemma {:induction false} EvictedMeaning(win: nat, q: seq<int>, point: int) returns (n: nat)
    ensures n <= |q| && Evicted(win, q, point) == q[n..]
    ensures forall j :: 0 <= j < n ==> q[j] < point - win
    ensures n < |q| ==> q[n] >= point - win
  {
    n := 0;
    if q != [] && q[0] < point - win {
      var m := EvictedMeaning(win, q[1..], point);
      n := m + 1;
      assert q[1..][m..] == q[n..];
      forall j | 0 <= j < n ensures q[j] < point - win {
        if j > 0 { assert q[j] == q[1..][j - 1]; }
      }
    }
  }

  lemma {:induction false} AdmittedMeaning(edges: seq<int>, q: Queue, point: int)
    requires q.next <= |edges|
    ensures var r := Admitted(edges, q, point);
      && q.next <= r.next <= |edges| && r.present == q.present + edges[q.next..r.next]
      && (forall j :: q.next <= j < r.next ==> edges[j] <= point)
      && (r.next < |edges| ==> edges[r.next] > point)
    decreases |edges| - q.next
  {
    if q.next < |edges| && edges[q.next] <= point {
      AdmittedMeaning(edges, Queue(q.present + [edges[q.next]], q.next + 1), point);
    }
  }

  lemma BoundsNext(win: nat, eval: seq<int>, i: nat, edges: seq<int>, lo: nat, next: nat, lo': nat, next': nat)
    requires i < |eval| && Ascending(eval) && Ascending(edges)
    requires lo <= lo' <= next <= next' <= |edges| && Bounds(win, eval, i, edges, lo, next)
    requires forall j :: lo <= j < lo' ==> edges[j] < eval[i] - win
    requires lo' < next ==> edges[lo'] >= eval[i] - win
    requires forall j :: next <= j < next' ==> edges[j] <= eval[i]
    requires next' < |edges| ==> edges[next'] > eval[i]
    ensures Bounds(win, eval, i + 1, edges, lo', next')
  {
    assert i > 0 ==> eval[i - 1] <= eval[i];
    forall j | lo' <= j < next' ensures Counts(win, eval, i, edges[j]) {
      if j < next { assert edges[lo'] <= edges[j]; }
    }
    forall j | next' <= j < |edges| ensures edges[j] > eval[i] {
      assert edges[next'] <= edges[j];
    }
  }

  lemma SlidMeaning(win: nat, edges: seq<int>, q: Queue, point: int) returns (n: nat)
    requires |q.present| <= q.next <= |edges| && q.present == edges[q.next - |q.present|..q.next]
    ensures n <= |q.present|
    ensures forall j :: 0 <= j < n ==> q.present[j] < point - win
    ensures n < |q.present| ==> q.present[n] >= point - win
    ensures var r := Slid(win, edges, q, point);
      && q.next <= r.next <= |edges| && r.present == edges[q.next - |q.present| + n..r.next]
      && (forall j :: q.next <= j < r.next ==> edges[j] <= point)
      && (r.next < |edges| ==> edges[r.next] > point)
  {
    n := EvictedMeaning(win, q.present, point);
    AdmittedMeaning(edges, Queue(Evicted(win, q.present, point), q.next), point);
    var lo, next := q.next - |q.present|, Slid(win, edges, q, point).next;
    assert edges[lo..q.next][n..] + edges[q.next..next] == edges[lo + n..next];
  }

  lemma TracksNext(win: nat, eval: seq<int>, i: nat, edges: seq<int>, q: Queue)
    requires i < |eval| && Ascending(eval) && Ascending(edges) && Tracks(win, eval, i, edges, q)
    ensures Tracks(win, eval, i + 1, edges, Slid(win, edges, q, eval[i]))
  {
    var n := SlidMeaning(win, edges, q, eval[i]);
    var lo := q.next - |q.present|;
    var r := Slid(win, edges, q, eval[i]);
    assert forall j :: lo <= j < q.next ==> edges[j] == q.present[j - lo];
    BoundsNext(win, eval, i, edges, lo, q.next, lo + n, r.next);
  }

  lemma {:induction false} QueueTracks(win: nat, edges: seq<int>, eval: seq<int>, i: nat)
    requires i <= |eval| && Ascending(eval) && Ascending(edges)
    ensures Tracks(win, eval, i, edges, QueueAfter(win, edges, eval, i))
  {
    if i > 0 {
      QueueTracks(win, edges, eval, i - 1);
      TracksNext(win, eval, i - 1, edges, QueueAfter(win, edges, eval, i - 1));
    }
  }

  /** The queue of a feature is non-empty exactly when one of its edges counts. */
  lemma QueueMeaning(win: nat, edges: seq<int>, eval: seq<int>, i: nat)
    requires i < |eval| && Ascending(eval) && Ascending(edges)
    ensures QueueAfter(win, edges, eval, i + 1).present != [] <==> Present(win, eval, i, edges)
  {
    QueueTracks(win, edges, eval, i + 1);
    var q := QueueAfter(win, edges, eval, i + 1);
    if q.present != [] {
      assert Counts(win, eval, i, edges[q.next - |q.present|]);
    }
  }

  ghost predicate AllAscending(feats: seq<seq<int>>) {
    forall f :: 0 <= f < |feats| ==> Ascending(feats[f])
  }

  /** On ascending edges and points the onsets are those of the edges that count. */
  lemma QueuedOnsets(c: Params, feats: seq<seq<int>>, eval: seq<int>)
    requires Ascending(eval) && AllAscending(feats)
    ensures OnsetsBy(c, feats, eval, Queued(c.aggWin, eval)) == OnsetsBy(c, feats, eval, Counted(c.aggWin, eval))
  {
    forall i, f | 0 <= i < |eval| && 0 <= f < |feats|
      ensures Queued(c.aggWin, eval)(i, feats[f]) == Counted(c.aggWin, eval)(i, feats[f])
    {
      QueueMeaning(c.aggWin, feats[f], eval, i);
    }
    SameOnsets(c, feats, eval, Queued(c.aggWin, eval), Counted(c.aggWin, eval));
  }

  // ---------- the documented window ----------

  /** Every edge of the documented window counts. */
  lemma DocumentedCounts(win: nat, eval: seq<int>, i: nat, edges: seq<int>)
    requires i < |eval| && PresentAsDocumented(win, eval, i, edges)
    ensures Present(win, eval, i, edges)
  {
    var j :| 0 <= j < |edges| && InWindow(win, eval, i, edges[j]);
    assert Counts(win, eval, i, edges[j]);
  }

  /** Where counting and the window agree on each edge, they agree on the feature. */
  lemma SamePresence(win: nat, eval: seq<int>, i: nat, edges: seq<int>)
    requires i < |eval|
    requires forall j :: 0 <= j < |edges| && Counts(win, eval, i, edges[j]) ==> InWindow(win, eval, i, edges[j])
    ensures Present(win, eval, i, edges) <==> PresentAsDocumented(win, eval, i, edges)
  {
    if PresentAsDocumented(win, eval, i, edges) { DocumentedCounts(win, eval, i, edges); }
  }

  /**
    At one point the documented window is the code's, for every list of edges, exactly when it is not the first point
    and the point before is at most aggWin + 1 away.
   */
  lemma SameWindowExactly(win: nat, eval: seq<int>, i: nat)
    requires i < |eval|
    ensures (forall edges :: Present(win, eval, i, edges) <==> PresentAsDocumented(win, eval, i, edges))
            <==> i > 0 && eval[i] - eval[i - 1] <= win + 1
  {
    if i > 0 && eval[i] - eval[i - 1] <= win + 1 {
      forall edges ensures Present(win, eval, i, edges) <==> PresentAsDocumented(win, eval, i, edges) {
        SamePresence(win, eval, i, edges);
      }
    } else {
      var stale := [eval[i] - win - 1];
      assert Counts(win, eval, i, stale[0]);
      assert Present(win, eval, i, stale) && !PresentAsDocumented(win, eval, i, stale);
    }
  }

  /** Every edge is an evaluation point, as for edges recorded along the grid they are evaluated on. */
  ghost predicate OnGrid(feats: seq<seq<int>>, eval: seq<int>) {
    forall f, j :: 0 <= f < |feats| && 0 <= j < |feats[f]| ==> feats[f][j] in eval
  }

  lemma GridEdge(win: nat, eval: seq<int>, i: nat, e: int)
    requires i < |eval| && Ascending(eval) && e in eval && Counts(win, eval, i, e)
    ensures InWindow(win, eval, i, e)
  {
    var m :| 0 <= m < |eval| && eval[m] == e;
    assert m < i ==> eval[m] <= eval[i - 1];
    assert m >= i ==> eval[i] <= eval[m];
  }

  /** On edges recorded at the evaluation points the onsets are those of the documented window, whatever the spacing. */
  lemma GridOnsets(c: Params, feats: seq<seq<int>>, eval: seq<int>)
    requires Ascending(eval) && OnGrid(feats, eval)
    ensures OnsetsBy(c, feats, eval, Counted(c.aggWin, eval)) == OnsetsBy(c, feats, eval, Documented(c.aggWin, eval))
  {
    forall i, f | 0 <= i < |eval| && 0 <= f < |feats|
      ensures Counted(c.aggWin, eval)(i, feats[f]) == Documented(c.aggWin, eval)(i, feats[f])
    {
      forall j | 0 <= j < |feats[f]| && Counts(c.aggWin, eval, i, feats[f][j])
        ensures InWindow(c.aggWin, eval, i, feats[f][j])
      {
        GridEdge(c.aggWin, eval, i, feats[f][j]);
      }
      SamePresence(c.aggWin, eval, i, feats[f]);
    }
    SameOnsets(c, feats, eval, Counted(c.aggWin, eval), Documented(c.aggWin, eval));
  }

  /** Evaluation points at most aggWin + 1 apart. */
  ghost predicate Dense(win: nat, eval: seq<int>) {
    forall i :: 0 < i < |eval| ==> eval[i] - eval[i - 1] <= win + 1
  }

  /** No edge lies before the window of the first point. */
  ghost predicate NoneBefore(win: nat, feats: seq<seq<int>>, eval: seq<int>) {
    eval != [] ==> forall f, j :: 0 <= f < |feats| && 0 <= j < |feats[f]| ==> feats[f][j] >= eval[0] - win
  }

  lemma DenseOnsets(c: Params, feats: seq<seq<int>>, eval: seq<int>)
    requires Dense(c.aggWin, eval) && NoneBefore(c.aggWin, feats, eval)
    ensures OnsetsBy(c, feats, eval, Counted(c.aggWin, eval)) == OnsetsBy(c, feats, eval, Documented(c.aggWin, eval))
  {
    forall i, f | 0 <= i < |eval| && 0 <= f < |feats|
      ensures Counted(c.aggWin, eval)(i, feats[f]) == Documented(c.aggWin, eval)(i, feats[f])
    {
      SamePresence(c.aggWin, eval, i, feats[f]);
    }
    SameOnsets(c, feats, eval, Counted(c.aggWin, eval), Documented(c.aggWin, eval));
  }

  // ---------- where an edge outside the window makes an onset ----------

  /** One feature with one edge just before the window of the i-th point, and no onset allowed before that point. */
  function Stale(win: nat, eval: seq<int>, i: nat): (Params, seq<seq<int>>)
    requires i < |eval|
  {
    (Params(1, 1, eval[i] - NEVER, win), [[eval[i] - win - 1]])
  }

  ghost predicate Late(win: nat, eval: seq<int>, i: nat)
    requires i < |eval|
  {
    Ascending(eval) && (i == 0 || eval[i] - eval[i - 1] > win + 1)
  }

  lemma OneFeature(c: Params, edges: seq<int>, n: nat, i: nat, p: Presence)
    requires i < n && c.k == 1
    ensures Quorums(c, [edges], n, p)[i] == p(i, edges)
  {
    assert [edges][..0] == [];
    assert Count([edges], At(p, i)) == if p(i, edges) then 1 else 0;
  }

  /** No quorum from the i-th point on, and no point before it late enough: no onset. */
  lemma {:induction false} NoOnset(c: Params, eval: seq<int>, held: seq<bool>, i: nat, n: nat)
    requires i < |eval| == |held| && n <= |eval| && c.persist == 1 && c.refractory == eval[i] - NEVER
    requires forall j :: 0 <= j < i ==> eval[j] < eval[i]
    requires forall j :: i <= j < n ==> !held[j]
    ensures Onsets(c, eval, held, n) == []
  {
    if n > 0 { NoOnset(c, eval, held, i, n - 1); }
  }

  /** A quorum at the i-th point: an onset there. */
  lemma {:induction false} OnsetThere(c: Params, eval: seq<int>, held: seq<bool>, i: nat, n: nat)
    requires i < n <= |eval| == |held| && c.persist == 1 && c.refractory == eval[i] - NEVER
    requires forall j :: 0 <= j < i ==> eval[j] < eval[i]
    requires held[i]
    ensures Onsets(c, eval, held, n) != []
  {
    if n == i + 1 { NoOnset(c, eval, held, i, i); } else { OnsetThere(c, eval, held, i, n - 1); }
  }

  /** The window holds that edge at no point from the i-th on, though it counts at the i-th. */
  lemma StaleEdge(win: nat, eval: seq<int>, i: nat)
    requires i < |eval| && Late(win, eval, i)
    ensures var e := eval[i] - win - 1;
      && Present(win, eval, i, [e])
      && forall j :: i <= j < |eval| ==> !PresentAsDocumented(win, eval, j, [e])
    ensures forall j :: 0 <= j < i ==> eval[j] < eval[i]
  {
    assert Counts(win, eval, i, [eval[i] - win - 1][0]);
    forall j | 0 <= j < i ensures eval[j] < eval[i] {
      assert eval[j] <= eval[i - 1];
    }
  }

  lemma StaleDiffers(win: nat, eval: seq<int>, i: nat)
    requires i < |eval| && Late(win, eval, i)
    ensures var (c, feats) := Stale(win, eval, i);
      OnsetsBy(c, feats, eval, Counted(c.aggWin, eval)) != OnsetsBy(c, feats, eval, Documented(c.aggWin, eval))
  {
    var (c, feats) := Stale(win, eval, i);
    var counted := Quorums(c, feats, |eval|, Counted(c.aggWin, eval));
    var documented := Quorums(c, feats, |eval|, Documented(c.aggWin, eval));
    StaleEdge(win, eval, i);
    OneFeature(c, feats[0], |eval|, i, Counted(c.aggWin, eval));
    OnsetThere(c, eval, counted, i, |eval|);
    forall j | i <= j < |eval| ensures !documented[j] {
      OneFeature(c, feats[0], |eval|, j, Documented(c.aggWin, eval));
    }
    NoOnset(c, eval, documented, i, |eval|);
  }

  /** The onsets are those of the documented window, for all parameters and edges not before the first window. */
  ghost predicate OnsetsAsDocumented(win: nat, eval: seq<int>) {
    forall c: Params, feats :: c.aggWin == win && AllAscending(feats) && NoneBefore(win, feats, eval) ==>
      OnsetsBy(c, feats, eval, Counted(c.aggWin, eval)) == OnsetsBy(c, feats, eval, Documented(c.aggWin, eval))
  }

  /** ... exactly when the evaluation points are at most aggWin + 1 apart. */
  lemma DocumentedExactly(win: nat, eval: seq<int>)
    requires Ascending(eval)
    ensures OnsetsAsDocumented(win, eval) <==> Dense(win, eval)
  {
    if Dense(win, eval) {
      forall c: Params, feats | c.aggWin == win && AllAscending(feats) && NoneBefore(win, feats, eval)
        ensures OnsetsBy(c, feats, eval, Counted(c.aggWin, eval))
                == OnsetsBy(c, feats, eval, Documented(c.aggWin, eval))
      {
        DenseOnsets(c, feats, eval);
      }
    } else {
      var i :| 0 < i < |eval| && eval[i] - eval[i - 1] > win + 1;
      var (c, feats) := Stale(win, eval, i);
      StaleDiffers(win, eval, i);
      assert eval[0] <= eval[i - 1];
      assert c.aggWin == win && AllAscending(feats) && NoneBefore(win, feats, eval);
    }
  }

  /** Edges before the first window can always make the onsets differ, however dense the points. */
  lemma FirstPointDiffers(win: nat, eval: seq<int>)
    requires Ascending(eval) && eval != []
    ensures exists c: Params, feats :: c.aggWin == win && AllAscending(feats)
              && OnsetsBy(c, feats, eval, Counted(c.aggWin, eval))
                 != OnsetsBy(c, feats, eval, Documented(c.aggWin, eval))
  {
    var (c, feats) := Stale(win, eval, 0);
    StaleDiffers(win, eval, 0);
    assert c.aggWin == win && AllAscending(feats);
  }

  /** Points 100 and 101, a window of 5, one edge at 0: an onset at 100, where the documented window is empty. */
  lemma FirstPointExample()
    ensures var c, feats, eval := Params(1, 1, 0, 5), [[0]], [100, 101];
      && OnsetsBy(c, feats, eval, Counted(c.aggWin, eval)) == [100]
      && OnsetsBy(c, feats, eval, Documented(c.aggWin, eval)) == []
  {
    var c, eval := Params(1, 1, 0, 5), [100, 101];
    forall i | 0 <= i < 2
      ensures Quorums(c, [[0]], |eval|, Counted(c.aggWin, eval))[i] <==> i == 0
      ensures !Quorums(c, [[0]], |eval|, Documented(c.aggWin, eval))[i]
    {
      OneFeature(c, [0], |eval|, i, Counted(c.aggWin, eval));
      OneFeature(c, [0], |eval|, i, Documented(c.aggWin, eval));
      assert Counts(5, eval, 0, [0][0]);
    }
    var counted := Quorums(c, [[0]], |eval|, Counted(c.aggWin, eval));
    var documented := Quorums(c, [[0]], |eval|, Documented(c.aggWin, eval));
    assert Onsets(c, eval, counted, 1) == [100] && Onsets(c, eval, documented, 1) == [];
  }
}
