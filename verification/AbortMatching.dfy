/**
 Navigation-abort correlation of the error gate, seen as a matching problem: every fetch-rejection
 echo may be excused by one server-function GET abort that came before it and is at most
 NAVIGATION_ABORT_WINDOW_MS old, and every abort excuses at most one echo.
 */
module AbortMatching {

  const NAVIGATION_ABORT_WINDOW_MS := 3000

  /** What one browser event means to the correlation; `at` is the clock reading of its handler. */
  datatype Beat = Abort(at: int) | Echo(at: int) | Other

  ghost predicate Ordered(beats: seq<Beat>, i: nat, j: nat)
    requires i < |beats| && j < |beats|
  {
    !beats[i].Other? && !beats[j].Other? ==> beats[i].at <= beats[j].at
  }

  /** The handlers read a clock that never steps back. */
  ghost predicate MonotoneClock(beats: seq<Beat>) {
    forall i: nat, j: nat :: i < j < |beats| ==> Ordered(beats, i, j)
  }

  /** `queue` lists aborts among the first `limit` events, by index. */
  ghost predicate AbortQueue(beats: seq<Beat>, queue: seq<nat>, limit: nat) {
    limit <= |beats| && forall i :: 0 <= i < |queue| ==> queue[i] < limit && beats[queue[i]].Abort?
  }

  /** Whether the abort at index `a` is still inside the window of a handler that runs at `now`. */
  predicate Fresh(beats: seq<Beat>, a: nat, now: int)
    requires a < |beats| && beats[a].Abort?
  {
    beats[a].at >= now - NAVIGATION_ABORT_WINDOW_MS
  }

  /** The position of the first fresh abort of the queue, or its length when all are stale. */
  ghost function FirstFresh(beats: seq<Beat>, queue: seq<nat>, now: int): (k: nat)
    requires forall i :: 0 <= i < |queue| ==> queue[i] < |beats| && beats[queue[i]].Abort?
    ensures k <= |queue|
    ensures k < |queue| ==> Fresh(beats, queue[k], now)
    ensures forall i :: 0 <= i < k ==> !Fresh(beats, queue[i], now)
  {
    if queue == [] || Fresh(beats, queue[0], now) then 0 else 1 + FirstFresh(beats, queue[1..], now)
  }

  /** The aborts the collector still holds after the first `n` events. */
  ghost function Unspent(beats: seq<Beat>, n: nat): (queue: seq<nat>)
    requires n <= |beats|
    ensures AbortQueue(beats, queue, n)
  {
    if n == 0 then []
    else
      var queue := Unspent(beats, n - 1);
      match beats[n - 1]
      case Abort(_) => queue + [n - 1]
      case Echo(now) =>
        var k := FirstFresh(beats, queue, now);
        if k == |queue| then [] else queue[k + 1..]
      case Other => queue
  }

  /** The queue is in the order of the aborts. */
  lemma {:induction false} UnspentAscends(beats: seq<Beat>, n: nat)
    requires n <= |beats|
    ensures forall i, j :: 0 <= i < j < |Unspent(beats, n)| ==> Unspent(beats, n)[i] < Unspent(beats, n)[j]
  {
    if n > 0 {
      UnspentAscends(beats, n - 1);
    }
  }

  /** Whether the collector excuses the echo at index `k`. */
  ghost predicate Suppressed(beats: seq<Beat>, k: nat)
    requires k < |beats|
  {
    beats[k].Echo? && FirstFresh(beats, Unspent(beats, k), beats[k].at) < |Unspent(beats, k)|
  }

  /** The abort that the collector spends on the echo at index `k`. */
  ghost function SpentOn(beats: seq<Beat>, k: nat): (a: nat)
    requires k < |beats| && Suppressed(beats, k)
    ensures a < k && beats[a].Abort? && Fresh(beats, a, beats[k].at) && a in Unspent(beats, k)
  {
    var queue := Unspent(beats, k);
    queue[FirstFresh(beats, queue, beats[k].at)]
  }

  ghost function SuppressedFrom(beats: seq<Beat>, k: nat): (echoes: set<nat>)
    requires k <= |beats|
  {
    set i: nat | k <= i < |beats| && Suppressed(beats, i)
  }

  /** Whether the abort at index `a` may excuse the echo at index `e`. */
  ghost predicate Excuses(beats: seq<Beat>, a: nat, e: nat) {
    a < e < |beats| && beats[e].Echo? && beats[a].Abort? && Fresh(beats, a, beats[e].at)
  }

  ghost predicate Injective(m: map<nat, nat>) {
    forall e, f :: e in m && f in m && m[e] == m[f] ==> e == f
  }

  /** An assignment of echoes to earlier aborts still in their window, no abort used twice. */
  ghost predicate Matching(beats: seq<Beat>, m: map<nat, nat>) {
    Injective(m) && forall e :: e in m ==> Excuses(beats, m[e], e)
  }

  // ----- every excuse is backed by its own abort

  /** An abort that left the queue, spent or discarded, never comes back. */
  lemma {:induction false} NeverRestored(beats: seq<Beat>, n: nat, later: nat, a: nat)
    requires n <= later <= |beats|
    requires a < n && a !in Unspent(beats, n)
    ensures a !in Unspent(beats, later)
    decreases later
  {
    if n < later {
      NeverRestored(beats, n, later - 1, a);
    }
  }

  /** The queue right after an echo. */
  lemma AfterEcho(beats: seq<Beat>, k: nat)
    requires k < |beats| && beats[k].Echo?
    ensures
      var queue := Unspent(beats, k);
      var p := FirstFresh(beats, queue, beats[k].at);
      Unspent(beats, k + 1) == if p == |queue| then [] else queue[p + 1..]
  {
  }

  lemma SpentLeavesTheQueue(beats: seq<Beat>, k: nat)
    requires k < |beats| && Suppressed(beats, k)
    ensures SpentOn(beats, k) !in Unspent(beats, k + 1)
  {
    hide Unspent, FirstFresh, Fresh;
    AfterEcho(beats, k);
    UnspentAscends(beats, k);
  }

  /** No abort is spent twice. */
  lemma SpentOnce(beats: seq<Beat>, k: nat, l: nat)
    requires k < l < |beats| && Suppressed(beats, k) && Suppressed(beats, l)
    ensures SpentOn(beats, k) != SpentOn(beats, l)
  {
    hide Unspent, FirstFresh, Fresh;
    SpentLeavesTheQueue(beats, k);
    NeverRestored(beats, k + 1, l, SpentOn(beats, k));
  }

  /** An abort excuses the rejection that follows it up to three seconds later, that moment included. */
  lemma WindowIsThreeSeconds(at: int, now: int)
    ensures Suppressed([Abort(at), Echo(now)], 1) <==> now - at <= 3000
  {
    var beats := [Abort(at), Echo(now)];
    assert Unspent(beats, 0) == [];
    assert Unspent(beats, 1) == [] + [0];
    assert FirstFresh(beats, [0], now) == if Fresh(beats, 0, now) then 0 else 1;
  }

  /** What the collector excuses is itself a matching: an excuse needs an abort of its own. */
  lemma GreedyIsAMatching(beats: seq<Beat>) returns (m: map<nat, nat>)
    ensures Matching(beats, m)
    ensures m.Keys == SuppressedFrom(beats, 0)
  {
    m := map k: nat | k < |beats| && Suppressed(beats, k) :: SpentOn(beats, k);
    forall e, f | e in m && f in m && m[e] == m[f]
      ensures e == f
    {
      if e < f { SpentOnce(beats, e, f); }
      if f < e { SpentOnce(beats, f, e); }
    }
  }

  // ----- no matching excuses more

  /** The matching only holds echoes from `k` on, excused from `queue` or by aborts from `k` on. */
  ghost predicate Served(m: map<nat, nat>, queue: seq<nat>, k: nat) {
    forall e :: e in m ==> k <= e && (m[e] in queue || k <= m[e])
  }

  /** A matching never uses an abort that is already stale for an echo at or before its own. */
  lemma StaleIsUnused(beats: seq<Beat>, m: map<nat, nat>, e: nat, k: nat)
    requires MonotoneClock(beats) && Matching(beats, m) && e in m
    requires k <= e && k < |beats| && beats[k].Echo?
    ensures Fresh(beats, m[e], beats[k].at)
  {
    if k < e { assert Ordered(beats, k, e); }
  }

  /** A fresh abort of the queue other than the spent one is younger and stays in the queue. */
  lemma QueueOrder(beats: seq<Beat>, k: nat, b: nat)
    requires k < |beats| && Suppressed(beats, k)
    requires b in Unspent(beats, k) && Fresh(beats, b, beats[k].at) && b != SpentOn(beats, k)
    ensures SpentOn(beats, k) < b && b in Unspent(beats, k + 1)
  {
    hide Unspent, FirstFresh, Fresh;
    var queue := Unspent(beats, k);
    var p := FirstFresh(beats, queue, beats[k].at);
    var i :| 0 <= i < |queue| && queue[i] == b;
    UnspentAscends(beats, k);
    AfterEcho(beats, k);
    assert queue[p + 1..][i - p - 1] == b;
  }

  /** The spent abort is the oldest that a matching could have used for the echo. */
  lemma OldestIsSpent(beats: seq<Beat>, m: map<nat, nat>, k: nat)
    requires MonotoneClock(beats) && k < |beats| && Suppressed(beats, k)
    requires Matching(beats, m) && Served(m, Unspent(beats, k), k) && k in m
    ensures SpentOn(beats, k) <= m[k]
  {
    StaleIsUnused(beats, m, k, k);
    if m[k] != SpentOn(beats, k) {
      QueueOrder(beats, k, m[k]);
    }
  }

  lemma Without(m: map<nat, nat>, e: nat)
    requires Injective(m) && e in m
    ensures Injective(m - {e}) && |m| == |m - {e}| + 1
  {
  }

  lemma Redirected(m: map<nat, nat>, k: nat, e: nat)
    requires Injective(m) && k in m && e in m && k != e
    ensures Injective((m - {k})[e := m[k]]) && |m| == |(m - {k})[e := m[k]]| + 1
  {
  }

  /** Hands the abort of echo `k` to the later echo `e`, whose own abort is older. */
  lemma HandOver(beats: seq<Beat>, m: map<nat, nat>, k: nat, e: nat)
    requires MonotoneClock(beats) && Matching(beats, m)
    requires k in m && e in m && k < e && m[e] < m[k]
    ensures Matching(beats, (m - {k})[e := m[k]])
  {
    Redirected(m, k, e);
    assert Excuses(beats, m[k], k) && Excuses(beats, m[e], e) && Ordered(beats, m[e], m[k]);
    assert Excuses(beats, m[k], e);
  }

  /**
   Any matching can be rearranged to leave echo `k` and the oldest usable abort `a` alone, at the
   price of one pair: a later echo that wanted `a` takes the younger abort of echo `k` instead.
   */
  lemma Exchange(beats: seq<Beat>, m: map<nat, nat>, queue: seq<nat>, k: nat, a: nat) returns (rest: map<nat, nat>)
    requires MonotoneClock(beats) && Matching(beats, m) && Served(m, queue, k)
    requires k in m ==> a <= m[k]
    ensures Matching(beats, rest) && Served(rest, queue, k) && k !in rest && forall e :: e in rest ==> rest[e] != a
    ensures |m| <= |rest| + 1
  {
    if e :| e in m && m[e] == a {
      if k in m && k != e {
        HandOver(beats, m, k, e);
        Redirected(m, k, e);
        rest := (m - {k})[e := m[k]];
      } else {
        Without(m, e);
        rest := m - {e};
      }
    } else if k in m {
      Without(m, k);
      rest := m - {k};
    } else {
      rest := m;
    }
  }

  /** What avoids the spent abort is served by the queue that the echo leaves. */
  lemma ServedAfterSpending(beats: seq<Beat>, k: nat, m: map<nat, nat>)
    requires MonotoneClock(beats) && k < |beats| && Suppressed(beats, k)
    requires Matching(beats, m) && Served(m, Unspent(beats, k), k) && k !in m
    requires forall e :: e in m ==> m[e] != SpentOn(beats, k)
    ensures Served(m, Unspent(beats, k + 1), k + 1)
  {
    hide Unspent, FirstFresh, MonotoneClock;
    var queue, left := Unspent(beats, k), Unspent(beats, k + 1);
    forall e | e in m
      ensures k < e && (m[e] in left || k < m[e])
    {
      assert Excuses(beats, m[e], e) && m[e] != k;
      if m[e] in queue {
        StaleIsUnused(beats, m, e, k);
        QueueOrder(beats, k, m[e]);
      }
    }
  }

  /** An event that suppresses nothing takes no abort away that the matching needs. */
  lemma ServedAfterOther(beats: seq<Beat>, k: nat, m: map<nat, nat>)
    requires MonotoneClock(beats) && k < |beats| && !Suppressed(beats, k)
    requires Matching(beats, m) && Served(m, Unspent(beats, k), k)
    ensures Served(m, Unspent(beats, k + 1), k + 1)
  {
    var queue := Unspent(beats, k);
    forall e | e in m
      ensures k < e && (m[e] in Unspent(beats, k + 1) || k + 1 <= m[e])
    {
      if beats[k].Echo? {
        StaleIsUnused(beats, m, e, k);
      } else if m[e] == k {
        assert Unspent(beats, k + 1)[|queue|] == k;
      } else if m[e] < k && beats[k].Abort? {
        var i :| 0 <= i < |queue| && queue[i] == m[e];
        assert Unspent(beats, k + 1)[i] == m[e];
      }
    }
  }

  lemma CountFrom(beats: seq<Beat>, k: nat)
    requires k < |beats|
    ensures |SuppressedFrom(beats, k)| == |SuppressedFrom(beats, k + 1)| + if Suppressed(beats, k) then 1 else 0
  {
    var later := SuppressedFrom(beats, k + 1);
    assert SuppressedFrom(beats, k) == if Suppressed(beats, k) then {k} + later else later;
  }

  lemma NothingServed(beats: seq<Beat>, m: map<nat, nat>)
    requires Matching(beats, m) && Served(m, Unspent(beats, |beats|), |beats|)
    ensures |m| == 0
  {
  }

  lemma {:induction false} GreedyServes(beats: seq<Beat>, k: nat, m: map<nat, nat>)
    requires MonotoneClock(beats) && k <= |beats|
    requires Matching(beats, m) && Served(m, Unspent(beats, k), k)
    ensures |m| <= |SuppressedFrom(beats, k)|
    decreases |beats| - k
  {
    hide Suppressed, Matching, SuppressedFrom, FirstFresh, Unspent, Fresh, MonotoneClock;
    if k == |beats| {
      NothingServed(beats, m);
    } else if Suppressed(beats, k) {
      if k in m {
        OldestIsSpent(beats, m, k);
      }
      var rest := Exchange(beats, m, Unspent(beats, k), k, SpentOn(beats, k));
      ServedAfterSpending(beats, k, rest);
      GreedyServes(beats, k + 1, rest);
      CountFrom(beats, k);
    } else {
      ServedAfterOther(beats, k, m);
      GreedyServes(beats, k + 1, m);
      CountFrom(beats, k);
    }
  }

  /** Spending the oldest fresh abort excuses as many echoes as any matching could. */
  lemma GreedyIsOptimal(beats: seq<Beat>, m: map<nat, nat>)
    requires MonotoneClock(beats) && Matching(beats, m)
    ensures |m| <= |SuppressedFrom(beats, 0)|
  {
    GreedyServes(beats, 0, m);
  }

  // ----- discarding stale records changes no answer

  /** The queue of a collector that takes out the spent abort and keeps every stale one. */
  ghost function Kept(beats: seq<Beat>, n: nat): (queue: seq<nat>)
    requires n <= |beats|
    ensures forall i :: 0 <= i < |queue| ==> queue[i] < n && beats[queue[i]].Abort?
  {
    if n == 0 then []
    else
      var queue := Kept(beats, n - 1);
      match beats[n - 1]
      case Abort(_) => queue + [n - 1]
      case Echo(now) =>
        var k := FirstFresh(beats, queue, now);
        if k == |queue| then queue else queue[..k] + queue[k + 1..]
      case Other => queue
  }

  ghost predicate SuppressedKeeping(beats: seq<Beat>, k: nat)
    requires k < |beats|
  {
    beats[k].Echo? && FirstFresh(beats, Kept(beats, k), beats[k].at) < |Kept(beats, k)|
  }

  /** All of `stale` is too old for every echo from event `n` on. */
  ghost predicate StaleFrom(beats: seq<Beat>, stale: seq<nat>, n: nat) {
    && (forall i :: 0 <= i < |stale| ==> stale[i] < |beats| && beats[stale[i]].Abort?)
    && (forall i, e :: 0 <= i < |stale| && n <= e < |beats| && beats[e].Echo? ==> !Fresh(beats, stale[i], beats[e].at))
  }

  lemma {:induction false} FirstFreshSkipsStale(beats: seq<Beat>, stale: seq<nat>, queue: seq<nat>, now: int)
    requires forall i :: 0 <= i < |stale| ==> stale[i] < |beats| && beats[stale[i]].Abort? && !Fresh(beats, stale[i], now)
    requires forall i :: 0 <= i < |queue| ==> queue[i] < |beats| && beats[queue[i]].Abort?
    ensures forall i :: 0 <= i < |stale + queue| ==> (stale + queue)[i] < |beats| && beats[(stale + queue)[i]].Abort?
    ensures FirstFresh(beats, stale + queue, now) == |stale| + FirstFresh(beats, queue, now)
  {
    if stale == [] {
      assert stale + queue == queue;
    } else {
      assert (stale + queue)[1..] == stale[1..] + queue;
      FirstFreshSkipsStale(beats, stale[1..], queue, now);
    }
  }

  /** What an echo leaves behind is too old for it, and so for every later echo. */
  lemma OlderIsStale(beats: seq<Beat>, stale: seq<nat>, n: nat)
    requires MonotoneClock(beats) && 0 < n <= |beats| && beats[n - 1].Echo?
    requires StaleFrom(beats, stale, n - 1)
    ensures
      var queue := Unspent(beats, n - 1);
      StaleFrom(beats, stale + queue[..FirstFresh(beats, queue, beats[n - 1].at)], n)
  {
    var queue := Unspent(beats, n - 1);
    var k := FirstFresh(beats, queue, beats[n - 1].at);
    var older := stale + queue[..k];
    forall i, e | 0 <= i < |older| && n <= e < |beats| && beats[e].Echo?
      ensures !Fresh(beats, older[i], beats[e].at)
    {
      assert Ordered(beats, n - 1, e);
    }
  }

  lemma KeptNext(beats: seq<Beat>, n: nat)
    requires n < |beats| && beats[n].Echo?
    ensures
      var kept := Kept(beats, n);
      var k := FirstFresh(beats, kept, beats[n].at);
      Kept(beats, n + 1) == if k == |kept| then kept else kept[..k] + kept[k + 1..]
  {
  }

  lemma TakeOut(stale: seq<nat>, queue: seq<nat>, k: nat)
    requires k < |queue|
    ensures (stale + queue)[..|stale| + k] + (stale + queue)[|stale| + k + 1..] == stale + queue[..k] + queue[k + 1..]
  {
  }

  lemma KeptAfterEcho(beats: seq<Beat>, stale: seq<nat>, n: nat)
    requires n < |beats| && beats[n].Echo?
    requires StaleFrom(beats, stale, n) && Kept(beats, n) == stale + Unspent(beats, n)
    ensures
      var queue := Unspent(beats, n);
      Kept(beats, n + 1) == stale + queue[..FirstFresh(beats, queue, beats[n].at)] + Unspent(beats, n + 1)
  {
    hide Unspent, Kept, FirstFresh;
    var queue := Unspent(beats, n);
    var k := FirstFresh(beats, queue, beats[n].at);
    FirstFreshSkipsStale(beats, stale, queue, beats[n].at);
    KeptNext(beats, n);
    AfterEcho(beats, n);
    if k < |queue| {
      TakeOut(stale, queue, k);
    } else {
      assert stale + queue[..k] + [] == stale + queue;
    }
  }

  lemma StaleLater(beats: seq<Beat>, stale: seq<nat>, n: nat)
    requires StaleFrom(beats, stale, n)
    ensures StaleFrom(beats, stale, n + 1)
  {
  }

  lemma KeptAfterOther(beats: seq<Beat>, stale: seq<nat>, n: nat)
    requires n < |beats| && !beats[n].Echo? && Kept(beats, n) == stale + Unspent(beats, n)
    ensures Kept(beats, n + 1) == stale + Unspent(beats, n + 1)
  {
    hide FirstFresh;
    assert stale + (Unspent(beats, n) + [n]) == (stale + Unspent(beats, n)) + [n];
  }

  /** The keeping collector holds the same queue behind a prefix of records that no echo can use. */
  lemma {:induction false} KeptIsStalePlusUnspent(beats: seq<Beat>, n: nat) returns (stale: seq<nat>)
    requires MonotoneClock(beats) && n <= |beats|
    ensures Kept(beats, n) == stale + Unspent(beats, n)
    ensures StaleFrom(beats, stale, n)
  {
    if n == 0 {
      stale := [];
      assert Kept(beats, 0) == stale + Unspent(beats, 0);
    } else {
      hide FirstFresh, Unspent, Kept, MonotoneClock, StaleFrom, Fresh;
      stale := KeptIsStalePlusUnspent(beats, n - 1);
      if beats[n - 1].Echo? {
        var queue := Unspent(beats, n - 1);
        KeptAfterEcho(beats, stale, n - 1);
        OlderIsStale(beats, stale, n);
        stale := stale + queue[..FirstFresh(beats, queue, beats[n - 1].at)];
      } else {
        KeptAfterOther(beats, stale, n - 1);
        StaleLater(beats, stale, n - 1);
      }
    }
  }

  /** Dropping stale aborts and clearing an all-stale queue never changes whether an echo is excused. */
  lemma DiscardingIsInvisible(beats: seq<Beat>, k: nat)
    requires MonotoneClock(beats) && k < |beats|
    ensures Suppressed(beats, k) <==> SuppressedKeeping(beats, k)
  {
    var stale := KeptIsStalePlusUnspent(beats, k);
    if beats[k].Echo? {
      FirstFreshSkipsStale(beats, stale, Unspent(beats, k), beats[k].at);
    }
  }

  /**
   With a clock that steps back, discarding stale aborts can cost an excuse that a matching would give and
   that a collector would give which keeps them.
   */
  lemma ClockStepBackLosesAnExcuse(beats: seq<Beat>, m: map<nat, nat>)
    requires beats == [Abort(1000), Echo(9000), Echo(3000)] && m == map[2 := 0]
    ensures !MonotoneClock(beats) && Matching(beats, m) && SuppressedFrom(beats, 0) == {} && SuppressedKeeping(beats, 2)
  {
    assert !Ordered(beats, 1, 2);
    assert Unspent(beats, 0) == [] && Kept(beats, 0) == [];
    assert Unspent(beats, 1) == [] + [0];
    assert Kept(beats, 1) == [] + [0];
    assert FirstFresh(beats, [0], 9000) == 1;
    assert Unspent(beats, 2) == [];
    assert Kept(beats, 2) == [0];
    assert FirstFresh(beats, [0], 3000) == 0;
  }
}
