/** Cumulative layout shift: the worst session window, found in one pass over the shifts in time order. */
module LayoutShift {
  import opened Sequences

  const SESSION_GAP_MS := 1000.0
  const SESSION_CAP_MS := 5000.0

  datatype Shift = Shift(startTime: real, value: real, hadRecentInput: bool, sources: seq<string>)

  ghost predicate NonNegative(shifts: seq<Shift>) {
    forall i :: 0 <= i < |shifts| ==> shifts[i].value >= 0.0
  }

  // ----- the shifts that count, in time order

  function Counted(shifts: seq<Shift>): seq<Shift> {
    if shifts == [] then []
    else
      var rest := Counted(shifts[..|shifts| - 1]);
      if shifts[|shifts| - 1].hadRecentInput then rest else rest + [shifts[|shifts| - 1]]
  }

  ghost predicate InTimeOrder(shifts: seq<Shift>) {
    forall i, j :: 0 <= i < j < |shifts| ==> shifts[i].startTime <= shifts[j].startTime
  }

  predicate Earlier(a: Shift, b: Shift) { a.startTime < b.startTime }

  function SortByStart(shifts: seq<Shift>): seq<Shift> {
    Sort(Earlier, shifts)
  }

  lemma SortsByStart(shifts: seq<Shift>)
    ensures InTimeOrder(SortByStart(shifts))
    ensures multiset(SortByStart(shifts)) == multiset(shifts)
  {
    SortSorts(Earlier, shifts);
  }

  lemma {:induction false} CountedCount(shifts: seq<Shift>, e: Shift)
    ensures multiset(Counted(shifts))[e] == if e.hadRecentInput then 0 else multiset(shifts)[e]
  {
    if shifts != [] {
      CountedCount(shifts[..|shifts| - 1], e);
      assert shifts == shifts[..|shifts| - 1] + [shifts[|shifts| - 1]];
    }
  }

  // ----- the scan

  /** The variables of the loop. */
  datatype Scan = Scan(worst: real, window: real, windowStart: real, previous: real)

  const START := Scan(0.0, 0.0, 0.0, 0.0)

  predicate Joins(s: Scan, e: Shift) {
    s.window > 0.0 && e.startTime - s.previous < SESSION_GAP_MS && e.startTime - s.windowStart < SESSION_CAP_MS
  }

  function Max(a: real, b: real): real { if a < b then b else a }

  function Step(s: Scan, e: Shift): Scan {
    var window := if Joins(s, e) then s.window + e.value else e.value;
    Scan(Max(s.worst, window), window, if Joins(s, e) then s.windowStart else e.startTime, e.startTime)
  }

  function Fold(s: Scan, shifts: seq<Shift>): Scan
    decreases |shifts|
  {
    if shifts == [] then s else Fold(Step(s, shifts[0]), shifts[1..])
  }

  lemma {:induction false} FoldOfConcat(s: Scan, xs: seq<Shift>, ys: seq<Shift>)
    ensures Fold(s, xs + ys) == Fold(Fold(s, xs), ys)
    decreases |xs|
  {
    if xs == [] {
      assert xs + ys == ys;
    } else {
      assert (xs + ys)[1..] == xs[1..] + ys;
      FoldOfConcat(Step(s, xs[0]), xs[1..], ys);
    }
  }

  /** The scan after the first `n` shifts. */
  function After(xs: seq<Shift>, n: nat): Scan
    requires n <= |xs|
  {
    if n == 0 then START else Step(After(xs, n - 1), xs[n - 1])
  }

  lemma {:induction false} AfterIsFold(xs: seq<Shift>, n: nat)
    requires n <= |xs|
    ensures After(xs, n) == Fold(START, xs[..n])
  {
    if n > 0 {
      AfterIsFold(xs, n - 1);
      assert xs[..n] == xs[..n - 1] + [xs[n - 1]];
      FoldOfConcat(START, xs[..n - 1], [xs[n - 1]]);
    }
  }

  /** The layout-shift number of a list of shifts. */
  function Cls(shifts: seq<Shift>): real {
    Fold(START, SortByStart(Counted(shifts))).worst
  }

  method CumulativeLayoutShift(shifts: seq<Shift>) returns (worst: real)
    ensures worst == Cls(shifts)
  {
    var counted := SortByStart(Counted(shifts));
    worst := 0.0;
    var window, windowStart, previous := 0.0, 0.0, 0.0;
    var i := 0;
    while i < |counted|
      invariant i <= |counted|
      invariant Scan(worst, window, windowStart, previous) == After(counted, i)
    {
      var entry := counted[i];
      var joinsWindow :=
        window > 0.0 && entry.startTime - previous < SESSION_GAP_MS && entry.startTime - windowStart < SESSION_CAP_MS;
      if joinsWindow {
        window := window + entry.value;
      } else {
        window := entry.value;
        windowStart := entry.startTime;
      }
      previous := entry.startTime;
      worst := Max(worst, window);
      i := i + 1;
    }
    AfterIsFold(counted, i);
    assert counted[..i] == counted;
  }

  // ----- session windows, whatever way they are found

  ghost function Sum(xs: seq<Shift>, i: nat, j: nat): real
    requires i <= j <= |xs|
  {
    if i == j then 0.0 else Sum(xs, i, j - 1) + xs[j - 1].value
  }

  /** A session window: neighbours less than a second apart, the whole shorter than five seconds. */
  ghost predicate SessionWindow(xs: seq<Shift>, i: nat, j: nat) {
    && i < j <= |xs|
    && (forall k :: i < k < j ==> xs[k].startTime - xs[k - 1].startTime < 1000.0)
    && xs[j - 1].startTime - xs[i].startTime < 5000.0
  }

  /** The window that the scan is adding to after `n` shifts starts at index `i`. */
  ghost predicate OpenWindow(xs: seq<Shift>, n: nat, i: nat)
    requires n <= |xs|
  {
    && i < n && SessionWindow(xs, i, n)
    && After(xs, n).window == Sum(xs, i, n)
    && After(xs, n).windowStart == xs[i].startTime
    && After(xs, n).previous == xs[n - 1].startTime
  }

  lemma {:induction false} WindowIsOpen(xs: seq<Shift>, n: nat) returns (i: nat)
    requires 0 < n <= |xs|
    ensures OpenWindow(xs, n, i)
  {
    if n == 1 || !Joins(After(xs, n - 1), xs[n - 1]) {
      i := n - 1;
      assert Sum(xs, i, n) == Sum(xs, i, i) + xs[i].value;
    } else {
      i := WindowIsOpen(xs, n - 1);
    }
  }

  /** The worst window that the scan reports is a session window of the list. */
  lemma {:induction false} WorstIsAttained(xs: seq<Shift>, n: nat) returns (i: nat, j: nat)
    requires 0 < n <= |xs| && NonNegative(xs)
    ensures j <= n && SessionWindow(xs, i, j) && After(xs, n).worst == Sum(xs, i, j)
  {
    var start := WindowIsOpen(xs, n);
    if n == 1 || After(xs, n).worst == After(xs, n).window {
      assert xs[0].value >= 0.0;
      i, j := start, n;
    } else {
      i, j := WorstIsAttained(xs, n - 1);
    }
  }

  /** The scan starts a window of its own at shift `k`. */
  ghost predicate Restarts(xs: seq<Shift>, k: nat)
    requires k < |xs|
  {
    !Joins(After(xs, k), xs[k])
  }

  /**
   How the scan's windows divide the shifts from `i` to `j`: up to `m` the window that holds `i` goes on,
   from `m` to `p` there are only zero values, and from `p` on one further window goes on.
   */
  ghost predicate Divided(xs: seq<Shift>, i: nat, m: nat, p: nat, j: nat) {
    && i < m <= p <= j <= |xs|
    && (forall k :: i < k < m ==> !Restarts(xs, k))
    && (forall k :: m <= k < p ==> xs[k].value == 0.0)
    && (forall k :: p < k < j ==> !Restarts(xs, k))
    && (p == j ==> m == j)
    && (p < j ==> Restarts(xs, p) && After(xs, j).windowStart == xs[p].startTime && After(xs, j).window == Sum(xs, p, j))
  }

  /** A session window meets at most two of the scan's windows that hold more than a zero value. */
  lemma {:induction false} TwoWindowsSuffice(xs: seq<Shift>, i: nat, j: nat) returns (m: nat, p: nat)
    requires InTimeOrder(xs) && NonNegative(xs) && SessionWindow(xs, i, j)
    ensures Divided(xs, i, m, p, j)
    decreases j
  {
    if i == j - 1 {
      m, p := j, j;
    } else {
      var last := j - 1;
      assert SessionWindow(xs, i, last);
      m, p := TwoWindowsSuffice(xs, i, last);
      assert After(xs, last).previous == xs[last - 1].startTime;
      if !Restarts(xs, last) {
        if p == last { m, p := j, j; }
      } else if p == last {
        assert Sum(xs, last, j) == Sum(xs, last, last) + xs[last].value;
      } else {
        ZeroSum(xs, p, last);
        assert Sum(xs, last, j) == Sum(xs, last, last) + xs[last].value;
        p := last;
      }
    }
  }

  lemma {:induction false} ZeroSum(xs: seq<Shift>, i: nat, j: nat)
    requires i <= j <= |xs| && NonNegative(xs)
    ensures Sum(xs, i, j) >= 0.0
    ensures Sum(xs, i, j) == 0.0 ==> forall k :: i <= k < j ==> xs[k].value == 0.0
    decreases j
  {
    if i < j {
      ZeroSum(xs, i, j - 1);
    }
  }

  lemma {:induction false} SumSplits(xs: seq<Shift>, i: nat, m: nat, j: nat)
    requires i <= m <= j <= |xs|
    ensures Sum(xs, i, j) == Sum(xs, i, m) + Sum(xs, m, j)
    decreases j
  {
    if m < j {
      SumSplits(xs, i, m, j - 1);
    }
  }

  lemma {:induction false} ZerosSumToZero(xs: seq<Shift>, i: nat, j: nat)
    requires i <= j <= |xs| && forall k :: i <= k < j ==> xs[k].value == 0.0
    ensures Sum(xs, i, j) == 0.0
    decreases j
  {
    if i < j {
      ZerosSumToZero(xs, i, j - 1);
    }
  }

  /** As long as the window that holds `i` goes on, it holds the shifts from `i` on. */
  lemma {:induction false} FirstWindowHolds(xs: seq<Shift>, i: nat, m: nat)
    requires NonNegative(xs) && i < m <= |xs| && forall k :: i < k < m ==> !Restarts(xs, k)
    ensures Sum(xs, i, m) <= After(xs, m).window
    decreases m
  {
    WindowStaysBelowWorst(xs, m - 1);
    if i < m - 1 {
      FirstWindowHolds(xs, i, m - 1);
      assert !Restarts(xs, m - 1);
    } else {
      assert Sum(xs, i, m) == Sum(xs, i, i) + xs[i].value;
    }
  }

  lemma {:induction false} WindowStaysBelowWorst(xs: seq<Shift>, n: nat)
    requires n <= |xs| && NonNegative(xs)
    ensures 0.0 <= After(xs, n).window <= After(xs, n).worst
  {
  }

  lemma {:induction false} WorstGrows(xs: seq<Shift>, m: nat, n: nat)
    requires m <= n <= |xs|
    ensures After(xs, m).worst <= After(xs, n).worst
    decreases n
  {
    if m < n {
      WorstGrows(xs, m, n - 1);
    }
  }

  lemma ClsIsAfter(shifts: seq<Shift>)
    ensures
      var xs := SortByStart(Counted(shifts));
      Cls(shifts) == After(xs, |xs|).worst
  {
    var xs := SortByStart(Counted(shifts));
    AfterIsFold(xs, |xs|);
    assert xs[..|xs|] == xs;
  }

  lemma CountedOrder(shifts: seq<Shift>)
    requires NonNegative(shifts)
    ensures InTimeOrder(SortByStart(Counted(shifts))) && NonNegative(SortByStart(Counted(shifts)))
  {
    var xs := SortByStart(Counted(shifts));
    SortsByStart(Counted(shifts));
    forall i | 0 <= i < |xs|
      ensures xs[i].value >= 0.0
    {
      assert xs[i] in multiset(Counted(shifts));
      CountedCount(shifts, xs[i]);
      assert xs[i] in multiset(shifts);
    }
  }

  /** The reported number is the total of some session window of the counted shifts, or zero without any. */
  lemma ClsIsASessionWindow(shifts: seq<Shift>)
    requires NonNegative(shifts)
    ensures
      var xs := SortByStart(Counted(shifts));
      if xs == [] then Cls(shifts) == 0.0
      else exists i, j :: SessionWindow(xs, i, j) && Cls(shifts) == Sum(xs, i, j)
  {
    var xs := SortByStart(Counted(shifts));
    ClsIsAfter(shifts);
    CountedOrder(shifts);
    if xs != [] {
      var i, j := WorstIsAttained(xs, |xs|);
      assert SessionWindow(xs, i, j) && Cls(shifts) == Sum(xs, i, j);
    }
  }

  /** No session window of the counted shifts totals more than twice the reported number. */
  lemma ClsIsHalfTheBest(shifts: seq<Shift>, i: nat, j: nat)
    requires NonNegative(shifts) && SessionWindow(SortByStart(Counted(shifts)), i, j)
    ensures Sum(SortByStart(Counted(shifts)), i, j) <= 2.0 * Cls(shifts)
  {
    var xs := SortByStart(Counted(shifts));
    ClsIsAfter(shifts);
    CountedOrder(shifts);
    var m, p := TwoWindowsSuffice(xs, i, j);
    FirstWindowHolds(xs, i, m);
    ZerosSumToZero(xs, m, p);
    SumSplits(xs, i, m, j);
    SumSplits(xs, m, p, j);
    WindowStaysBelowWorst(xs, m);
    WindowStaysBelowWorst(xs, j);
    WorstGrows(xs, m, |xs|);
    WorstGrows(xs, j, |xs|);
  }

  // ----- the order of the input does not matter

  /** Two shifts that start together can be scanned in either order. */
  lemma TiesCommute(s: Scan, a: Shift, b: Shift)
    requires s.window >= 0.0 && a.value >= 0.0 && b.value >= 0.0 && a.startTime == b.startTime
    ensures Step(Step(s, a), b) == Step(Step(s, b), a)
  {
  }

  lemma {:induction false} BringForward(s: Scan, xs: seq<Shift>, k: nat)
    requires s.window >= 0.0 && NonNegative(xs) && k < |xs|
    requires forall i :: 0 <= i < k ==> xs[i].startTime == xs[k].startTime
    ensures Fold(s, xs) == Fold(Step(s, xs[k]), xs[..k] + xs[k + 1..])
    decreases k
  {
    if k == 0 {
      assert xs[..0] + xs[1..] == xs[1..];
    } else {
      var tail, e := xs[1..], xs[k];
      BringForward(Step(s, xs[0]), tail, k - 1);
      var rest := tail[..k - 1] + tail[k..];
      TiesCommute(s, xs[0], e);
      assert xs[..k] + xs[k + 1..] == [xs[0]] + rest;
    }
  }

  lemma TakeOut(xs: seq<Shift>, ys: seq<Shift>, k: nat)
    requires xs != [] && multiset(xs) == multiset(ys) && k < |ys| && ys[k] == xs[0]
    ensures multiset(ys[..k] + ys[k + 1..]) == multiset(xs[1..])
  {
    assert ys == ys[..k] + [xs[0]] + ys[k + 1..];
    assert xs == [xs[0]] + xs[1..];
    assert multiset(ys[..k] + ys[k + 1..]) == multiset(ys) - multiset{xs[0]};
  }

  /** Any two time-ordered arrangements of the same shifts scan to the same end. */
  lemma {:induction false} ArrangementsAgree(s: Scan, xs: seq<Shift>, ys: seq<Shift>)
    requires s.window >= 0.0 && NonNegative(xs)
    requires InTimeOrder(xs) && InTimeOrder(ys) && multiset(xs) == multiset(ys)
    ensures Fold(s, xs) == Fold(s, ys)
    decreases |xs|
  {
    if xs == [] {
      assert |multiset(ys)| == 0;
    } else {
      var k := FirstIndex(xs, ys);
      SameValues(xs, ys);
      BringForward(s, ys, k);
      TakeOut(xs, ys, k);
      ArrangementsAgree(Step(s, xs[0]), xs[1..], ys[..k] + ys[k + 1..]);
    }
  }

  lemma SameValues(xs: seq<Shift>, ys: seq<Shift>)
    requires NonNegative(xs) && multiset(xs) == multiset(ys)
    ensures NonNegative(ys)
  {
    forall i | 0 <= i < |ys|
      ensures ys[i].value >= 0.0
    {
      assert ys[i] in multiset(xs);
    }
  }

  /** The first shift of one arrangement occurs in the other behind ties of it only. */
  lemma FirstIndex(xs: seq<Shift>, ys: seq<Shift>) returns (k: nat)
    requires xs != [] && InTimeOrder(xs) && InTimeOrder(ys) && multiset(xs) == multiset(ys)
    ensures k < |ys| && ys[k] == xs[0]
    ensures forall i :: 0 <= i < k ==> ys[i].startTime == ys[k].startTime
  {
    assert xs[0] in multiset(ys);
    k :| 0 <= k < |ys| && ys[k] == xs[0];
    forall i | 0 <= i < k
      ensures ys[i].startTime == ys[k].startTime
    {
      assert ys[i] in multiset(xs);
      var l :| 0 <= l < |xs| && xs[l] == ys[i];
    }
  }

  /** The number is the same for every permutation of the input, ties and zero values included. */
  lemma ClsIgnoresOrder(shifts: seq<Shift>, shifts': seq<Shift>)
    requires NonNegative(shifts) && multiset(shifts) == multiset(shifts')
    ensures Cls(shifts) == Cls(shifts')
  {
    forall e: Shift
      ensures multiset(Counted(shifts))[e] == multiset(Counted(shifts'))[e]
    {
      CountedCount(shifts, e);
      CountedCount(shifts', e);
    }
    assert multiset(Counted(shifts)) == multiset(Counted(shifts'));
    CountedOrder(shifts);
    SortsByStart(Counted(shifts));
    SortsByStart(Counted(shifts'));
    ArrangementsAgree(START, SortByStart(Counted(shifts)), SortByStart(Counted(shifts')));
  }

  // ----- the factor two cannot be improved

  function At(startTime: real, value: real): Shift {
    Shift(startTime, value, false, [])
  }

  /** Small shifts keep the first window open until a large one that the next window cannot reach back to. */
  function Straddling(small: real): seq<Shift> {
    [At(0.0, small), At(900.0, small), At(1800.0, small), At(2700.0, small), At(3600.0, small), At(4500.0, 1.0), At(5000.0, 1.0)]
  }

  lemma StraddlingScan(small: real)
    requires 0.0 < small
    ensures Fold(START, Straddling(small)).worst == 1.0 + 5.0 * small
  {
    var xs := Straddling(small);
    assert After(xs, 1) == Scan(small, small, 0.0, 0.0);
    assert After(xs, 2) == Scan(2.0 * small, 2.0 * small, 0.0, 900.0);
    assert After(xs, 3) == Scan(3.0 * small, 3.0 * small, 0.0, 1800.0);
    assert After(xs, 4) == Scan(4.0 * small, 4.0 * small, 0.0, 2700.0);
    assert After(xs, 5) == Scan(5.0 * small, 5.0 * small, 0.0, 3600.0);
    assert After(xs, 6) == Scan(5.0 * small + 1.0, 5.0 * small + 1.0, 0.0, 4500.0);
    assert After(xs, 7).worst == 5.0 * small + 1.0;
    AfterIsFold(xs, 7);
    assert xs[..7] == xs;
  }

  lemma {:induction false} AllCounted(xs: seq<Shift>)
    requires forall i :: 0 <= i < |xs| ==> !xs[i].hadRecentInput
    ensures Counted(xs) == xs
  {
    if xs != [] {
      AllCounted(xs[..|xs| - 1]);
    }
  }

  lemma TimesPositive(a: real, b: real, c: real)
    requires a < b && 0.0 < c
    ensures a * c < b * c
  {
  }

  lemma BelowTwice(factor: real, small: real)
    requires 1.0 <= factor < 2.0 && small == (2.0 - factor) / 20.0
    ensures factor * (1.0 + 5.0 * small) < 2.0
  {
    TimesPositive(factor, 2.0, 5.0 * small);
    assert factor * (1.0 + 5.0 * small) == factor + factor * (5.0 * small);
  }

  /** For every factor below two some list has a session window that exceeds that multiple of its number. */
  lemma TwoIsTheBestFactor(factor: real) returns (xs: seq<Shift>, i: nat, j: nat)
    requires 1.0 <= factor < 2.0
    ensures NonNegative(xs) && SortByStart(Counted(xs)) == xs && SessionWindow(xs, i, j)
    ensures Sum(xs, i, j) > factor * Cls(xs)
  {
    var small := (2.0 - factor) / 20.0;
    xs, i, j := Straddling(small), 5, 7;
    LargeShifts(small);
    assert forall k :: 0 <= k < |xs| ==> !xs[k].hadRecentInput;
    AllCounted(xs);
    assert SortByStart(xs) == xs by { OrderedIsSorted(Earlier, xs); }
    hide Straddling, SortByStart, Counted, Fold, Sum, InTimeOrder;
    StraddlingScan(small);
    BelowTwice(factor, small);
  }

  lemma LargeShifts(small: real)
    requires 0.0 < small
    ensures
      var xs := Straddling(small);
      NonNegative(xs) && InTimeOrder(xs) && SessionWindow(xs, 5, 7) && Sum(xs, 5, 7) == 2.0
  {
    var xs := Straddling(small);
    assert Sum(xs, 5, 7) == Sum(xs, 5, 6) + 1.0 && Sum(xs, 5, 6) == Sum(xs, 5, 5) + 1.0;
  }
}
