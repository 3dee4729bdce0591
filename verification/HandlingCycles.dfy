/**
 Inbox handling cycles: an append-only transition log, numbered cycles, and the head and item rows
 that project them. Seeding, closing and reopening write their rows one statement after another.
 */
module HandlingCycles {
  import opened Wrappers

  type Id = nat

  datatype Status = Open | Closed

  datatype Source = Review | Feedback

  datatype Kind = Opening | Closing | Reopening

  datatype Cycle = Cycle(item: Id, number: nat, openedReason: string, supersedes: Option<nat>, openedAt: int)

  datatype Transition = Transition(item: Id, stateRevision: nat, cycleNumber: nat, kind: Kind, reason: string, actor: string, at: int)

  datatype Head = Head(organization: string, source: Source, cycle: nat, stateRevision: nat, status: Status, updatedAt: int)

  datatype Item = Item(organization: string, status: Status, closedAt: Option<int>, commandRevision: nat)

  // ----- reading the log

  function LogOf(transitions: seq<Transition>, id: Id): seq<Transition> {
    if transitions == [] then []
    else
      var before, last := LogOf(transitions[..|transitions| - 1], id), transitions[|transitions| - 1];
      if last.item == id then before + [last] else before
  }

  function CyclesOf(cycles: seq<Cycle>, id: Id): seq<Cycle> {
    if cycles == [] then []
    else
      var before, last := CyclesOf(cycles[..|cycles| - 1], id), cycles[|cycles| - 1];
      if last.item == id then before + [last] else before
  }

  /** What a head says about its item, scope aside. */
  datatype Standing = Standing(cycle: nat, stateRevision: nat, status: Status, updatedAt: int)

  /** The standing that a log of transitions leads to. */
  function Replay(log: seq<Transition>): Standing {
    if log == [] then Standing(0, 0, Closed, 0)
    else
      var before, last := Replay(log[..|log| - 1]), log[|log| - 1];
      match last.kind
      case Closing => Standing(before.cycle, before.stateRevision + 1, Closed, last.at)
      case _ => Standing(before.cycle + 1, before.stateRevision + 1, Open, last.at)
  }

  function Openings(log: seq<Transition>): nat {
    if log == [] then 0 else Openings(log[..|log| - 1]) + if log[|log| - 1].kind == Closing then 0 else 1
  }

  /** The replayed standing counts the log: a revision per row, a cycle per opening, closed after a closing. */
  lemma {:induction false} ReplayCounts(log: seq<Transition>)
    ensures Replay(log).stateRevision == |log| && Replay(log).cycle == Openings(log)
    ensures log != [] ==> (Replay(log).status == Closed <==> log[|log| - 1].kind == Closing) && Replay(log).updatedAt == log[|log| - 1].at
  {
    if log != [] {
      ReplayCounts(log[..|log| - 1]);
    }
  }

  /** A row carries its position as state revision and the number of openings up to it as cycle. */
  ghost predicate RowFits(log: seq<Transition>, k: nat)
    requires k < |log|
  {
    && log[k].stateRevision == k + 1
    && log[k].cycleNumber == Openings(log[..k + 1])
    && (log[k].kind == Opening <==> k == 0)
    && (k > 0 && log[k].kind == Closing ==> log[k - 1].kind != Closing)
  }

  /** The log opens once, at the start, and never closes twice in a row. */
  ghost predicate WellNumbered(log: seq<Transition>) {
    forall k: nat :: k < |log| ==> RowFits(log, k)
  }

  /** Cycles run 1..n, each superseding the one before it. */
  ghost predicate Chained(cycles: seq<Cycle>) {
    forall k :: 0 <= k < |cycles| ==>
      cycles[k].number == k + 1 && cycles[k].supersedes == if k == 0 then None else Some(k)
  }

  lemma LogOfAppend(transitions: seq<Transition>, t: Transition, id: Id)
    ensures LogOf(transitions + [t], id) == LogOf(transitions, id) + if t.item == id then [t] else []
  {
  }

  lemma CyclesOfAppend(cycles: seq<Cycle>, c: Cycle, id: Id)
    ensures CyclesOf(cycles + [c], id) == CyclesOf(cycles, id) + if c.item == id then [c] else []
  {
  }

  lemma ReplayAppend(log: seq<Transition>, t: Transition)
    ensures Openings(log + [t]) == Openings(log) + if t.kind == Closing then 0 else 1
    ensures Replay(log + [t]) ==
      Standing(Replay(log).cycle + if t.kind == Closing then 0 else 1, Replay(log).stateRevision + 1,
               if t.kind == Closing then Closed else Open, t.at)
  {
    assert (log + [t])[..|log|] == log;
  }

  /** An appended row leaves the number of every row before it as it was. */
  lemma NumbersStay(log: seq<Transition>, t: Transition, k: nat)
    requires k <= |log|
    ensures Openings((log + [t])[..k + 1])
            == if k < |log| then Openings(log[..k + 1]) else Openings(log) + if t.kind == Closing then 0 else 1
  {
    if k < |log| {
      assert (log + [t])[..k + 1] == log[..k + 1];
    } else {
      assert (log + [t])[..k + 1] == log + [t];
      ReplayAppend(log, t);
    }
  }

  lemma WellNumberedAppend(log: seq<Transition>, t: Transition)
    requires WellNumbered(log) && t.stateRevision == |log| + 1
    requires t.cycleNumber == Openings(log) + if t.kind == Closing then 0 else 1
    requires t.kind == Opening <==> log == []
    requires log != [] && t.kind == Closing ==> log[|log| - 1].kind != Closing
    ensures WellNumbered(log + [t])
  {
    hide Openings;
    var longer := log + [t];
    forall k: nat | k < |longer|
      ensures RowFits(longer, k)
    {
      NumbersStay(log, t, k);
      if k < |log| { assert RowFits(log, k); }
    }
  }

  /** The rows of one item: the head is the replay of its log, its cycles are chained, its item row follows it. */
  ghost predicate Projected(log: seq<Transition>, cycles: seq<Cycle>, head: Head, item: Item) {
    && log != [] && WellNumbered(log)
    && Replay(log) == Standing(head.cycle, head.stateRevision, head.status, head.updatedAt)
    && Chained(cycles) && |cycles| == head.cycle
    && item.organization == head.organization && item.status == head.status
  }

  // ----- the tables as a whole

  datatype Tables = Tables(cycles: seq<Cycle>, transitions: seq<Transition>, heads: map<Id, Head>, items: map<Id, Item>)

  ghost predicate Seeded(t: Tables, id: Id) {
    id in t.heads && id in t.items && Projected(LogOf(t.transitions, id), CyclesOf(t.cycles, id), t.heads[id], t.items[id])
  }

  ghost predicate Unseeded(t: Tables, id: Id) {
    id !in t.heads && id !in t.items && LogOf(t.transitions, id) == [] && CyclesOf(t.cycles, id) == []
  }

  /** Every item is either fully seeded, its head and row following its log, or not there at all. */
  ghost predicate Consistent(t: Tables) {
    forall id :: Seeded(t, id) || Unseeded(t, id)
  }

  /** The primary keys: (item, number) of cycles and (item, state revision) of transitions. */
  predicate CycleExists(cycles: seq<Cycle>, id: Id, number: nat) {
    exists i :: 0 <= i < |cycles| && cycles[i].item == id && cycles[i].number == number
  }

  predicate TransitionExists(transitions: seq<Transition>, id: Id, stateRevision: nat) {
    exists i :: 0 <= i < |transitions| && transitions[i].item == id && transitions[i].stateRevision == stateRevision
  }

  lemma {:induction false} CycleIsListed(cycles: seq<Cycle>, i: nat)
    requires i < |cycles|
    ensures cycles[i] in CyclesOf(cycles, cycles[i].item)
  {
    if i < |cycles| - 1 {
      CycleIsListed(cycles[..|cycles| - 1], i);
    }
  }

  lemma {:induction false} TransitionIsListed(transitions: seq<Transition>, i: nat)
    requires i < |transitions|
    ensures transitions[i] in LogOf(transitions, transitions[i].item)
  {
    if i < |transitions| - 1 {
      TransitionIsListed(transitions[..|transitions| - 1], i);
    }
  }

  lemma RevisionsCount(log: seq<Transition>)
    requires WellNumbered(log)
    ensures forall k :: 0 <= k < |log| ==> log[k].stateRevision == k + 1
  {
    forall k | 0 <= k < |log|
      ensures log[k].stateRevision == k + 1
    {
      assert RowFits(log, k);
    }
  }

  /** The next cycle number and the next state revision of an item are always free. */
  lemma NextKeysAreFree(t: Tables, id: Id)
    requires Consistent(t)
    ensures
      var cycle, revision := |CyclesOf(t.cycles, id)| + 1, |LogOf(t.transitions, id)| + 1;
      !CycleExists(t.cycles, id, cycle) && !TransitionExists(t.transitions, id, revision)
  {
    assert Seeded(t, id) || Unseeded(t, id);
    RevisionsCount(LogOf(t.transitions, id));
    var cycle, revision := |CyclesOf(t.cycles, id)| + 1, |LogOf(t.transitions, id)| + 1;
    if i :| 0 <= i < |t.cycles| && t.cycles[i].item == id && t.cycles[i].number == cycle {
      CycleIsListed(t.cycles, i);
      assert false;
    }
    if i :| 0 <= i < |t.transitions| && t.transitions[i].item == id && t.transitions[i].stateRevision == revision {
      TransitionIsListed(t.transitions, i);
      assert false;
    }
  }

  /** The tables after one log row and one cycle row at most, a head and an item row were written for `id`. */
  function Written(t: Tables, id: Id, log: seq<Transition>, cycles: seq<Cycle>, head: Head, item: Item): Tables {
    Tables(t.cycles + cycles, t.transitions + log, t.heads[id := head], t.items[id := item])
  }

  /** Rows written for one item leave every other item as it was. */
  lemma OthersStay(t: Tables, id: Id, log: seq<Transition>, cycles: seq<Cycle>, head: Head, item: Item)
    requires Consistent(t)
    requires |log| <= 1 && |cycles| <= 1 && (log != [] ==> log[0].item == id) && (cycles != [] ==> cycles[0].item == id)
    requires Projected(LogOf(t.transitions, id) + log, CyclesOf(t.cycles, id) + cycles, head, item)
    ensures Consistent(Written(t, id, log, cycles, head, item))
  {
    hide Projected, LogOf, CyclesOf, Seeded, Unseeded;
    var t' := Written(t, id, log, cycles, head, item);
    forall other
      ensures Seeded(t', other) || Unseeded(t', other)
    {
      assert Seeded(t, other) || Unseeded(t, other);
      OneStays(t, id, log, cycles, head, item, other);
    }
  }

  lemma OneStays(t: Tables, id: Id, log: seq<Transition>, cycles: seq<Cycle>, head: Head, item: Item, other: Id)
    requires Seeded(t, other) || Unseeded(t, other)
    requires |log| <= 1 && |cycles| <= 1 && (log != [] ==> log[0].item == id) && (cycles != [] ==> cycles[0].item == id)
    requires Projected(LogOf(t.transitions, id) + log, CyclesOf(t.cycles, id) + cycles, head, item)
    ensures
      var t' := Written(t, id, log, cycles, head, item);
      Seeded(t', other) || Unseeded(t', other)
  {
    hide Projected, LogOf, CyclesOf;
    AppendRows(t.transitions, log, t.cycles, cycles, other, id);
    var before, chain := LogOf(t.transitions, other), CyclesOf(t.cycles, other);
    assert before + [] == before && chain + [] == chain;
  }

  lemma AppendRows(transitions: seq<Transition>, log: seq<Transition>, cycles: seq<Cycle>, more: seq<Cycle>, other: Id, id: Id)
    requires |log| <= 1 && |more| <= 1 && (log != [] ==> log[0].item == id) && (more != [] ==> more[0].item == id)
    ensures LogOf(transitions + log, other) == LogOf(transitions, other) + if other == id then log else []
    ensures CyclesOf(cycles + more, other) == CyclesOf(cycles, other) + if other == id then more else []
  {
    if log == [] {
      assert transitions + log == transitions;
    } else {
      LogOfAppend(transitions, log[0], other);
      assert log == [log[0]];
    }
    if more == [] {
      assert cycles + more == cycles;
    } else {
      CyclesOfAppend(cycles, more[0], other);
      assert more == [more[0]];
    }
  }

  lemma ChainedAppend(cycles: seq<Cycle>, c: Cycle)
    requires Chained(cycles) && c.number == |cycles| + 1
    requires c.supersedes == if cycles == [] then None else Some(|cycles|)
    ensures Chained(cycles + [c])
  {
  }

  // ----- the rows each operation writes

  function OpeningReason(source: Source): string {
    if source == Review then "review_observed" else "feedback_submitted"
  }

  function OpeningActor(source: Source): string {
    if source == Review then "provider" else "guest"
  }

  function OpeningRow(id: Id, source: Source, at: int): Transition {
    Transition(id, 1, 1, Opening, OpeningReason(source), OpeningActor(source), at)
  }

  function ClosingRow(id: Id, head: Head, reason: string, actor: string, at: int): Transition {
    Transition(id, head.stateRevision + 1, head.cycle, Closing, reason, actor, at)
  }

  function ReopeningRow(id: Id, head: Head, reason: string, at: int): Transition {
    Transition(id, head.stateRevision + 1, head.cycle + 1, Reopening, reason, "provider", at)
  }

  /** The check constraint on the reasons that may open a cycle of a feedback item. */
  predicate ReasonAllowed(source: Source, reason: string) {
    source == Feedback ==> reason in {"legacy_backfill", "feedback_submitted", "manual_reopen"}
  }

  function SeededHead(organization: string, source: Source, at: int): Head {
    Head(organization, source, 1, 1, Open, at)
  }

  function ClosedHead(head: Head, at: int): Head {
    head.(status := Closed, stateRevision := head.stateRevision + 1, updatedAt := at)
  }

  function ReopenedHead(head: Head, at: int): Head {
    head.(status := Open, cycle := head.cycle + 1, stateRevision := head.stateRevision + 1, updatedAt := at)
  }

  function TouchedItem(item: Item, status: Status, closedAt: Option<int>): Item {
    item.(status := status, closedAt := closedAt, commandRevision := item.commandRevision + 1)
  }

  lemma SeedKeeps(t: Tables, id: Id, organization: string, source: Source, at: int)
    requires Consistent(t) && id !in t.items
    ensures
      Consistent(Written(t, id, [OpeningRow(id, source, at)], [Cycle(id, 1, OpeningReason(source), None, at)],
                         SeededHead(organization, source, at), Item(organization, Open, None, 1)))
  {
    assert Unseeded(t, id);
    hide LogOf, CyclesOf;
    var log, cycles := [OpeningRow(id, source, at)], [Cycle(id, 1, OpeningReason(source), None, at)];
    WellNumberedAppend([], log[0]);
    ReplayAppend([], log[0]);
    assert [] + log == log && [] + cycles == cycles;
    OthersStay(t, id, log, cycles, SeededHead(organization, source, at), Item(organization, Open, None, 1));
  }

  lemma CloseKeeps(t: Tables, id: Id, reason: string, actor: string, at: int)
    requires Consistent(t) && id in t.heads && id in t.items && t.heads[id].status == Open
    ensures
      var head := t.heads[id];
      Consistent(Written(t, id, [ClosingRow(id, head, reason, actor, at)], [], ClosedHead(head, at),
                         TouchedItem(t.items[id], Closed, Some(at))))
  {
    assert Seeded(t, id);
    var head, log, cycles := t.heads[id], LogOf(t.transitions, id), CyclesOf(t.cycles, id);
    hide LogOf, CyclesOf, Consistent;
    var row := ClosingRow(id, head, reason, actor, at);
    ReplayCounts(log);
    WellNumberedAppend(log, row);
    ReplayAppend(log, row);
    assert cycles + [] == cycles;
    OthersStay(t, id, [row], [], ClosedHead(head, at), TouchedItem(t.items[id], Closed, Some(at)));
  }

  lemma CloseAgainKeeps(t: Tables, id: Id, at: int)
    requires Consistent(t) && id in t.heads && id in t.items && t.heads[id].status == Closed
    ensures Consistent(t.(items := t.items[id := TouchedItem(t.items[id], Closed, Some(at))]))
  {
    assert Seeded(t, id);
    var log, cycles := LogOf(t.transitions, id), CyclesOf(t.cycles, id);
    hide LogOf, CyclesOf, Consistent;
    assert log + [] == log && t.transitions + [] == t.transitions && cycles + [] == cycles && t.cycles + [] == t.cycles;
    assert t.heads[id := t.heads[id]] == t.heads;
    OthersStay(t, id, [], [], t.heads[id], TouchedItem(t.items[id], Closed, Some(at)));
  }

  lemma ReopenKeeps(t: Tables, id: Id, reason: string, at: int)
    requires Consistent(t) && id in t.heads && id in t.items
    ensures
      var head := t.heads[id];
      Consistent(Written(t, id, [ReopeningRow(id, head, reason, at)], [Cycle(id, head.cycle + 1, reason, Some(head.cycle), at)],
                         ReopenedHead(head, at), TouchedItem(t.items[id], Open, None)))
  {
    assert Seeded(t, id);
    var head, log, cycles := t.heads[id], LogOf(t.transitions, id), CyclesOf(t.cycles, id);
    hide LogOf, CyclesOf, Consistent;
    var row, cycle := ReopeningRow(id, head, reason, at), Cycle(id, head.cycle + 1, reason, Some(head.cycle), at);
    ReplayCounts(log);
    HasOpening(log);
    WellNumberedAppend(log, row);
    ReplayAppend(log, row);
    ChainedAppend(cycles, cycle);
    OthersStay(t, id, [row], [cycle], ReopenedHead(head, at), TouchedItem(t.items[id], Open, None));
  }

  lemma HasOpening(log: seq<Transition>)
    requires log != [] && WellNumbered(log)
    ensures Openings(log) >= 1
  {
    OpeningsGrow(log, 1);
    assert RowFits(log, 0);
    assert log[..1] == [log[0]];
  }

  lemma {:induction false} OpeningsGrow(log: seq<Transition>, k: nat)
    requires k <= |log|
    ensures Openings(log[..k]) <= Openings(log)
    decreases |log|
  {
    if k < |log| {
      OpeningsGrow(log[..|log| - 1], k);
      assert log[..|log| - 1][..k] == log[..k];
    } else {
      assert log[..k] == log;
    }
  }

  // ----- whole calls and runs

  datatype Call =
    | Seed(id: Id, organization: string, source: Source, at: int)
    | Close(organization: string, id: Id, reason: string, actor: string, at: int)
    | Reopen(organization: string, id: Id, reason: string, at: int)

  const REOPEN_REASONS := {"provider_reply_deleted", "provider_reply_diverged"}

  predicate Owned(t: Tables, organization: string, id: Id) {
    id in t.heads && id in t.items && t.heads[id].organization == organization
  }

  /** Items are seeded once, and a reopening gives one of the two reasons its type admits. */
  predicate Callable(t: Tables, call: Call) {
    match call
    case Seed(id, _, _, _) => id !in t.items
    case Close(_, _, _, _, _) => true
    case Reopen(_, _, reason, _) => reason in REOPEN_REASONS
  }

  /** Whether a check constraint refuses the first statement of a call. */
  predicate Refused(t: Tables, call: Call) {
    call.Reopen? && Owned(t, call.organization, call.id) && !ReasonAllowed(t.heads[call.id].source, call.reason)
  }

  function AfterCall(t: Tables, call: Call): Tables {
    match call
    case Seed(id, organization, source, at) =>
      Written(t, id, [OpeningRow(id, source, at)], [Cycle(id, 1, OpeningReason(source), None, at)],
              SeededHead(organization, source, at), Item(organization, Open, None, 1))
    case Close(organization, id, reason, actor, at) =>
      if !Owned(t, organization, id) then t
      else
        var head, item := t.heads[id], TouchedItem(t.items[id], Closed, Some(at));
        if head.status == Open then Written(t, id, [ClosingRow(id, head, reason, actor, at)], [], ClosedHead(head, at), item)
        else t.(items := t.items[id := item])
    case Reopen(organization, id, reason, at) =>
      if !Owned(t, organization, id) || Refused(t, call) then t
      else
        var head := t.heads[id];
        Written(t, id, [ReopeningRow(id, head, reason, at)], [Cycle(id, head.cycle + 1, reason, Some(head.cycle), at)],
                ReopenedHead(head, at), TouchedItem(t.items[id], Open, None))
  }

  lemma CallKeeps(t: Tables, call: Call)
    requires Consistent(t) && Callable(t, call)
    ensures Consistent(AfterCall(t, call))
  {
    hide Consistent, LogOf, CyclesOf, Written, OpeningRow, ClosingRow, ReopeningRow;
    match call
    case Seed(id, organization, source, at) =>
      SeedKeeps(t, id, organization, source, at);
    case Close(organization, id, reason, actor, at) =>
      if Owned(t, organization, id) {
        if t.heads[id].status == Open {
          CloseKeeps(t, id, reason, actor, at);
        } else {
          CloseAgainKeeps(t, id, at);
        }
      }
    case Reopen(organization, id, reason, at) =>
      if Owned(t, organization, id) && !Refused(t, call) {
        ReopenKeeps(t, id, reason, at);
      }
  }

  ghost predicate Runs(t: Tables, calls: seq<Call>)
    decreases |calls|
  {
    calls == [] || (Callable(t, calls[0]) && Runs(AfterCall(t, calls[0]), calls[1..]))
  }

  ghost function Final(t: Tables, calls: seq<Call>): Tables
    decreases |calls|
  {
    if calls == [] then t else Final(AfterCall(t, calls[0]), calls[1..])
  }

  /** After any run every head is the replay of its log, its cycles are chained, and its item row follows it. */
  lemma {:induction false} RunKeepsProjection(t: Tables, calls: seq<Call>)
    requires Consistent(t) && Runs(t, calls)
    ensures Consistent(Final(t, calls))
    decreases |calls|
  {
    hide Consistent, AfterCall;
    if calls != [] {
      CallKeeps(t, calls[0]);
      RunKeepsProjection(AfterCall(t, calls[0]), calls[1..]);
    }
  }

  /** No run rewrites or removes a transition or a cycle. */
  lemma {:induction false} RunOnlyAppends(t: Tables, calls: seq<Call>)
    ensures t.transitions <= Final(t, calls).transitions && t.cycles <= Final(t, calls).cycles
    decreases |calls|
  {
    if calls != [] {
      RunOnlyAppends(AfterCall(t, calls[0]), calls[1..]);
    }
  }

  /** After a close, further closes of the item change neither its log nor its cycles nor its head. */
  lemma {:induction false} ClosingAgainChangesNothing(t: Tables, closes: seq<Call>)
    requires closes != [] && closes[0].Close?
    requires forall i :: 0 <= i < |closes| ==>
      closes[i].Close? && closes[i].id == closes[0].id && closes[i].organization == closes[0].organization
    ensures
      var once, often := AfterCall(t, closes[0]), Final(t, closes);
      often.transitions == once.transitions && often.cycles == once.cycles && often.heads == once.heads
    decreases |closes|
  {
    var once := AfterCall(t, closes[0]);
    if |closes| > 1 {
      assert closes[1..][0] == closes[1];
      ClosingAgainChangesNothing(once, closes[1..]);
    }
  }

  // ----- the rows in full

  /** What each call that takes effect writes, column by column. */
  lemma RowsInFull(t: Tables, call: Call)
    ensures call.Seed? ==>
      var after, review := AfterCall(t, call), call.source == Review;
      var reason := if review then "review_observed" else "feedback_submitted";
      && after.cycles == t.cycles + [Cycle(call.id, 1, reason, None, call.at)]
      && after.transitions == t.transitions
         + [Transition(call.id, 1, 1, Opening, reason, if review then "provider" else "guest", call.at)]
      && after.heads == t.heads[call.id := Head(call.organization, call.source, 1, 1, Open, call.at)]
      && after.items == t.items[call.id := Item(call.organization, Open, None, 1)]
    ensures call.Close? && Owned(t, call.organization, call.id) ==>
      var after, head, item := AfterCall(t, call), t.heads[call.id], t.items[call.id];
      && after.items == t.items[call.id := Item(item.organization, Closed, Some(call.at), item.commandRevision + 1)]
      && after.cycles == t.cycles
      && (head.status == Open ==>
            && after.transitions == t.transitions
               + [Transition(call.id, head.stateRevision + 1, head.cycle, Closing, call.reason, call.actor, call.at)]
            && after.heads == t.heads[call.id := Head(head.organization, head.source, head.cycle, head.stateRevision + 1, Closed, call.at)])
      && (head.status == Closed ==> after.transitions == t.transitions && after.heads == t.heads)
    ensures call.Reopen? && call.reason in REOPEN_REASONS && Owned(t, call.organization, call.id) && t.heads[call.id].source == Review ==>
      var after, head, item := AfterCall(t, call), t.heads[call.id], t.items[call.id];
      && after.items == t.items[call.id := Item(item.organization, Open, None, item.commandRevision + 1)]
      && after.cycles == t.cycles + [Cycle(call.id, head.cycle + 1, call.reason, Some(head.cycle), call.at)]
      && after.transitions == t.transitions
         + [Transition(call.id, head.stateRevision + 1, head.cycle + 1, Reopening, call.reason, "provider", call.at)]
      && after.heads == t.heads[call.id := Head(head.organization, head.source, head.cycle + 1, head.stateRevision + 1, Open, call.at)]
  {
    if call.Close? && Owned(t, call.organization, call.id) {
      assert t.cycles + [] == t.cycles;
    }
  }

  // ----- what an item row says of the calls made

  /** A close or an accepted reopening of an item by the organization that owns it. */
  ghost predicate Commands(t: Tables, call: Call, id: Id) {
    match call
    case Seed(_, _, _, _) => false
    case Close(organization, item, _, _, _) => item == id && id in t.items && t.items[id].organization == organization
    case Reopen(organization, item, _, _) =>
      item == id && id in t.items && t.items[id].organization == organization && id in t.heads && t.heads[id].source == Review
  }

  ghost function CommandCount(t: Tables, calls: seq<Call>, id: Id): nat
    decreases |calls|
  {
    if calls == [] then 0
    else (if Commands(t, calls[0], id) then 1 else 0) + CommandCount(AfterCall(t, calls[0]), calls[1..], id)
  }

  /** The last command on an item in a run. */
  ghost function LastCommand(t: Tables, calls: seq<Call>, id: Id): Option<Call>
    decreases |calls|
  {
    if calls == [] then None
    else
      var later := LastCommand(AfterCall(t, calls[0]), calls[1..], id);
      if later.Some? then later else if Commands(t, calls[0], id) then Some(calls[0]) else None
  }

  /** How a command, and only a command, changes the row of an existing item. */
  lemma CommandOnItem(t: Tables, call: Call, id: Id)
    requires Consistent(t) && Callable(t, call) && id in t.items
    ensures id in AfterCall(t, call).items
    ensures
      var item, after := t.items[id], AfterCall(t, call).items[id];
      if !Commands(t, call, id) then after == item
      else
        after == Item(item.organization, if call.Close? then Closed else Open,
                      if call.Close? then Some(call.at) else None, item.commandRevision + 1)
  {
    if !call.Seed? { OwnedTogether(t, call.id); }
    OwnedTogether(t, id);
    RowsInFull(t, call);
    hide Consistent;
  }

  /** A row later in a run, in terms of the commands since. */
  lemma {:induction false} ItemAfterCommands(t: Tables, calls: seq<Call>, id: Id)
    requires Consistent(t) && Runs(t, calls) && id in t.items
    ensures id in Final(t, calls).items
    ensures
      var item, end, last := t.items[id], Final(t, calls).items[id], LastCommand(t, calls, id);
      && end.organization == item.organization
      && end.commandRevision == item.commandRevision + CommandCount(t, calls, id)
      && (last.None? ==> end.status == item.status && end.closedAt == item.closedAt)
      && (last.Some? ==>
            && !last.value.Seed?
            && end.status == (if last.value.Close? then Closed else Open)
            && end.closedAt == if last.value.Close? then Some(last.value.at) else None)
    decreases |calls|
  {
    hide Consistent, AfterCall, Callable;
    if calls != [] {
      CommandOnItem(t, calls[0], id);
      CallKeeps(t, calls[0]);
      ItemAfterCommands(AfterCall(t, calls[0]), calls[1..], id);
      assert Commands(t, calls[0], id) ==> !calls[0].Seed?;
    }
  }

  const NO_ROWS := Tables([], [], map[], map[])

  lemma NothingSeeded()
    ensures Consistent(NO_ROWS)
  {
  }

  /** The same from a store in which the item is not seeded yet. */
  lemma {:induction false} ItemSinceSeeding(t: Tables, calls: seq<Call>, id: Id)
    requires Consistent(t) && Runs(t, calls) && id !in t.items && id in Final(t, calls).items
    ensures
      var end, last := Final(t, calls).items[id], LastCommand(t, calls, id);
      && end.commandRevision == 1 + CommandCount(t, calls, id)
      && (end.status == Closed <==> last.Some? && last.value.Close?)
      && end.closedAt == if last.Some? && last.value.Close? then Some(last.value.at) else None
    decreases |calls|
  {
    hide Consistent;
    var next := AfterCall(t, calls[0]);
    CallKeeps(t, calls[0]);
    OwnedTogether(t, id);
    if id in next.items {
      SeededByCall(t, calls[0], id);
      ItemAfterCommands(next, calls[1..], id);
    } else {
      ItemSinceSeeding(next, calls[1..], id);
    }
  }

  lemma SeededByCall(t: Tables, call: Call, id: Id)
    requires Consistent(t) && id !in t.items && id in AfterCall(t, call).items
    ensures AfterCall(t, call).items[id].status == Open && AfterCall(t, call).items[id].closedAt == None
    ensures AfterCall(t, call).items[id].commandRevision == 1
  {
    OwnedTogether(t, id);
  }

  /**
   After any run from empty tables a closed item carries the time of its last close and an open one none, and its
   command revision is one more than the closes and accepted reopenings that its organization made on it.
   */
  lemma ItemTellsItsCommands(calls: seq<Call>, id: Id)
    requires Runs(NO_ROWS, calls) && id in Final(NO_ROWS, calls).items
    ensures
      var item, last := Final(NO_ROWS, calls).items[id], LastCommand(NO_ROWS, calls, id);
      && item.commandRevision == 1 + CommandCount(NO_ROWS, calls, id)
      && (item.status == Closed <==> last.Some? && last.value.Close?)
      && item.closedAt == if last.Some? && last.value.Close? then Some(last.value.at) else None
  {
    NothingSeeded();
    ItemSinceSeeding(NO_ROWS, calls, id);
  }

  // ----- the store

  class InboxStore {
    var cycles: seq<Cycle>
    var transitions: seq<Transition>
    var heads: map<Id, Head>
    var items: map<Id, Item>

    ghost function Rows(): Tables
      reads this
    {
      Tables(cycles, transitions, heads, items)
    }

    ghost predicate Valid()
      reads this
    {
      Consistent(Rows())
    }

    constructor ()
      ensures Valid() && Rows() == NO_ROWS
    {
      cycles, transitions, heads, items := [], [], map[], map[];
    }

    /** Inserts a cycle unless a constraint refuses it; a refused statement throws and writes nothing. */
    method InsertCycle(cycle: Cycle, source: Source) returns (ok: bool)
      modifies this`cycles
      ensures
        var taken := exists i :: 0 <= i < |old(cycles)| && old(cycles)[i].item == cycle.item && old(cycles)[i].number == cycle.number;
        ok <==> !taken && ReasonAllowed(source, cycle.openedReason)
      ensures cycles == if ok then old(cycles) + [cycle] else old(cycles)
    {
      ok := !CycleExists(cycles, cycle.item, cycle.number) && ReasonAllowed(source, cycle.openedReason);
      if ok { cycles := cycles + [cycle]; }
    }

    method InsertTransition(t: Transition) returns (ok: bool)
      modifies this`transitions
      ensures
        ok <==> !exists i :: 0 <= i < |old(transitions)| && old(transitions)[i].item == t.item
                             && old(transitions)[i].stateRevision == t.stateRevision
      ensures transitions == if ok then old(transitions) + [t] else old(transitions)
    {
      ok := !TransitionExists(transitions, t.item, t.stateRevision);
      if ok { transitions := transitions + [t]; }
    }

    /** Seeds an item together with its first cycle, its head and its opening transition. */
    method SeedWithCycle(id: Id, organization: string, source: Source, openedAt: int) returns (ok: bool)
      requires Valid() && id !in items
      modifies this
      ensures Valid() && ok && Rows() == AfterCall(old(Rows()), Seed(id, organization, source, openedAt))
    {
      hide Consistent, LogOf, CyclesOf;
      SeedKeeps(Rows(), id, organization, source, openedAt);
      FirstKeysAreFree(Rows(), id);
      items := items[id := Item(organization, Open, None, 1)];
      ok := InsertCycle(Cycle(id, 1, OpeningReason(source), None, openedAt), source);
      if !ok { return; }
      heads := heads[id := SeededHead(organization, source, openedAt)];
      ok := InsertTransition(OpeningRow(id, source, openedAt));
    }

    /** Closes the open cycle of an item of the organization; a closed one keeps its log and its head. */
    method CloseBySourceAuthority(organization: string, id: Id, reason: string, actor: string, closedAt: int) returns (ok: bool)
      requires Valid()
      modifies this
      ensures Valid() && ok && Rows() == AfterCall(old(Rows()), Close(organization, id, reason, actor, closedAt))
    {
      hide Consistent, LogOf, CyclesOf, Projected;
      ok := true;
      OwnedTogether(Rows(), id);
      var open := id in heads && heads[id].organization == organization && heads[id].status == Open;
      if open {
        RevisionIsFree(Rows(), id);
        CloseKeeps(Rows(), id, reason, actor, closedAt);
        assert cycles + [] == cycles;
        ok := InsertTransition(ClosingRow(id, heads[id], reason, actor, closedAt));
        if !ok { return; }
        heads := heads[id := ClosedHead(heads[id], closedAt)];
      } else if id in heads && heads[id].organization == organization {
        CloseAgainKeeps(Rows(), id, closedAt);
      }
      if id in items && items[id].organization == organization {
        items := items[id := TouchedItem(items[id], Closed, Some(closedAt))];
      }
    }

    /** Opens a new numbered cycle; for a feedback item the first statement is refused and nothing changes. */
    method ReopenBySourceAuthority(organization: string, id: Id, reason: string, reopenedAt: int) returns (ok: bool)
      requires Valid()
      requires reason in REOPEN_REASONS
      modifies this
      ensures Valid() && Rows() == AfterCall(old(Rows()), Reopen(organization, id, reason, reopenedAt))
      ensures ok <==> !(Owned(old(Rows()), organization, id) && old(heads)[id].source == Feedback)
    {
      hide Consistent, LogOf, CyclesOf, Projected;
      ok := true;
      OwnedTogether(Rows(), id);
      if id in heads && heads[id].organization == organization {
        RevisionIsFree(Rows(), id);
        ReopenKeeps(Rows(), id, reason, reopenedAt);
        var head := heads[id];
        ok := InsertCycle(Cycle(id, head.cycle + 1, reason, Some(head.cycle), reopenedAt), head.source);
        if !ok { return; }
        ok := InsertTransition(ReopeningRow(id, head, reason, reopenedAt));
        if !ok { return; }
        heads := heads[id := ReopenedHead(head, reopenedAt)];
      }
      if id in items && items[id].organization == organization {
        items := items[id := TouchedItem(items[id], Open, None)];
      }
    }
  }

  lemma FirstKeysAreFree(t: Tables, id: Id)
    requires Consistent(t) && id !in t.items
    ensures !CycleExists(t.cycles, id, 1) && !TransitionExists(t.transitions, id, 1)
  {
    assert Unseeded(t, id);
    NextKeysAreFree(t, id);
  }

  lemma RevisionIsFree(t: Tables, id: Id)
    requires Consistent(t) && id in t.heads
    ensures !CycleExists(t.cycles, id, t.heads[id].cycle + 1) && !TransitionExists(t.transitions, id, t.heads[id].stateRevision + 1)
  {
    assert Seeded(t, id);
    ReplayCounts(LogOf(t.transitions, id));
    NextKeysAreFree(t, id);
  }

  /** A head and its item row belong to the same organization. */
  lemma OwnedTogether(t: Tables, id: Id)
    requires Consistent(t)
    ensures id in t.heads <==> id in t.items
    ensures id in t.heads ==> t.heads[id].organization == t.items[id].organization
  {
    assert Seeded(t, id) || Unseeded(t, id);
  }

  /** In consistent tables everything the head says can be counted off the log. */
  lemma HeadCountsTheLog(t: Tables, id: Id)
    requires Consistent(t) && id in t.heads
    ensures
      var log, head := LogOf(t.transitions, id), t.heads[id];
      && log != [] && head.stateRevision == |log| && head.cycle == Openings(log) == |CyclesOf(t.cycles, id)|
      && (head.status == Closed <==> log[|log| - 1].kind == Closing) && id in t.items && t.items[id].status == head.status
      && forall k :: 0 <= k < |log| ==> log[k].stateRevision == k + 1
  {
    assert Seeded(t, id);
    var log := LogOf(t.transitions, id);
    ReplayCounts(log);
    RevisionsCount(log);
  }
}
