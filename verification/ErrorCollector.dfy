/** The collector that is attached to a browser page: event handlers that share and change its state. */
module ErrorCollectors {
  import opened Wrappers
  import opened Texts
  import opened AbortMatching
  import opened ErrorGate

  // ----- how each part of the state follows the history

  /** The position of the first abort time still inside the window. */
  function FirstFreshTime(times: seq<int>, now: int): (k: nat)
    ensures k <= |times|
    ensures forall i :: 0 <= i < k ==> times[i] < now - NAVIGATION_ABORT_WINDOW_MS
    ensures k < |times| ==> times[k] >= now - NAVIGATION_ABORT_WINDOW_MS
  {
    if times == [] || times[0] >= now - NAVIGATION_ABORT_WINDOW_MS then 0 else 1 + FirstFreshTime(times[1..], now)
  }

  lemma FirstFreshTimeIs(times: seq<int>, now: int, k: nat)
    requires k <= |times|
    requires forall i :: 0 <= i < k ==> times[i] < now - NAVIGATION_ABORT_WINDOW_MS
    requires k < |times| ==> times[k] >= now - NAVIGATION_ABORT_WINDOW_MS
    ensures FirstFreshTime(times, now) == k
  {
  }

  lemma SpendMeaning(log: seq<Event>, e: Event)
    requires BeatOf(e).Echo?
    ensures
      var times := UnspentTimes(log);
      var k := FirstFreshTime(times, BeatOf(e).at);
      && (Suppressed(Beats(log + [e]), |log|) <==> k < |times|)
      && UnspentTimes(log + [e]) == if k == |times| then [] else times[k + 1..]
  {
    hide Unspent, FirstFresh, FirstFreshTime, BeatOf, Beats, QueueTimes;
    var beats, beat := Beats(log), BeatOf(e);
    var queue := Unspent(beats, |log|);
    BeatsAfter(log, e);
    UnspentOfPrefix(beats, [beat], |log|);
    FirstFreshOfPrefix(beats, [beat], queue, beat.at);
    assert QueueTimes(beats + [beat], queue) == QueueTimes(beats, queue);
    FirstFreshTimeIs(UnspentTimes(log), beat.at, FirstFresh(beats, queue, beat.at));
    AfterEcho(beats + [beat], |log|);
  }

  lemma BeatsAfter(log: seq<Event>, e: Event)
    ensures Beats(log + [e]) == Beats(log) + [BeatOf(e)]
  {
  }

  lemma AbortMeaning(log: seq<Event>, e: Event)
    requires !BeatOf(e).Echo?
    ensures UnspentTimes(log + [e]) == UnspentTimes(log) + if BeatOf(e).Abort? then [BeatOf(e).at] else []
  {
    hide BeatOf, QueueTimes;
    BeatsAfter(log, e);
    UnspentOfPrefix(Beats(log), [BeatOf(e)], |log|);
  }

  lemma KeysAfter(log: seq<Event>, e: Event)
    ensures
      DocumentKeys(log + [e])
      == DocumentKeys(log) + if DocumentKey(e).Some? then {DocumentKey(e).value} else {}
  {
    forall key: string
      ensures Answered(log + [e], key) <==> Answered(log, key) || DocumentKey(e) == Some(key)
    {
      AnsweredAfter(log, e, key);
    }
  }

  lemma DeliveredAfter(log: seq<Event>, e: Event)
    ensures DeliveredRequests(log + [e]) == DeliveredRequests(log) + if DeliversStream(e) then {e.request} else {}
  {
    var longer := log + [e];
    forall r: nat
      ensures Delivered(longer, r) <==> Delivered(log, r) || (DeliversStream(e) && e.request == r)
    {
      if Delivered(log, r) {
        var j :| 0 <= j < |log| && DeliversStream(log[j]) && log[j].request == r;
        assert DeliversStream(longer[j]);
      }
      if DeliversStream(e) && e.request == r {
        assert DeliversStream(longer[|log|]);
      }
    }
  }

  lemma ConflictsAfter(log: seq<Event>, e: Event)
    ensures
      Conflicts(log + [e])
      == if Succeeded(e) then RemoveKey(Conflicts(log), e.url)
         else if Conflicted(e) then Bump(Conflicts(log), e.url)
         else if e.Teardown? then []
         else Conflicts(log)
  {
  }

  lemma RemoveAbsent(pending: seq<(string, nat)>, url: string)
    requires !HasKey(pending, url)
    ensures RemoveKey(pending, url) == pending
  {
  }

  // ----- taking one detection out of the list

  /** Removing the only detection of an event by position is removing it by event. */
  lemma {:induction false} SpliceIsExcept(ds: seq<Detection>, i: nat)
    requires i < |ds|
    requires forall j :: 0 <= j < |ds| && j != i ==> ds[j].origin != ds[i].origin
    ensures Except(ds, {ds[i].origin}) == ds[..i] + ds[i + 1..]
  {
    assert ds == ds[..i] + ([ds[i]] + ds[i + 1..]);
    ExceptOfConcat(ds[..i], [ds[i]] + ds[i + 1..], {ds[i].origin});
    ExceptOfConcat([ds[i]], ds[i + 1..], {ds[i].origin});
    ExceptNone(ds[..i], {ds[i].origin});
    ExceptNone(ds[i + 1..], {ds[i].origin});
  }

  lemma {:induction false} ExceptTwice(ds: seq<Detection>, gone: set<nat>, more: set<nat>)
    ensures Except(Except(ds, gone), more) == Except(ds, gone + more)
  {
    if ds != [] {
      ExceptTwice(ds[1..], gone, more);
    }
  }

  /** Whether no two detections of the event exist. */
  ghost predicate Single(ds: seq<Detection>, origin: nat) {
    forall i, j :: 0 <= i < j < |ds| && ds[i].origin == origin ==> ds[j].origin != origin
  }

  lemma {:induction false} SingleAfterExcept(ds: seq<Detection>, gone: set<nat>, origin: nat)
    requires Single(ds, origin)
    ensures Single(Except(ds, gone), origin)
  {
    if ds != [] {
      var rest := Except(ds[1..], gone);
      SingleAfterExcept(ds[1..], gone, origin);
      if ds[0].origin !in gone && ds[0].origin == origin {
        forall j | 0 <= j < |rest|
          ensures rest[j].origin != origin
        {
          assert rest[j] in ds[1..];
          var l :| 0 <= l < |ds[1..]| && ds[1..][l] == rest[j];
          assert ds[l + 1] == rest[j];
        }
      }
    }
  }

  /** The identities that wait for a key. */
  ghost function WaitingFor(echoes: seq<(nat, string)>, key: string): set<nat> {
    set i | 0 <= i < |echoes| && echoes[i].1 == key :: echoes[i].0
  }

  function WithoutKey(echoes: seq<(nat, string)>, key: string): seq<(nat, string)> {
    if echoes == [] then []
    else
      var rest := WithoutKey(echoes[..|echoes| - 1], key);
      if echoes[|echoes| - 1].1 == key then rest else rest + [echoes[|echoes| - 1]]
  }

  lemma WaitingForStep(echoes: seq<(nat, string)>, i: nat, key: string)
    requires i < |echoes|
    ensures
      WaitingFor(echoes[..i + 1], key)
      == WaitingFor(echoes[..i], key) + if echoes[i].1 == key then {echoes[i].0} else {}
    ensures
      WithoutKey(echoes[..i + 1], key)
      == WithoutKey(echoes[..i], key) + if echoes[i].1 == key then [] else [echoes[i]]
  {
    var longer := echoes[..i + 1];
    assert longer[..i] == echoes[..i];
    assert WithoutKey(echoes[..i], key) + [] == WithoutKey(echoes[..i], key);
    assert forall j :: 0 <= j < i ==> longer[j] == echoes[j] == echoes[..i][j];
    if echoes[i].1 == key { assert longer[i].1 == key; }
  }

  /** On a reachable state, waiting for the key of an answer is being retired by it. */
  lemma RetireMeaning(allow: seq<AllowlistEntry>, log: seq<Event>, e: Event)
    requires DocumentKey(e).Some?
    ensures WaitingFor(Waiting(allow, log), DocumentKey(e).value) == RetiredBy(allow, log, e)
    ensures WithoutKey(Waiting(allow, log), DocumentKey(e).value) == ExceptWaiting(Waiting(allow, log), RetiredBy(allow, log, e))
  {
    var waiting, key := Waiting(allow, log), DocumentKey(e).value;
    WaitingMeaning(allow, log, |log|);
    forall k | k in RetiredBy(allow, log, e)
      ensures k in WaitingFor(waiting, key)
    {
      assert (k, key) in waiting;
    }
    WithoutIsExcept(waiting, key, RetiredBy(allow, log, e));
  }

  lemma {:induction false} WithoutIsExcept(waiting: seq<(nat, string)>, key: string, gone: set<nat>)
    requires forall i :: 0 <= i < |waiting| ==> (waiting[i].0 in gone <==> waiting[i].1 == key)
    ensures WithoutKey(waiting, key) == ExceptWaiting(waiting, gone)
  {
    if waiting != [] {
      var n := |waiting| - 1;
      WithoutIsExcept(waiting[..n], key, gone);
      assert waiting == waiting[..n] + [waiting[n]];
      ExceptWaitingOfConcat(waiting[..n], [waiting[n]], gone);
    }
  }

  /** Every waiting echo is the origin of one detection at most. */
  lemma WaitingAreSingle(allow: seq<AllowlistEntry>, log: seq<Event>, i: nat)
    requires i < |Waiting(allow, log)|
    ensures Single(Report(allow, log), Waiting(allow, log)[i].0)
  {
    var ds, origin := Report(allow, log), Waiting(allow, log)[i].0;
    WaitingMeaning(allow, log, |log|);
    forall j, l | 0 <= j < l < |ds| && ds[j].origin == origin
      ensures ds[l].origin != origin
    {
      OriginOnce(allow, log, j, l);
    }
  }

  // ----- one event on the state

  /** What the handlers share; `echoes` and `conflicts` keep the order in which their maps were filled. */
  datatype GateState = GateState(
    detections: seq<Detection>,
    aborts: seq<int>,
    delivered: set<nat>,
    documents: set<string>,
    echoes: seq<(nat, string)>,
    conflicts: seq<(string, nat)>,
    serial: nat)

  /** The state the gate specifies for a history. */
  ghost function Specified(allow: seq<AllowlistEntry>, log: seq<Event>): GateState {
    GateState(Report(allow, log), UnspentTimes(log), DeliveredRequests(log), DocumentKeys(log),
              Waiting(allow, log), Conflicts(log), |log|)
  }

  ghost function AddDetection(s: GateState, kind: DetectionKind, message: string, pageUrl: string, stack: Option<string>): GateState {
    s.(detections := s.detections + [Detection(s.serial, kind, message, pageUrl, stack)], serial := s.serial + 1)
  }

  ghost function Pass(s: GateState): GateState { s.(serial := s.serial + 1) }

  ghost function HandleConsole(allow: seq<AllowlistEntry>, s: GateState, e: Event): GateState
    requires e.Console?
  {
    if e.level != "error" then Pass(s)
    else
      var k := FirstFreshTime(s.aborts, e.at);
      var spends := IsFetchRejection(e.text) && k < |s.aborts|;
      var s' := if IsFetchRejection(e.text) then s.(aborts := if spends then s.aborts[k + 1..] else []) else s;
      if spends || Allowlisted(allow, ConsoleErrors, e.text, None, e.pageUrl, e.at) then Pass(s')
      else if EchoKey(e).None? then AddDetection(s', ConsoleErrors, e.text, e.pageUrl, None)
      else if EchoKey(e).value in s'.documents then Pass(s')
      else AddDetection(s'.(echoes := s'.echoes + [(s.serial, EchoKey(e).value)]), ConsoleErrors, e.text, e.pageUrl, None)
  }

  ghost function Retire(s: GateState, key: string): GateState {
    s.(documents := s.documents + {key},
       detections := Except(s.detections, WaitingFor(s.echoes, key)),
       echoes := WithoutKey(s.echoes, key))
  }

  ghost function HandleResponse(allow: seq<AllowlistEntry>, s: GateState, e: Event): GateState
    requires e.Response?
  {
    var s' := if DocumentKey(e).Some? then Retire(s, DocumentKey(e).value) else s;
    if !CriticalAnswer(e) then Pass(s')
    else if Succeeded(e) then
      Pass(s'.(conflicts := RemoveKey(s'.conflicts, e.url),
               delivered := s'.delivered + if DeliversStream(e) then {e.request} else {}))
    else if Conflicted(e) then Pass(s'.(conflicts := Bump(s'.conflicts, e.url)))
    else if Allowlisted(allow, MutationStatus, e.url, Some(e.status), e.pageUrl, e.at) then Pass(s')
    else AddDetection(s', MutationStatus, e.verb + " " + e.url + " → HTTP " + Decimal(e.status), e.pageUrl, None)
  }

  ghost function HandleFailure(s: GateState, e: Event): GateState
    requires e.RequestFailed?
  {
    if e.path.Some? && IsCriticalMutation(e.verb, e.path.value) then
      if e.request in s.delivered && Aborted(e) then Pass(s)
      else AddDetection(s, RequestFailures, FailureMessage(e), e.pageUrl, None)
    else if BeatOf(e).Abort? then Pass(s.(aborts := s.aborts + [e.at]))
    else Pass(s)
  }

  /** What handling one event does to the state. */
  ghost function Handle(allow: seq<AllowlistEntry>, s: GateState, e: Event): GateState {
    match e
    case PageError(message, stack, pageUrl, at) =>
      if Allowlisted(allow, PageErrors, message, None, pageUrl, at) then Pass(s)
      else AddDetection(s, PageErrors, message, pageUrl, stack)
    case Console(_, _, _, _, _) => HandleConsole(allow, s, e)
    case Response(_, _, _, _, _, _, _, _, _, _) => HandleResponse(allow, s, e)
    case RequestFailed(_, _, _, _, _, _, _) => HandleFailure(s, e)
    case Teardown(pageUrl) =>
      Pass(s.(detections := s.detections + ConflictDetections(s.serial, s.conflicts, pageUrl), conflicts := []))
  }

  /** How every part of the specified state follows from the event, aborts aside. */
  lemma SettleAll(allow: seq<AllowlistEntry>, log: seq<Event>, e: Event)
    ensures
      Report(allow, log + [e])
      == Except(Report(allow, log), RetiredBy(allow, log, e)) + Contribution(allow, log + [e], |log|)
    ensures
      var key := WaitingKey(allow, log + [e], |log|);
      Waiting(allow, log + [e])
      == ExceptWaiting(Waiting(allow, log), RetiredBy(allow, log, e)) + if key.Some? then [(|log|, key.value)] else []
    ensures DocumentKey(e).None? ==> Except(Report(allow, log), RetiredBy(allow, log, e)) == Report(allow, log)
    ensures DocumentKey(e).None? ==> ExceptWaiting(Waiting(allow, log), RetiredBy(allow, log, e)) == Waiting(allow, log)
    ensures
      DocumentKeys(log + [e])
      == DocumentKeys(log) + if DocumentKey(e).Some? then {DocumentKey(e).value} else {}
    ensures DeliveredRequests(log + [e]) == DeliveredRequests(log) + if DeliversStream(e) then {e.request} else {}
    ensures
      Conflicts(log + [e])
      == if Succeeded(e) then RemoveKey(Conflicts(log), e.url)
         else if Conflicted(e) then Bump(Conflicts(log), e.url)
         else if e.Teardown? then []
         else Conflicts(log)
  {
    ReportAfter(allow, log, e);
    if DocumentKey(e).None? {
      assert RetiredBy(allow, log, e) == {};
      ExceptNone(Report(allow, log), {});
      ExceptWaitingNone(Waiting(allow, log));
    }
    KeysAfter(log, e);
    DeliveredAfter(log, e);
    ConflictsAfter(log, e);
  }

  /** What a console event adds, in terms of the state that the collector holds when it arrives. */
  lemma ConsoleOutcome(allow: seq<AllowlistEntry>, log: seq<Event>, e: Event)
    requires e.Console?
    ensures
      var longer := log + [e];
      var spends := BeatOf(e).Echo? && FirstFreshTime(UnspentTimes(log), e.at) < |UnspentTimes(log)|;
      var stands := e.level == "error" && !spends && !Allowlisted(allow, ConsoleErrors, e.text, None, e.pageUrl, e.at);
      var waits := stands && EchoKey(e).Some? && EchoKey(e).value !in DocumentKeys(log);
      && WaitingKey(allow, longer, |log|) == (if waits then EchoKey(e) else None)
      && Contribution(allow, longer, |log|)
         == if waits || (stands && EchoKey(e).None?) then [Detection(|log|, ConsoleErrors, e.text, e.pageUrl, None)] else []
  {
    var longer := log + [e];
    assert longer[|log|] == e;
    if BeatOf(e).Echo? {
      SpendMeaning(log, e);
    } else {
      assert Beats(longer)[|log|] == BeatOf(e);
    }
    if EchoKey(e).Some? {
      AnsweredAfter(log, e, EchoKey(e).value);
    }
  }

  /** What any other event adds, in terms of the state that the collector holds when it arrives. */
  lemma PlainOutcome(allow: seq<AllowlistEntry>, log: seq<Event>, e: Event)
    requires !e.Console?
    ensures
      var longer, k, s := log + [e], |log|, Specified(allow, log);
      && WaitingKey(allow, longer, k) == None
      && Contribution(allow, longer, k) == match e
         case PageError(message, stack, pageUrl, at) =>
           if Allowlisted(allow, PageErrors, message, None, pageUrl, at) then []
           else [Detection(k, PageErrors, message, pageUrl, stack)]
         case Response(_, verb, url, _, status, _, _, _, pageUrl, at) =>
           if !CriticalAnswer(e) || Succeeded(e) || Conflicted(e)
              || Allowlisted(allow, MutationStatus, url, Some(status), pageUrl, at) then []
           else [Detection(k, MutationStatus, verb + " " + url + " → HTTP " + Decimal(status), pageUrl, None)]
         case RequestFailed(request, verb, _, path, _, pageUrl, _) =>
           if path.None? || !IsCriticalMutation(verb, path.value) || (request in s.delivered && Aborted(e)) then []
           else [Detection(k, RequestFailures, FailureMessage(e), pageUrl, None)]
         case Teardown(pageUrl) => ConflictDetections(k, s.conflicts, pageUrl)
  {
  }

  lemma ConsoleRefines(allow: seq<AllowlistEntry>, log: seq<Event>, e: Event)
    requires e.Console?
    ensures HandleConsole(allow, Specified(allow, log), e) == Specified(allow, log + [e])
  {
    hide Report, Contribution, Waiting, WaitingKey, Conflicts, UnspentTimes, FirstFreshTime, Suppressed, Allowlisted,
      Except, ExceptWaiting, LeadingDigits, DocumentKeys, DeliveredRequests, Beats;
    SettleAll(allow, log, e);
    ConsoleOutcome(allow, log, e);
    if BeatOf(e).Echo? {
      SpendMeaning(log, e);
    } else {
      AbortMeaning(log, e);
    }
  }

  lemma ResponseRefines(allow: seq<AllowlistEntry>, log: seq<Event>, e: Event)
    requires e.Response?
    ensures HandleResponse(allow, Specified(allow, log), e) == Specified(allow, log + [e])
  {
    hide Report, Contribution, Waiting, WaitingKey, Conflicts, UnspentTimes, Allowlisted, RemoveKey, Bump, Decimal,
      Except, ExceptWaiting, WaitingFor, WithoutKey, DocumentKeys, DeliveredRequests, Beats;
    SettleAll(allow, log, e);
    PlainOutcome(allow, log, e);
    AbortMeaning(log, e);
    if DocumentKey(e).Some? {
      RetireMeaning(allow, log, e);
    }
  }

  /** Handling one event takes the state specified for a history to the one of the longer history. */
  lemma HandleRefines(allow: seq<AllowlistEntry>, log: seq<Event>, e: Event)
    ensures Handle(allow, Specified(allow, log), e) == Specified(allow, log + [e])
  {
    hide Report, Contribution, Waiting, WaitingKey, Conflicts, UnspentTimes;
    if e.Console? {
      ConsoleRefines(allow, log, e);
    } else if e.Response? {
      ResponseRefines(allow, log, e);
    } else {
      SettleAll(allow, log, e);
      PlainOutcome(allow, log, e);
      AbortMeaning(log, e);
    }
  }

  ghost function Run(allow: seq<AllowlistEntry>, log: seq<Event>): GateState {
    if log == [] then GateState([], [], {}, {}, [], [], 0)
    else Handle(allow, Run(allow, log[..|log| - 1]), log[|log| - 1])
  }

  /** Over every run the handlers arrive at the state that the gate specifies for the whole history. */
  lemma {:induction false} RunMeetsTheGate(allow: seq<AllowlistEntry>, log: seq<Event>)
    ensures Run(allow, log) == Specified(allow, log)
  {
    hide Handle;
    if log != [] {
      var before := log[..|log| - 1];
      RunMeetsTheGate(allow, before);
      HandleRefines(allow, before, log[|log| - 1]);
      assert before + [log[|log| - 1]] == log;
    }
  }

  class ErrorCollector {
    const allowlist: seq<AllowlistEntry>
    var detections: seq<Detection>
    var unspentServerFnGetAborts: seq<int>
    var deliveredStreams: set<nat>
    var documentStatusKeys: set<string>
    var unmatchedStatusEchoes: seq<(nat, string)>
    var pendingConflicts: seq<(string, nat)>
    /** The number of events handled so far: the identity of the next detection. */
    var serial: nat
    ghost var log: seq<Event>

    ghost function State(): GateState
      reads this
    {
      GateState(detections, unspentServerFnGetAborts, deliveredStreams, documentStatusKeys, unmatchedStatusEchoes,
                pendingConflicts, serial)
    }

    /** The whole state is what the gate specifies for the events handled so far. */
    ghost predicate Valid()
      reads this
    {
      State() == Specified(allowlist, log)
    }

    constructor (allowlist: seq<AllowlistEntry>)
      ensures Valid() && log == [] && this.allowlist == allowlist
    {
      this.allowlist := allowlist;
      detections, unspentServerFnGetAborts, unmatchedStatusEchoes, pendingConflicts := [], [], [], [];
      deliveredStreams, documentStatusKeys := {}, {};
      serial, log := 0, [];
    }

    /** Records that an event was handled as specified. */
    ghost method Handled(e: Event)
      requires State() == Handle(allowlist, Specified(allowlist, log), e)
      modifies this`log
      ensures Valid() && log == old(log) + [e]
    {
      HandleRefines(allowlist, log, e);
      log := log + [e];
    }

    /** Spends the oldest abort still in the window; drops the stale ones before it. */
    method SpendServerFnGetAbort(now: int) returns (spent: bool)
      modifies this`unspentServerFnGetAborts
      ensures
        var times := old(unspentServerFnGetAborts);
        var k := FirstFreshTime(times, now);
        spent == (k < |times|) && unspentServerFnGetAborts == if spent then times[k + 1..] else []
    {
      var cutoff := now - NAVIGATION_ABORT_WINDOW_MS;
      var first := 0;
      while first < |unspentServerFnGetAborts| && unspentServerFnGetAborts[first] < cutoff
        invariant first <= |unspentServerFnGetAborts|
        invariant forall i :: 0 <= i < first ==> unspentServerFnGetAborts[i] < cutoff
      {
        first := first + 1;
      }
      FirstFreshTimeIs(unspentServerFnGetAborts, now, first);
      spent := first < |unspentServerFnGetAborts|;
      unspentServerFnGetAborts := if spent then unspentServerFnGetAborts[first + 1..] else [];
    }

    /** Takes the detection with this identity out of the list, when it is there. */
    method Splice(origin: nat)
      requires Single(detections, origin)
      modifies this`detections
      ensures detections == Except(old(detections), {origin})
    {
      var index := 0;
      while index < |detections| && detections[index].origin != origin
        invariant index <= |detections|
        invariant forall i :: 0 <= i < index ==> detections[i].origin != origin
      {
        index := index + 1;
      }
      if index == |detections| {
        ExceptNone(detections, {origin});
      } else {
        SpliceIsExcept(detections, index);
        detections := detections[..index] + detections[index + 1..];
      }
    }

    /** Makes a document status known and retires every echo that was waiting for it. */
    method RecordDocumentStatus(key: string)
      requires forall i :: 0 <= i < |unmatchedStatusEchoes| ==> Single(detections, unmatchedStatusEchoes[i].0)
      modifies this`documentStatusKeys, this`unmatchedStatusEchoes, this`detections
      ensures State() == Retire(old(State()), key)
    {
      documentStatusKeys := documentStatusKeys + {key};
      var echoes := unmatchedStatusEchoes;
      ghost var before := detections;
      ExceptNone(before, {});
      assert WaitingFor(echoes[..0], key) == {};
      var kept := [];
      var i := 0;
      while i < |echoes|
        invariant i <= |echoes|
        invariant documentStatusKeys == old(documentStatusKeys) + {key} && unmatchedStatusEchoes == echoes
        invariant detections == Except(before, WaitingFor(echoes[..i], key))
        invariant kept == WithoutKey(echoes[..i], key)
      {
        var (detection, echoKey) := echoes[i];
        WaitingForStep(echoes, i, key);
        ghost var gone := WaitingFor(echoes[..i], key);
        if echoKey == key {
          SingleAfterExcept(before, gone, detection);
          Splice(detection);
          ExceptTwice(before, gone, {detection});
        } else {
          assert WaitingFor(echoes[..i + 1], key) == gone;
          kept := kept + [echoes[i]];
        }
        i := i + 1;
      }
      assert echoes[..i] == echoes;
      unmatchedStatusEchoes := kept;
    }

    /** An uncaught exception is a detection unless a page-scoped allowlist entry covers it. */
    method OnPageError(message: string, stack: Option<string>, pageUrl: string, now: int)
      requires Valid()
      modifies this
      ensures Valid() && log == old(log) + [PageError(message, stack, pageUrl, now)]
    {
      var id := serial;
      serial := serial + 1;
      if !Allowlisted(allowlist, PageErrors, message, None, pageUrl, now) {
        detections := detections + [Detection(id, PageErrors, message, pageUrl, stack)];
      }
      Handled(PageError(message, stack, pageUrl, now));
    }

    /** A console error is a detection unless an abort, the allowlist or a document answer explains it. */
    method OnConsole(level: string, text: string, source: string, pageUrl: string, now: int)
      requires Valid()
      modifies this
      ensures Valid() && log == old(log) + [Console(level, text, source, pageUrl, now)]
    {
      ReportConsole(level, text, source, pageUrl, now);
      Handled(Console(level, text, source, pageUrl, now));
    }

    method ReportConsole(level: string, text: string, source: string, pageUrl: string, now: int)
      modifies this`detections, this`unspentServerFnGetAborts, this`unmatchedStatusEchoes, this`serial
      ensures State() == HandleConsole(allowlist, old(State()), Console(level, text, source, pageUrl, now))
    {
      var id := serial;
      serial := serial + 1;
      if level != "error" { return; }
      if IsFetchRejection(text) {
        var spent := SpendServerFnGetAbort(now);
        if spent { return; }
      }
      if Allowlisted(allowlist, ConsoleErrors, text, None, pageUrl, now) { return; }
      var statusEcho := EchoedStatus(text);
      if statusEcho.Some? && source != "" {
        var key := Key(statusEcho.value, source);
        if key in documentStatusKeys { return; }
        detections := detections + [Detection(id, ConsoleErrors, text, pageUrl, None)];
        unmatchedStatusEchoes := unmatchedStatusEchoes + [(id, key)];
        return;
      }
      detections := detections + [Detection(id, ConsoleErrors, text, pageUrl, None)];
    }

    /** A critical answer outside 2xx is a detection; a 409 waits for teardown, a document status is recorded. */
    method OnResponse(request: nat, verb: string, url: string, path: Option<string>, status: nat, navigation: bool,
                      mainFrame: bool, contentType: Option<string>, pageUrl: string, now: int)
      requires Valid()
      modifies this
      ensures Valid()
      ensures log == old(log) + [Response(request, verb, url, path, status, navigation, mainFrame, contentType, pageUrl, now)]
    {
      forall i | 0 <= i < |unmatchedStatusEchoes|
        ensures Single(detections, unmatchedStatusEchoes[i].0)
      {
        WaitingAreSingle(allowlist, log, i);
      }
      ReportResponse(request, verb, url, path, status, navigation, mainFrame, contentType, pageUrl, now);
      Handled(Response(request, verb, url, path, status, navigation, mainFrame, contentType, pageUrl, now));
    }

    method ReportResponse(request: nat, verb: string, url: string, path: Option<string>, status: nat, navigation: bool,
                          mainFrame: bool, contentType: Option<string>, pageUrl: string, now: int)
      requires forall i :: 0 <= i < |unmatchedStatusEchoes| ==> Single(detections, unmatchedStatusEchoes[i].0)
      modifies this`detections, this`documentStatusKeys, this`unmatchedStatusEchoes, this`pendingConflicts,
               this`deliveredStreams, this`serial
      ensures
        var e := Response(request, verb, url, path, status, navigation, mainFrame, contentType, pageUrl, now);
        State() == HandleResponse(allowlist, old(State()), e)
    {
      hide Bump, HasKey, Includes, Except, WaitingFor, WithoutKey, Decimal;
      var id := serial;
      serial := serial + 1;
      if path.None? { return; }
      if status >= 400 && navigation && mainFrame {
        RecordDocumentStatus(Key(Decimal(status), url));
      }
      if !IsCriticalMutation(verb, path.value) { return; }
      if 200 <= status < 300 {
        if HasKey(pendingConflicts, url) {
          pendingConflicts := RemoveKey(pendingConflicts, url);
        } else {
          RemoveAbsent(pendingConflicts, url);
        }
        if contentType.Some? && Includes(contentType.value, STREAM_CONTENT_TYPE) {
          deliveredStreams := deliveredStreams + {request};
        }
        return;
      }
      if status == 409 {
        pendingConflicts := Bump(pendingConflicts, url);
        return;
      }
      if Allowlisted(allowlist, MutationStatus, url, Some(status), pageUrl, now) { return; }
      detections := detections + [Detection(id, MutationStatus, verb + " " + url + " → HTTP " + Decimal(status), pageUrl, None)];
    }

    /** A failed critical mutation is a detection unless its stream was delivered; a read's abort is kept. */
    method OnRequestFailed(request: nat, verb: string, url: string, path: Option<string>, errorText: Option<string>,
                           pageUrl: string, now: int)
      requires Valid()
      modifies this
      ensures Valid() && log == old(log) + [RequestFailed(request, verb, url, path, errorText, pageUrl, now)]
    {
      ReportFailure(request, verb, url, path, errorText, pageUrl, now);
      Handled(RequestFailed(request, verb, url, path, errorText, pageUrl, now));
    }

    method ReportFailure(request: nat, verb: string, url: string, path: Option<string>, errorText: Option<string>,
                         pageUrl: string, now: int)
      modifies this`detections, this`unspentServerFnGetAborts, this`serial
      ensures State() == HandleFailure(old(State()), RequestFailed(request, verb, url, path, errorText, pageUrl, now))
    {
      hide Includes;
      var id := serial;
      serial := serial + 1;
      if path.None? { return; }
      var aborted := errorText.Some? && Includes(errorText.value, "ERR_ABORTED");
      if IsCriticalMutation(verb, path.value) {
        if request in deliveredStreams && aborted { return; }
        var reason := if errorText.Some? then errorText.value else "unknown";
        detections := detections + [Detection(id, RequestFailures, verb + " " + url + " failed at network level: " + reason, pageUrl, None)];
        return;
      }
      if verb == "GET" && SERVER_FN_PATH_PREFIX <= path.value && aborted {
        unspentServerFnGetAborts := unspentServerFnGetAborts + [now];
      }
    }

    /** Turns every pending conflict into a detection. */
    method ReportConflicts(pageUrl: string)
      modifies this`detections, this`pendingConflicts, this`serial
      ensures State() == Handle(allowlist, old(State()), Teardown(pageUrl))
    {
      var i := 0;
      ghost var before := detections;
      while i < |pendingConflicts|
        invariant i <= |pendingConflicts|
        invariant State() == old(State()).(detections := detections)
        invariant detections == before + ConflictDetections(serial, pendingConflicts[..i], pageUrl)
      {
        assert pendingConflicts[..i + 1] == pendingConflicts[..i] + [pendingConflicts[i]];
        detections := detections + [ConflictDetection(serial, pendingConflicts[i].0, pageUrl)];
        i := i + 1;
      }
      assert pendingConflicts[..i] == pendingConflicts;
      pendingConflicts := [];
      serial := serial + 1;
    }

    /** Reports the pending conflicts and fails when anything at all was detected. */
    method AssertEmpty(pageUrl: string) returns (passes: bool)
      requires Valid()
      modifies this
      ensures Valid() && log == old(log) + [Teardown(pageUrl)]
      ensures passes <==> Report(allowlist, log) == []
    {
      ReportConflicts(pageUrl);
      Handled(Teardown(pageUrl));
      passes := detections == [];
    }
  }
}
