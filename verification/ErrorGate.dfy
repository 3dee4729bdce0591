/**
 What the browser error gate must report, stated on the whole history of browser events. Nothing
 here is incremental: an event is judged against everything the collector saw, before or after it.
 */
module ErrorGate {
  import opened Wrappers
  import opened Texts
  import opened AbortMatching

  datatype DetectionKind = PageErrors | ConsoleErrors | MutationStatus | RequestFailures

  /** `origin` is the event that raised the detection; it stands for the identity of the object. */
  datatype Detection = Detection(origin: nat, kind: DetectionKind, message: string, pageUrl: string, stack: Option<string>)

  /** Patterns are kept as the tests they perform; `expiresAt` is None when the date does not parse. */
  datatype AllowlistEntry = AllowlistEntry(
    kind: DetectionKind,
    matches: string -> bool,
    matchesPage: Option<string -> bool>,
    matchesStatus: Option<nat -> bool>,
    expiresAt: Option<int>)

  /**
   One browser event as its handler sees it. `at` is the clock and `pageUrl` the page address at
   that moment, `path` the parsed path of the url when it parses, `request` the identity of the
   request object, `source` the console location (empty when there is none).
   */
  datatype Event =
    | PageError(message: string, stack: Option<string>, pageUrl: string, at: int)
    | Console(level: string, text: string, source: string, pageUrl: string, at: int)
    | Response(request: nat, verb: string, url: string, path: Option<string>, status: nat, navigation: bool,
               mainFrame: bool, contentType: Option<string>, pageUrl: string, at: int)
    | RequestFailed(request: nat, verb: string, url: string, path: Option<string>, errorText: Option<string>,
                    pageUrl: string, at: int)
    | Teardown(pageUrl: string)

  const SERVER_FN_PATH_PREFIX := "/_server"
  const STREAM_CONTENT_TYPE := "application/x-ndjson"
  const STATUS_ECHO := "Failed to load resource: the server responded with a status of "
  const FETCH_REJECTION := "TypeError: Failed to fetch"

  // ----- classifying one event

  predicate EntryMatches(entry: AllowlistEntry, kind: DetectionKind, text: string, status: Option<nat>, pageUrl: string, now: int) {
    && entry.kind == kind
    && entry.expiresAt.Some? && now <= entry.expiresAt.value
    && (kind == PageErrors ==> entry.matchesPage.Some?)
    && (entry.matchesPage.Some? ==> entry.matchesPage.value(pageUrl))
    && entry.matches(text)
    && (kind == MutationStatus ==> entry.matchesStatus.Some? && status.Some? && entry.matchesStatus.value(status.value))
  }

  predicate Allowlisted(allow: seq<AllowlistEntry>, kind: DetectionKind, text: string, status: Option<nat>, pageUrl: string, now: int) {
    exists i :: 0 <= i < |allow| && EntryMatches(allow[i], kind, text, status, pageUrl, now)
  }

  predicate IsCriticalMutation(verb: string, path: string) {
    || (verb == "POST" && SERVER_FN_PATH_PREFIX <= path)
    || (verb in ["POST", "PUT", "PATCH", "DELETE"] && "/api/auth/" <= path)
  }

  predicate IsFetchRejection(text: string) {
    && FETCH_REJECTION <= text
    && (|text| == |FETCH_REJECTION| || !IsWordChar(text[|FETCH_REJECTION|]))
  }

  /** The status a browser network-log line names, as it is written there. */
  function EchoedStatus(text: string): (digits: Option<string>)
    ensures digits.Some? ==> AllDigits(digits.value)
  {
    if STATUS_ECHO <= text && LeadingDigits(text[|STATUS_ECHO|..]) != "" then
      Some(LeadingDigits(text[|STATUS_ECHO|..]))
    else None
  }

  function Key(status: string, url: string): string {
    status + " " + url
  }

  /** A key keeps the status and the address apart. */
  lemma KeyIsInjective(status: string, url: string, status': string, url': string)
    requires AllDigits(status) && AllDigits(status')
    ensures Key(status, url) == Key(status', url') <==> status == status' && url == url'
  {
    var k, k' := Key(status, url), Key(status', url');
    if k == k' {
      assert k[|status|] == ' ' && k'[|status'|] == ' ';
      assert forall i :: 0 <= i < |status| ==> k[i] == status[i];
      assert forall i :: 0 <= i < |status'| ==> k'[i] == status'[i];
      assert status == k[..|status|] && url == k[|status| + 1..];
      assert status' == k'[..|status'|] && url' == k'[|status'| + 1..];
    }
  }

  /** The (status, url) key a failing main-frame document answer makes known. */
  function DocumentKey(e: Event): Option<string> {
    if e.Response? && e.path.Some? && e.status >= 400 && e.navigation && e.mainFrame then
      Some(Key(Decimal(e.status), e.url))
    else None
  }

  /** The key a console status echo waits for. */
  function EchoKey(e: Event): Option<string> {
    if e.Console? && EchoedStatus(e.text).Some? && e.source != "" then
      Some(Key(EchoedStatus(e.text).value, e.source))
    else None
  }

  predicate CriticalAnswer(e: Event) {
    e.Response? && e.path.Some? && IsCriticalMutation(e.verb, e.path.value)
  }

  predicate Succeeded(e: Event) { CriticalAnswer(e) && 200 <= e.status < 300 }

  predicate Conflicted(e: Event) { CriticalAnswer(e) && e.status == 409 }

  predicate DeliversStream(e: Event) {
    Succeeded(e) && e.contentType.Some? && Includes(e.contentType.value, STREAM_CONTENT_TYPE)
  }

  predicate Aborted(e: Event)
    requires e.RequestFailed?
  {
    e.errorText.Some? && Includes(e.errorText.value, "ERR_ABORTED")
  }

  /** The part the event plays in the navigation-abort correlation. */
  function BeatOf(e: Event): Beat {
    match e
    case Console(level, text, _, _, at) => if level == "error" && IsFetchRejection(text) then Echo(at) else Other
    case RequestFailed(_, verb, _, path, _, _, at) =>
      if path.Some? && !IsCriticalMutation(verb, path.value) && verb == "GET"
         && SERVER_FN_PATH_PREFIX <= path.value && Aborted(e)
      then AbortMatching.Abort(at) else Other
    case _ => Other
  }

  function Beats(log: seq<Event>): (beats: seq<Beat>)
    ensures |beats| == |log|
  {
    seq(|log|, i requires 0 <= i < |log| => BeatOf(log[i]))
  }

  /** A status echo is never a fetch rejection, so it never spends an abort. */
  lemma EchoKindsAreDisjoint(text: string)
    ensures !(IsFetchRejection(text) && EchoedStatus(text).Some?)
  {
  }

  // ----- what the history answers

  /** Some failing main-frame document answer carried this key, before or after the echo. */
  ghost predicate Answered(log: seq<Event>, key: string) {
    exists j :: 0 <= j < |log| && DocumentKey(log[j]) == Some(key)
  }

  ghost predicate Delivered(log: seq<Event>, request: nat) {
    exists j :: 0 <= j < |log| && DeliversStream(log[j]) && log[j].request == request
  }

  /** The last 2xx or 409 critical answer for the url since the last teardown was a 409. */
  ghost predicate ConflictStands(log: seq<Event>, url: string) {
    exists j :: 0 <= j < |log| && Conflicted(log[j]) && log[j].url == url
      && forall l :: j < l < |log| ==> !log[l].Teardown? && !(Succeeded(log[l]) && log[l].url == url)
  }

  function RemoveKey(pending: seq<(string, nat)>, url: string): seq<(string, nat)> {
    if pending == [] then []
    else if pending[0].0 == url then RemoveKey(pending[1..], url)
    else [pending[0]] + RemoveKey(pending[1..], url)
  }

  /** A map entry set in place, or appended when the key is new: JavaScript's `Map.set`. */
  function Bump(pending: seq<(string, nat)>, url: string): seq<(string, nat)> {
    if pending == [] then [(url, 1)]
    else if pending[0].0 == url then [(url, pending[0].1 + 1)] + pending[1..]
    else [pending[0]] + Bump(pending[1..], url)
  }

  /** The conflicts still waiting for a success, in the order of their first 409. */
  ghost function Conflicts(log: seq<Event>): seq<(string, nat)> {
    if log == [] then []
    else
      var pending, e := Conflicts(log[..|log| - 1]), log[|log| - 1];
      if Succeeded(e) then RemoveKey(pending, e.url)
      else if Conflicted(e) then Bump(pending, e.url)
      else if e.Teardown? then []
      else pending
  }

  predicate HasKey(pending: seq<(string, nat)>, url: string) {
    exists i :: 0 <= i < |pending| && pending[i].0 == url
  }

  predicate DistinctKeys(pending: seq<(string, nat)>) {
    forall i, j :: 0 <= i < j < |pending| ==> pending[i].0 != pending[j].0
  }

  lemma {:induction false} RemoveKeyMeaning(pending: seq<(string, nat)>, url: string, other: string)
    ensures HasKey(RemoveKey(pending, url), other) <==> other != url && HasKey(pending, other)
    ensures DistinctKeys(pending) ==> DistinctKeys(RemoveKey(pending, url))
  {
    if pending != [] {
      var head, tail := pending[0], pending[1..];
      assert pending == [head] + tail;
      RemoveKeyMeaning(tail, url, other);
      RemoveKeyMeaning(tail, url, head.0);
      HasKeyOfCons(head, tail, other);
      HasKeyOfCons(head, RemoveKey(tail, url), other);
      if DistinctKeys(pending) {
        assert DistinctKeys(tail);
        if HasKey(tail, head.0) { assert false; }
      }
    }
  }

  lemma HasKeyOfCons(head: (string, nat), tail: seq<(string, nat)>, url: string)
    ensures HasKey([head] + tail, url) <==> head.0 == url || HasKey(tail, url)
  {
    var all := [head] + tail;
    if HasKey(tail, url) {
      var i :| 0 <= i < |tail| && tail[i].0 == url;
      assert all[i + 1].0 == url;
    }
    if head.0 == url { assert all[0].0 == url; }
  }

  lemma {:induction false} BumpMeaning(pending: seq<(string, nat)>, url: string, other: string)
    ensures HasKey(Bump(pending, url), other) <==> other == url || HasKey(pending, other)
    ensures DistinctKeys(pending) ==> DistinctKeys(Bump(pending, url))
  {
    if pending == [] {
      HasKeyOfCons((url, 1), [], other);
    } else {
      var head, tail := pending[0], pending[1..];
      assert pending == [head] + tail;
      HasKeyOfCons(head, tail, other);
      HasKeyOfCons((url, head.1 + 1), tail, other);
      HasKeyOfCons(head, Bump(tail, url), other);
      if head.0 != url {
        BumpMeaning(tail, url, other);
        BumpMeaning(tail, url, head.0);
        if DistinctKeys(pending) && HasKey(tail, head.0) { assert false; }
      }
    }
  }

  /** One pending conflict per url, exactly when the last answer that counts for the url was a 409. */
  lemma {:induction false} ConflictsMeaning(log: seq<Event>, url: string)
    ensures DistinctKeys(Conflicts(log))
    ensures HasKey(Conflicts(log), url) <==> ConflictStands(log, url)
  {
    if log != [] {
      var before, e := log[..|log| - 1], log[|log| - 1];
      ConflictsMeaning(before, url);
      if Succeeded(e) {
        RemoveKeyMeaning(Conflicts(before), e.url, url);
      } else if Conflicted(e) {
        BumpMeaning(Conflicts(before), e.url, url);
      }
      ConflictStandsStep(log, url);
    }
  }

  lemma ConflictStandsStep(log: seq<Event>, url: string)
    requires log != []
    ensures
      var e := log[|log| - 1];
      ConflictStands(log, url) <==>
        || (Conflicted(e) && e.url == url)
        || (ConflictStands(log[..|log| - 1], url) && !e.Teardown? && !(Succeeded(e) && e.url == url))
  {
  }

  // ----- the report

  /** A console error that neither an observed abort nor the allowlist explains. */
  ghost predicate ConsoleErrorStands(allow: seq<AllowlistEntry>, log: seq<Event>, k: nat)
    requires k < |log|
  {
    && log[k].Console? && log[k].level == "error"
    && !Suppressed(Beats(log), k)
    && !Allowlisted(allow, ConsoleErrors, log[k].text, None, log[k].pageUrl, log[k].at)
  }

  /** The key under which event `k` is still waiting for its document answer. */
  ghost function WaitingKey(allow: seq<AllowlistEntry>, log: seq<Event>, k: nat): Option<string>
    requires k < |log|
  {
    if ConsoleErrorStands(allow, log, k) && EchoKey(log[k]).Some? && !Answered(log, EchoKey(log[k]).value) then
      EchoKey(log[k])
    else None
  }

  function FailureMessage(e: Event): string
    requires e.RequestFailed?
  {
    e.verb + " " + e.url + " failed at network level: " + if e.errorText.Some? then e.errorText.value else "unknown"
  }

  function ConflictDetection(origin: nat, url: string, pageUrl: string): Detection {
    Detection(origin, MutationStatus, "POST " + url + " → HTTP 409 with no successful retry", pageUrl, None)
  }

  ghost function ConflictDetections(origin: nat, pending: seq<(string, nat)>, pageUrl: string): (ds: seq<Detection>)
    ensures |ds| == |pending|
  {
    seq(|pending|, i requires 0 <= i < |pending| =>
      ConflictDetection(origin, pending[i].0, pageUrl))
  }

  /** The detections event `k` accounts for, given everything that was ever observed. */
  ghost function Contribution(allow: seq<AllowlistEntry>, log: seq<Event>, k: nat): seq<Detection>
    requires k < |log|
  {
    match log[k]
    case PageError(message, stack, pageUrl, at) =>
      if Allowlisted(allow, PageErrors, message, None, pageUrl, at) then []
      else [Detection(k, PageErrors, message, pageUrl, stack)]
    case Console(_, text, _, pageUrl, _) =>
      if ConsoleErrorStands(allow, log, k) && (EchoKey(log[k]).Some? ==> !Answered(log, EchoKey(log[k]).value)) then
        [Detection(k, ConsoleErrors, text, pageUrl, None)]
      else []
    case Response(_, verb, url, _, status, _, _, _, pageUrl, at) =>
      if CriticalAnswer(log[k]) && !Succeeded(log[k]) && !Conflicted(log[k])
         && !Allowlisted(allow, MutationStatus, url, Some(status), pageUrl, at) then
        [Detection(k, MutationStatus, verb + " " + url + " → HTTP " + Decimal(status), pageUrl, None)]
      else []
    case RequestFailed(request, verb, url, path, errorText, pageUrl, _) =>
      if path.Some? && IsCriticalMutation(verb, path.value)
         && !(Delivered(log[..k], request) && Aborted(log[k])) then
        [Detection(k, RequestFailures, FailureMessage(log[k]), pageUrl, None)]
      else []
    case Teardown(pageUrl) => ConflictDetections(k, Conflicts(log[..k]), pageUrl)
  }

  ghost function Contributions(allow: seq<AllowlistEntry>, log: seq<Event>): (parts: seq<seq<Detection>>)
    ensures |parts| == |log|
    ensures forall k :: 0 <= k < |log| ==> parts[k] == Contribution(allow, log, k)
  {
    seq(|log|, k requires 0 <= k < |log| => Contribution(allow, log, k))
  }

  ghost function Flat(parts: seq<seq<Detection>>): seq<Detection> {
    if parts == [] then [] else Flat(parts[..|parts| - 1]) + parts[|parts| - 1]
  }

  ghost function WaitingOf(allow: seq<AllowlistEntry>, log: seq<Event>, n: nat): seq<(nat, string)>
    requires n <= |log|
  {
    if n == 0 then []
    else
      var waiting, key := WaitingOf(allow, log, n - 1), WaitingKey(allow, log, n - 1);
      if key.Some? then waiting + [(n - 1, key.value)] else waiting
  }

  /** Everything the gate holds against the page after the whole history. */
  ghost function Report(allow: seq<AllowlistEntry>, log: seq<Event>): seq<Detection> {
    Flat(Contributions(allow, log))
  }

  /** The status echoes, by event, that no document answer has explained yet. */
  ghost function Waiting(allow: seq<AllowlistEntry>, log: seq<Event>): seq<(nat, string)> {
    WaitingOf(allow, log, |log|)
  }

  ghost function DocumentKeys(log: seq<Event>): (keys: set<string>)
    ensures forall key :: key in keys <==> Answered(log, key)
  {
    set j | 0 <= j < |log| && DocumentKey(log[j]).Some? :: DocumentKey(log[j]).value
  }

  ghost function DeliveredRequests(log: seq<Event>): (requests: set<nat>)
    ensures forall r :: r in requests <==> Delivered(log, r)
  {
    set j | 0 <= j < |log| && DeliversStream(log[j]) :: log[j].request
  }

  ghost function QueueTimes(beats: seq<Beat>, queue: seq<nat>): (times: seq<int>)
    requires forall i :: 0 <= i < |queue| ==> queue[i] < |beats| && beats[queue[i]].Abort?
    ensures |times| == |queue|
    ensures forall i :: 0 <= i < |queue| ==> times[i] == beats[queue[i]].at
  {
    seq(|queue|, i requires 0 <= i < |queue| => beats[queue[i]].at)
  }

  /** When the aborts happened that the collector still holds. */
  ghost function UnspentTimes(log: seq<Event>): seq<int> {
    QueueTimes(Beats(log), Unspent(Beats(log), |log|))
  }

  // ----- one more event

  lemma {:induction false} UnspentOfPrefix(beats: seq<Beat>, more: seq<Beat>, n: nat)
    requires n <= |beats|
    ensures Unspent(beats + more, n) == Unspent(beats, n)
  {
    if n > 0 {
      UnspentOfPrefix(beats, more, n - 1);
      assert (beats + more)[n - 1] == beats[n - 1];
      if beats[n - 1].Echo? {
        FirstFreshOfPrefix(beats, more, Unspent(beats, n - 1), beats[n - 1].at);
      }
    }
  }

  lemma {:induction false} FirstFreshOfPrefix(beats: seq<Beat>, more: seq<Beat>, queue: seq<nat>, now: int)
    requires forall i :: 0 <= i < |queue| ==> queue[i] < |beats| && beats[queue[i]].Abort?
    ensures forall i :: 0 <= i < |queue| ==> (beats + more)[queue[i]] == beats[queue[i]]
    ensures FirstFresh(beats + more, queue, now) == FirstFresh(beats, queue, now)
  {
  }

  lemma SuppressedOfPrefix(log: seq<Event>, e: Event, k: nat)
    requires k < |log|
    ensures Suppressed(Beats(log + [e]), k) <==> Suppressed(Beats(log), k)
  {
    var beats := Beats(log);
    assert Beats(log + [e]) == beats + [BeatOf(e)];
    UnspentOfPrefix(beats, [BeatOf(e)], k);
    if beats[k].Echo? {
      FirstFreshOfPrefix(beats, [BeatOf(e)], Unspent(beats, k), beats[k].at);
    }
  }

  lemma AnsweredAfter(log: seq<Event>, e: Event, key: string)
    ensures Answered(log + [e], key) <==> Answered(log, key) || DocumentKey(e) == Some(key)
  {
    var longer := log + [e];
    if Answered(log, key) {
      var j :| 0 <= j < |log| && DocumentKey(log[j]) == Some(key);
      assert DocumentKey(longer[j]) == Some(key);
    }
    if DocumentKey(e) == Some(key) {
      assert DocumentKey(longer[|log|]) == Some(key);
    }
  }

  /** A later event changes what an earlier one accounts for only by answering its status echo. */
  lemma ContributionAfter(allow: seq<AllowlistEntry>, log: seq<Event>, e: Event, k: nat)
    requires k < |log|
    ensures
      Contribution(allow, log + [e], k)
      == if WaitingKey(allow, log, k).Some? && WaitingKey(allow, log, k) == DocumentKey(e) then []
         else Contribution(allow, log, k)
    ensures
      WaitingKey(allow, log + [e], k)
      == if WaitingKey(allow, log, k) == DocumentKey(e) then None else WaitingKey(allow, log, k)
  {
    assert (log + [e])[k] == log[k] && (log + [e])[..k] == log[..k];
    if log[k].Console? {
      SuppressedOfPrefix(log, e, k);
      if EchoKey(log[k]).Some? {
        AnsweredAfter(log, e, EchoKey(log[k]).value);
      }
    }
  }

  /** The echoes that a document answer retires. */
  ghost function RetiredBy(allow: seq<AllowlistEntry>, log: seq<Event>, e: Event): set<nat> {
    set k | 0 <= k < |log| && WaitingKey(allow, log, k).Some? && WaitingKey(allow, log, k) == DocumentKey(e)
  }

  /** The detections whose event is not in `gone`, in order. */
  ghost function Except(ds: seq<Detection>, gone: set<nat>): (rest: seq<Detection>)
    ensures forall d :: d in rest ==> d in ds
  {
    if ds == [] then []
    else if ds[0].origin in gone then Except(ds[1..], gone)
    else [ds[0]] + Except(ds[1..], gone)
  }

  ghost function ExceptWaiting(ws: seq<(nat, string)>, gone: set<nat>): seq<(nat, string)> {
    if ws == [] then []
    else if ws[0].0 in gone then ExceptWaiting(ws[1..], gone)
    else [ws[0]] + ExceptWaiting(ws[1..], gone)
  }

  lemma {:induction false} ExceptOfConcat(ds: seq<Detection>, es: seq<Detection>, gone: set<nat>)
    ensures Except(ds + es, gone) == Except(ds, gone) + Except(es, gone)
  {
    if ds == [] {
      assert ds + es == es;
    } else {
      assert (ds + es)[1..] == ds[1..] + es;
      ExceptOfConcat(ds[1..], es, gone);
    }
  }

  lemma {:induction false} ExceptWaitingOfConcat(ws: seq<(nat, string)>, vs: seq<(nat, string)>, gone: set<nat>)
    ensures ExceptWaiting(ws + vs, gone) == ExceptWaiting(ws, gone) + ExceptWaiting(vs, gone)
  {
    if ws == [] {
      assert ws + vs == vs;
    } else {
      assert (ws + vs)[1..] == ws[1..] + vs;
      ExceptWaitingOfConcat(ws[1..], vs, gone);
    }
  }

  lemma ExceptWaitingOfOne(k: nat, key: string, gone: set<nat>)
    ensures ExceptWaiting([(k, key)], gone) == if k in gone then [] else [(k, key)]
  {
    assert [(k, key)] + ExceptWaiting([], gone) == [(k, key)];
  }

  lemma {:induction false} ExceptNone(ds: seq<Detection>, gone: set<nat>)
    requires forall i :: 0 <= i < |ds| ==> ds[i].origin !in gone
    ensures Except(ds, gone) == ds
  {
    if ds != [] {
      ExceptNone(ds[1..], gone);
    }
  }

  lemma ContributionOrigin(allow: seq<AllowlistEntry>, log: seq<Event>, k: nat)
    requires k < |log|
    ensures forall d :: d in Contribution(allow, log, k) ==> d.origin == k
    ensures !log[k].Teardown? ==> |Contribution(allow, log, k)| <= 1
  {
  }

  lemma {:induction false} ExceptOfFlat(parts: seq<seq<Detection>>, rest: seq<seq<Detection>>, gone: set<nat>)
    requires |rest| == |parts|
    requires forall k :: 0 <= k < |parts| ==> rest[k] == Except(parts[k], gone)
    ensures Flat(rest) == Except(Flat(parts), gone)
  {
    if parts != [] {
      var k := |parts| - 1;
      ExceptOfFlat(parts[..k], rest[..k], gone);
      ExceptOfConcat(Flat(parts[..k]), parts[k], gone);
    }
  }

  lemma RetiredContribution(allow: seq<AllowlistEntry>, log: seq<Event>, e: Event, k: nat)
    requires k < |log|
    ensures Contribution(allow, log + [e], k) == Except(Contribution(allow, log, k), RetiredBy(allow, log, e))
  {
    ContributionAfter(allow, log, e, k);
    ContributionOrigin(allow, log, k);
    if k !in RetiredBy(allow, log, e) {
      ExceptNone(Contribution(allow, log, k), RetiredBy(allow, log, e));
    }
  }

  lemma WaitingOfNext(allow: seq<AllowlistEntry>, log: seq<Event>, k: nat)
    requires k < |log|
    ensures
      var key := WaitingKey(allow, log, k);
      WaitingOf(allow, log, k + 1) == WaitingOf(allow, log, k) + if key.Some? then [(k, key.value)] else []
  {
    hide WaitingKey;
    assert WaitingOf(allow, log, k) + [] == WaitingOf(allow, log, k);
  }

  lemma {:induction false} WaitingOfAfter(allow: seq<AllowlistEntry>, log: seq<Event>, e: Event, n: nat)
    requires n <= |log|
    ensures WaitingOf(allow, log + [e], n) == ExceptWaiting(WaitingOf(allow, log, n), RetiredBy(allow, log, e))
  {
    if n > 0 {
      hide WaitingKey, WaitingOf, Contribution, DocumentKey, ExceptWaiting;
      var k, gone := n - 1, RetiredBy(allow, log, e);
      WaitingOfAfter(allow, log, e, k);
      ContributionAfter(allow, log, e, k);
      WaitingOfNext(allow, log, k);
      WaitingOfNext(allow, log + [e], k);
      var before, key := WaitingOf(allow, log, k), WaitingKey(allow, log, k);
      assert before + [] == before && ExceptWaiting(before, gone) + [] == ExceptWaiting(before, gone);
      if key.Some? {
        ExceptWaitingOfConcat(before, [(k, key.value)], gone);
        ExceptWaitingOfOne(k, key.value, gone);
      }
    }
  }

  /** The report of a longer history: the retired echoes leave, the new event adds its own. */
  lemma ReportAfter(allow: seq<AllowlistEntry>, log: seq<Event>, e: Event)
    ensures
      Report(allow, log + [e])
      == Except(Report(allow, log), RetiredBy(allow, log, e)) + Contribution(allow, log + [e], |log|)
    ensures
      var key := WaitingKey(allow, log + [e], |log|);
      Waiting(allow, log + [e])
      == ExceptWaiting(Waiting(allow, log), RetiredBy(allow, log, e)) + if key.Some? then [(|log|, key.value)] else []
  {
    var before, after := Contributions(allow, log), Contributions(allow, log + [e]);
    forall k | 0 <= k < |log|
      ensures after[k] == Except(before[k], RetiredBy(allow, log, e))
    {
      RetiredContribution(allow, log, e, k);
    }
    ExceptOfFlat(before, after[..|log|], RetiredBy(allow, log, e));
    WaitingOfAfter(allow, log, e, |log|);
    var ws := ExceptWaiting(Waiting(allow, log), RetiredBy(allow, log, e));
    assert ws + [] == ws;
  }

  /** An event that is no document answer only adds to the report. */
  lemma ReportGrows(allow: seq<AllowlistEntry>, log: seq<Event>, e: Event)
    requires DocumentKey(e).None?
    ensures Report(allow, log + [e]) == Report(allow, log) + Contribution(allow, log + [e], |log|)
    ensures
      var key := WaitingKey(allow, log + [e], |log|);
      Waiting(allow, log + [e]) == Waiting(allow, log) + if key.Some? then [(|log|, key.value)] else []
  {
    ReportAfter(allow, log, e);
    ExceptNone(Report(allow, log), {});
    ExceptWaitingNone(Waiting(allow, log));
    assert RetiredBy(allow, log, e) == {};
  }

  lemma {:induction false} ExceptWaitingNone(ws: seq<(nat, string)>)
    ensures ExceptWaiting(ws, {}) == ws
  {
    if ws != [] {
      ExceptWaitingNone(ws[1..]);
    }
  }

  lemma {:induction false} WaitingMeaning(allow: seq<AllowlistEntry>, log: seq<Event>, n: nat)
    requires n <= |log|
    ensures forall i :: 0 <= i < |WaitingOf(allow, log, n)| ==>
      var (k, key) := WaitingOf(allow, log, n)[i]; k < n && WaitingKey(allow, log, k) == Some(key)
    ensures forall k :: 0 <= k < n && WaitingKey(allow, log, k).Some? ==>
      (k, WaitingKey(allow, log, k).value) in WaitingOf(allow, log, n)
  {
    if n > 0 {
      WaitingMeaning(allow, log, n - 1);
    }
  }

  /** Part `k` holds nothing but detections of event `k`. */
  ghost predicate ByOrigin(parts: seq<seq<Detection>>) {
    forall k, i :: 0 <= k < |parts| && 0 <= i < |parts[k]| ==> parts[k][i].origin == k
  }

  lemma {:induction false} FlatMembers(parts: seq<seq<Detection>>, d: Detection)
    requires ByOrigin(parts)
    ensures d in Flat(parts) <==> d.origin < |parts| && d in parts[d.origin]
  {
    if parts != [] {
      FlatMembers(parts[..|parts| - 1], d);
    }
  }

  lemma {:induction false} FlatOrder(parts: seq<seq<Detection>>, i: nat, j: nat)
    requires ByOrigin(parts) && i < j < |Flat(parts)|
    ensures
      var ds := Flat(parts);
      ds[i].origin <= ds[j].origin < |parts| && (ds[i].origin == ds[j].origin ==> |parts[ds[i].origin]| > 1)
  {
    var k := |parts| - 1;
    var before := Flat(parts[..k]);
    if j < |before| {
      FlatOrder(parts[..k], i, j);
    } else if i < |before| {
      assert before[i] in before;
      FlatMembers(parts[..k], before[i]);
    }
  }

  /** Events other than a teardown are the origin of at most one detection each. */
  lemma OriginOnce(allow: seq<AllowlistEntry>, log: seq<Event>, i: nat, j: nat)
    requires i < j < |Report(allow, log)|
    ensures
      var ds := Report(allow, log);
      ds[i].origin <= ds[j].origin < |log| && (ds[i].origin == ds[j].origin ==> log[ds[i].origin].Teardown?)
  {
    ContributionsByOrigin(allow, log);
    FlatOrder(Contributions(allow, log), i, j);
    ContributionOrigin(allow, log, Report(allow, log)[i].origin);
  }

  lemma ContributionsByOrigin(allow: seq<AllowlistEntry>, log: seq<Event>)
    ensures ByOrigin(Contributions(allow, log))
  {
  }

  /** A detection is in the report exactly when its event accounts for it. */
  lemma InReport(allow: seq<AllowlistEntry>, log: seq<Event>, d: Detection)
    ensures d in Report(allow, log) <==> d.origin < |log| && d in Contribution(allow, log, d.origin)
  {
    ContributionsByOrigin(allow, log);
    FlatMembers(Contributions(allow, log), d);
  }
}
