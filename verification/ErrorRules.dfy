/**
 The rules of the error gate, event by event and in full: which event is reported, as what, and what
 excuses it. Verbs, paths, texts and statuses are written out here and taken from nowhere else.
 */
module ErrorRules {
  import opened Wrappers
  import opened Texts
  import opened AbortMatching
  import opened ErrorGate
  import opened ErrorVerdicts

  // ----- what one event is the origin of

  /** The detections of one event, in order. */
  ghost function From(ds: seq<Detection>, k: nat): seq<Detection> {
    if ds == [] then []
    else
      var before, last := From(ds[..|ds| - 1], k), ds[|ds| - 1];
      if last.origin == k then before + [last] else before
  }

  lemma {:induction false} FromConcat(ds: seq<Detection>, es: seq<Detection>, k: nat)
    ensures From(ds + es, k) == From(ds, k) + From(es, k)
  {
    if es == [] {
      assert ds + es == ds;
    } else {
      assert (ds + es)[..|ds + es| - 1] == ds + es[..|es| - 1];
      FromConcat(ds, es[..|es| - 1], k);
    }
  }

  lemma {:induction false} FromOwn(ds: seq<Detection>, k: nat)
    ensures (forall i :: 0 <= i < |ds| ==> ds[i].origin == k) ==> From(ds, k) == ds
    ensures (forall i :: 0 <= i < |ds| ==> ds[i].origin != k) ==> From(ds, k) == []
  {
    if ds != [] {
      FromOwn(ds[..|ds| - 1], k);
    }
  }

  lemma {:induction false} FromFlat(parts: seq<seq<Detection>>, k: nat)
    requires ByOrigin(parts)
    ensures From(Flat(parts), k) == if k < |parts| then parts[k] else []
  {
    if parts != [] {
      var n := |parts| - 1;
      var before := From(Flat(parts[..n]), k);
      FromFlat(parts[..n], k);
      FromConcat(Flat(parts[..n]), parts[n], k);
      FromOwn(parts[n], k);
      assert forall i :: 0 <= i < |parts[n]| ==> parts[n][i].origin == n;
      hide ByOrigin, From;
      assert before + [] == before && [] + parts[n] == parts[n];
    }
  }

  /** In every history the report holds, of each event, what that event accounts for. */
  lemma ReportFrom(allow: seq<AllowlistEntry>, log: seq<Event>, k: nat)
    requires k < |log|
    ensures From(Report(allow, log), k) == Contribution(allow, log, k)
  {
    hide Contribution;
    ContributionsByOrigin(allow, log);
    FromFlat(Contributions(allow, log), k);
  }

  // ----- the allowlist

  /** An entry covers a text of its own kind until it expires, on its page, and for a mutation with its status. */
  ghost predicate Covers(entry: AllowlistEntry, kind: DetectionKind, text: string, status: Option<nat>, pageUrl: string, now: int) {
    && entry.kind == kind && entry.matches(text)
    && (match entry.expiresAt case None => false case Some(end) => now <= end)
    && (match entry.matchesPage case None => kind != PageErrors case Some(matches) => matches(pageUrl))
    && match (kind, entry.matchesStatus, status)
       case (MutationStatus, Some(matches), Some(code)) => matches(code)
       case (MutationStatus, _, _) => false
       case _ => true
  }

  ghost predicate SomeCovers(allow: seq<AllowlistEntry>, kind: DetectionKind, text: string, status: Option<nat>, pageUrl: string, now: int) {
    exists i :: 0 <= i < |allow| && Covers(allow[i], kind, text, status, pageUrl, now)
  }

  lemma AllowlistRule(allow: seq<AllowlistEntry>, kind: DetectionKind, text: string, status: Option<nat>, pageUrl: string, now: int)
    ensures Allowlisted(allow, kind, text, status, pageUrl, now) <==> SomeCovers(allow, kind, text, status, pageUrl, now)
  {
    forall i | 0 <= i < |allow|
      ensures EntryMatches(allow[i], kind, text, status, pageUrl, now) <==> Covers(allow[i], kind, text, status, pageUrl, now)
    {
    }
  }

  /** An expired entry, and one whose date does not parse, covers nothing; nor does a page error's entry without a page. */
  lemma DeadEntriesCoverNothing(allow: seq<AllowlistEntry>, kind: DetectionKind, text: string, status: Option<nat>, pageUrl: string, now: int)
    requires forall i :: 0 <= i < |allow| ==>
      allow[i].expiresAt.None? || allow[i].expiresAt.value < now || (allow[i].kind == PageErrors && allow[i].matchesPage.None?)
    ensures !Allowlisted(allow, kind, text, status, pageUrl, now)
  {
  }

  // ----- mutations

  /** The requests the gate watches: server-function calls and changes of authentication. */
  ghost predicate Watched(verb: string, path: string) {
    || (verb == "POST" && |path| >= 8 && path[..8] == "/_server")
    || ((verb == "POST" || verb == "PUT" || verb == "PATCH" || verb == "DELETE") && |path| >= 10 && path[..10] == "/api/auth/")
  }

  lemma WatchedRule(verb: string, path: string)
    ensures IsCriticalMutation(verb, path) <==> Watched(verb, path)
  {
    assert "/_server" <= path <==> |path| >= 8 && path[..8] == "/_server";
    assert "/api/auth/" <= path <==> |path| >= 10 && path[..10] == "/api/auth/";
  }

  /**
   A response is the origin of exactly one detection when it answers a watched request with a status that is
   neither 2xx nor 409 and that no entry covers, and of none otherwise.
   */
  lemma MutationRule(allow: seq<AllowlistEntry>, log: seq<Event>, k: nat)
    requires k < |log| && log[k].Response?
    ensures
      var e := log[k];
      From(Report(allow, log), k)
      == if e.path.Some? && Watched(e.verb, e.path.value) && !(200 <= e.status <= 299) && e.status != 409
            && !SomeCovers(allow, MutationStatus, e.url, Some(e.status), e.pageUrl, e.at)
         then [Detection(k, MutationStatus, e.verb + " " + e.url + " → HTTP " + Decimal(e.status), e.pageUrl, None)]
         else []
  {
    hide Report, Allowlisted, SomeCovers, IsCriticalMutation, Watched;
    var e := log[k];
    ReportFrom(allow, log, k);
    if e.path.Some? { WatchedRule(e.verb, e.path.value); }
    AllowlistRule(allow, MutationStatus, e.url, Some(e.status), e.pageUrl, e.at);
  }

  /** A 2xx answer to a watched request that was announced as a stream of JSON lines. */
  ghost predicate StreamAnswer(e: Event) {
    && e.Response? && e.path.Some? && Watched(e.verb, e.path.value) && 200 <= e.status <= 299
    && e.contentType.Some? && Occurs(e.contentType.value, "application/x-ndjson")
  }

  lemma StreamRule(e: Event)
    ensures DeliversStream(e) <==> StreamAnswer(e)
  {
    if e.Response? && e.path.Some? {
      WatchedRule(e.verb, e.path.value);
      if e.contentType.Some? { IncludesMeansOccurs(e.contentType.value, "application/x-ndjson"); }
    }
  }

  /**
   A watched request that fails at network level is the origin of exactly one detection, unless it was aborted
   after its stream had been answered; any other failed request is the origin of none.
   */
  lemma FailureRule(allow: seq<AllowlistEntry>, log: seq<Event>, k: nat)
    requires k < |log| && log[k].RequestFailed?
    ensures
      var e := log[k];
      var delivered := exists j :: 0 <= j < k && StreamAnswer(log[j]) && log[j].request == e.request;
      var aborted := e.errorText.Some? && Occurs(e.errorText.value, "ERR_ABORTED");
      var reason := if e.errorText.Some? then e.errorText.value else "unknown";
      From(Report(allow, log), k)
      == if e.path.Some? && Watched(e.verb, e.path.value) && !(delivered && aborted)
         then [Detection(k, RequestFailures, e.verb + " " + e.url + " failed at network level: " + reason, e.pageUrl, None)]
         else []
  {
    hide Report, IsCriticalMutation, Watched, DeliversStream, StreamAnswer;
    var e := log[k];
    ReportFrom(allow, log, k);
    if e.path.Some? { WatchedRule(e.verb, e.path.value); }
    if e.errorText.Some? { IncludesMeansOccurs(e.errorText.value, "ERR_ABORTED"); }
    forall j | 0 <= j < k
      ensures DeliversStream(log[j]) <==> StreamAnswer(log[j])
      ensures log[..k][j] == log[j]
    {
      StreamRule(log[j]);
    }
    DeliveredRule(log, k, e.request);
  }

  lemma DeliveredRule(log: seq<Event>, k: nat, request: nat)
    requires k <= |log|
    requires forall j :: 0 <= j < k ==> (DeliversStream(log[j]) <==> StreamAnswer(log[j]))
    ensures Delivered(log[..k], request) <==> exists j :: 0 <= j < k && StreamAnswer(log[j]) && log[j].request == request
  {
    hide DeliversStream, StreamAnswer;
    assert forall j :: 0 <= j < k ==> log[..k][j] == log[j];
  }

  // ----- page errors and console errors

  lemma PageErrorRule(allow: seq<AllowlistEntry>, log: seq<Event>, k: nat)
    requires k < |log| && log[k].PageError?
    ensures
      var e := log[k];
      From(Report(allow, log), k)
      == if SomeCovers(allow, PageErrors, e.message, None, e.pageUrl, e.at) then []
         else [Detection(k, PageErrors, e.message, e.pageUrl, e.stack)]
  {
    hide Report, Allowlisted, SomeCovers;
    ReportFrom(allow, log, k);
    AllowlistRule(allow, PageErrors, log[k].message, None, log[k].pageUrl, log[k].at);
  }

  ghost predicate OnlyDigits(text: string) {
    forall i :: 0 <= i < |text| ==> text[i] in "0123456789"
  }

  /** The browser's line for a failed resource, and the status it names. */
  ghost predicate StatusLine(text: string, digits: string) {
    var start := "Failed to load resource: the server responded with a status of ";
    && digits != "" && OnlyDigits(digits) && start + digits <= text
    && (|text| > |start + digits| ==> text[|start + digits|] !in "0123456789")
  }

  lemma DigitsRule(c: char)
    ensures IsDigit(c) <==> c in "0123456789"
  {
  }

  lemma {:induction false} LeadingDigitsAre(text: string, digits: string)
    requires digits <= text && AllDigits(digits) && (|digits| < |text| ==> !IsDigit(text[|digits|]))
    ensures LeadingDigits(text) == digits
  {
    if digits != "" {
      LeadingDigitsAre(text[1..], digits[1..]);
      assert digits == [text[0]] + digits[1..];
    }
  }

  lemma StatusLineRule(text: string, digits: string)
    ensures EchoedStatus(text) == Some(digits) <==> StatusLine(text, digits)
  {
    var start := "Failed to load resource: the server responded with a status of ";
    forall c: char
      ensures IsDigit(c) <==> c in "0123456789"
    {
      DigitsRule(c);
    }
    if start <= text {
      var rest := text[|start|..];
      assert text == start + rest;
      assert digits <= rest <==> start + digits <= text by { PrefixBehind(start, digits, rest); }
      if StatusLine(text, digits) {
        assert |digits| < |rest| ==> rest[|digits|] == text[|start + digits|];
        LeadingDigitsAre(rest, digits);
      }
      if EchoedStatus(text) == Some(digits) {
        assert |digits| < |rest| ==> rest[|digits|] == text[|start + digits|];
      }
    } else {
      assert start + digits <= text ==> start <= text;
    }
  }

  lemma PrefixBehind(start: string, digits: string, rest: string)
    ensures digits <= rest <==> start + digits <= start + rest
  {
    var whole := start + rest;
    if digits <= rest {
      assert start + digits == whole[..|start + digits|];
    }
    if start + digits <= whole {
      assert forall i :: 0 <= i < |digits| ==> digits[i] == (start + digits)[|start| + i] == whole[|start| + i] == rest[i];
      assert digits == rest[..|digits|];
    }
  }

  /** The text of a rejected fetch: the word "fetch" ends it or is followed by no letter, digit or underscore. */
  ghost predicate RejectionText(text: string) {
    var start := "TypeError: Failed to fetch";
    && start <= text
    && (|text| > |start| ==>
          var c := text[|start|];
          !('A' <= c <= 'Z') && !('a' <= c <= 'z') && !('0' <= c <= '9') && c != '_')
  }

  lemma RejectionRule(text: string)
    ensures IsFetchRejection(text) <==> RejectionText(text)
  {
  }

  /** What the abort correlation sees: reads of server functions that were aborted, and console errors that reject a fetch. */
  lemma BeatRule(e: Event)
    ensures
      BeatOf(e)
      == if e.RequestFailed? && e.verb == "GET" && e.path.Some? && "/_server" <= e.path.value
            && e.errorText.Some? && Occurs(e.errorText.value, "ERR_ABORTED") then AbortMatching.Abort(e.at)
         else if e.Console? && e.level == "error" && RejectionText(e.text) then Echo(e.at)
         else Other
  {
    if e.RequestFailed? && e.errorText.Some? { IncludesMeansOccurs(e.errorText.value, "ERR_ABORTED"); }
    if e.Console? { RejectionRule(e.text); }
  }

  /** A failing answer of the main-frame document that explains some status line of the text. */
  ghost predicate Explained(log: seq<Event>, text: string, source: string) {
    exists j, digits :: 0 <= j < |log| && StatusLine(text, digits) && Explains(log[j], digits, source)
  }

  /**
   A console event is the origin of exactly one detection when it is an error, no abort was spent on it, no entry
   covers it, and no document answer explains the status line it may be; otherwise of none.
   */
  lemma ConsoleRule(allow: seq<AllowlistEntry>, log: seq<Event>, k: nat)
    requires k < |log| && log[k].Console?
    ensures
      var e := log[k];
      From(Report(allow, log), k)
      == if e.level == "error" && !Suppressed(Beats(log), k)
            && !SomeCovers(allow, ConsoleErrors, e.text, None, e.pageUrl, e.at)
            && !(e.source != "" && Explained(log, e.text, e.source))
         then [Detection(k, ConsoleErrors, e.text, e.pageUrl, None)]
         else []
  {
    hide Report, Allowlisted, SomeCovers, Suppressed, StatusLine, EchoedStatus, Explains;
    var e := log[k];
    ReportFrom(allow, log, k);
    AllowlistRule(allow, ConsoleErrors, e.text, None, e.pageUrl, e.at);
    ExplainedRule(log, e);
  }

  lemma ExplainedRule(log: seq<Event>, e: Event)
    requires e.Console?
    ensures EchoKey(e).Some? && Answered(log, EchoKey(e).value) <==> e.source != "" && Explained(log, e.text, e.source)
  {
    hide StatusLine, EchoedStatus;
    forall digits
      ensures EchoedStatus(e.text) == Some(digits) <==> StatusLine(e.text, digits)
    {
      StatusLineRule(e.text, digits);
    }
    var status := EchoedStatus(e.text);
    if status.Some? && e.source != "" {
      var key := Key(status.value, e.source);
      forall j | 0 <= j < |log|
        ensures DocumentKey(log[j]) == Some(key) <==> Explains(log[j], status.value, e.source)
      {
        if DocumentKey(log[j]).Some? {
          KeyIsInjective(Decimal(log[j].status), log[j].url, status.value, e.source);
        }
      }
      assert Answered(log, key) <==> exists j :: 0 <= j < |log| && Explains(log[j], status.value, e.source);
      assert Explained(log, e.text, e.source) <==> exists j :: 0 <= j < |log| && Explains(log[j], status.value, e.source) by {
        hide Explains;
      }
    }
  }

  // ----- conflicts at the end

  /** A success for the url, or a teardown: what ends a pending conflict. */
  ghost predicate Ends(e: Event, url: string) {
    e.Teardown? || (e.Response? && e.path.Some? && Watched(e.verb, e.path.value) && 200 <= e.status <= 299 && e.url == url)
  }

  ghost predicate Conflicting(e: Event, url: string) {
    e.Response? && e.path.Some? && Watched(e.verb, e.path.value) && e.status == 409 && e.url == url
  }

  /** Event `j` is the first 409 for the url behind everything that ended one, and nothing has ended it since. */
  ghost predicate Opens(log: seq<Event>, url: string, j: nat) {
    && j < |log| && Conflicting(log[j], url)
    && (forall l :: j < l < |log| ==> !Ends(log[l], url))
    && forall i :: 0 <= i < j && Conflicting(log[i], url) ==> exists l :: i < l < j && Ends(log[l], url)
  }

  lemma EndsRule(e: Event, url: string)
    ensures Ends(e, url) <==> e.Teardown? || (Succeeded(e) && e.url == url)
    ensures Conflicting(e, url) <==> Conflicted(e) && e.url == url
  {
    if e.Response? && e.path.Some? { WatchedRule(e.verb, e.path.value); }
  }

  /** When the pending conflict of a url began. */
  ghost function Since(log: seq<Event>, url: string): (j: nat)
    ensures log != [] ==> j < |log|
  {
    if log == [] then 0
    else
      var before := log[..|log| - 1];
      if before != [] && HasKey(Conflicts(before), url) then Since(before, url) else |log| - 1
  }

  lemma {:induction false} PendingSince(log: seq<Event>, url: string)
    requires HasKey(Conflicts(log), url)
    ensures Opens(log, url, Since(log, url))
  {
    hide Ends, Conflicting, Conflicts;
    ConflictsMeaning(log, url);
    assert log != [] by { NothingPending(url); }
    var before, e := log[..|log| - 1], log[|log| - 1];
    ConflictsMeaning(before, url);
    ConflictStandsStep(log, url);
    EndsRule(e, url);
    NothingPending(url);
    if HasKey(Conflicts(before), url) {
      PendingSince(before, url);
      LaterStillOpens(log, url, Since(before, url));
    } else {
      NoneOpen(before, url);
      OpensNow(log, url);
    }
  }

  lemma NothingPending(url: string)
    ensures !HasKey(Conflicts([]), url)
  {
  }

  lemma LaterStillOpens(log: seq<Event>, url: string, j: nat)
    requires log != [] && Opens(log[..|log| - 1], url, j) && !Ends(log[|log| - 1], url)
    ensures Opens(log, url, j)
  {
    hide Ends, Conflicting;
    var before := log[..|log| - 1];
    assert forall i :: 0 <= i < |before| ==> before[i] == log[i];
    forall i | 0 <= i < j && Conflicting(log[i], url)
      ensures exists l :: i < l < j && Ends(log[l], url)
    {
      assert Conflicting(before[i], url);
      var l :| i < l < j && Ends(before[l], url);
      assert Ends(log[l], url);
    }
  }

  /** Without a pending conflict every 409 for the url was ended. */
  lemma NoneOpen(log: seq<Event>, url: string)
    requires !HasKey(Conflicts(log), url)
    ensures forall i :: 0 <= i < |log| && Conflicting(log[i], url) ==> exists l :: i < l < |log| && Ends(log[l], url)
  {
    hide Ends, Conflicting, Conflicts;
    ConflictsMeaning(log, url);
    forall i | 0 <= i < |log| && Conflicting(log[i], url)
      ensures exists l :: i < l < |log| && Ends(log[l], url)
    {
      EndsRule(log[i], url);
      var l :| i < l < |log| && (log[l].Teardown? || (Succeeded(log[l]) && log[l].url == url));
      EndsRule(log[l], url);
    }
  }

  lemma OpensNow(log: seq<Event>, url: string)
    requires log != [] && Conflicting(log[|log| - 1], url)
    requires
      var before := log[..|log| - 1];
      forall i :: 0 <= i < |before| && Conflicting(before[i], url) ==> exists l :: i < l < |before| && Ends(before[l], url)
    ensures Opens(log, url, |log| - 1)
  {
    hide Ends, Conflicting;
    var before := log[..|log| - 1];
    forall i | 0 <= i < |log| - 1 && Conflicting(log[i], url)
      ensures exists l :: i < l < |log| - 1 && Ends(log[l], url)
    {
      assert before[i] == log[i];
      var l :| i < l < |before| && Ends(before[l], url);
      assert before[l] == log[l];
    }
  }

  lemma {:induction false} RemovedInOrder(pending: seq<(string, nat)>, url: string, i: nat, k: nat) returns (i': nat, k': nat)
    requires i < k < |RemoveKey(pending, url)|
    ensures i' < k' < |pending| && pending[i'].0 == RemoveKey(pending, url)[i].0 && pending[k'].0 == RemoveKey(pending, url)[k].0
  {
    if pending[0].0 == url {
      i', k' := RemovedInOrder(pending[1..], url, i, k);
      i', k' := i' + 1, k' + 1;
    } else if i > 0 {
      i', k' := RemovedInOrder(pending[1..], url, i - 1, k - 1);
      i', k' := i' + 1, k' + 1;
    } else {
      i' := 0;
      k' := RemovedAt(pending[1..], url, k - 1);
      k' := k' + 1;
    }
  }

  lemma {:induction false} RemovedAt(pending: seq<(string, nat)>, url: string, k: nat) returns (k': nat)
    requires k < |RemoveKey(pending, url)|
    ensures k' < |pending| && pending[k'].0 == RemoveKey(pending, url)[k].0
  {
    if pending[0].0 == url {
      k' := RemovedAt(pending[1..], url, k);
      k' := k' + 1;
    } else if k > 0 {
      k' := RemovedAt(pending[1..], url, k - 1);
      k' := k' + 1;
    } else {
      k' := 0;
    }
  }

  lemma {:induction false} BumpedInPlace(pending: seq<(string, nat)>, url: string)
    ensures |Bump(pending, url)| == |pending| + if HasKey(pending, url) then 0 else 1
    ensures forall i :: 0 <= i < |pending| ==> Bump(pending, url)[i].0 == pending[i].0
    ensures !HasKey(pending, url) ==> Bump(pending, url)[|pending|].0 == url
  {
    if pending != [] {
      HasKeyOfCons(pending[0], pending[1..], url);
      assert pending == [pending[0]] + pending[1..];
      if pending[0].0 != url { BumpedInPlace(pending[1..], url); }
    }
  }

  /** Pending conflicts stand in the order in which they began. */
  lemma {:induction false} ConflictsInOrder(log: seq<Event>, i: nat, k: nat)
    requires i < k < |Conflicts(log)|
    ensures Since(log, Conflicts(log)[i].0) < Since(log, Conflicts(log)[k].0)
    decreases |log|
  {
    var before, e := log[..|log| - 1], log[|log| - 1];
    var pending := Conflicts(before);
    if Succeeded(e) {
      var i', k' := RemovedInOrder(pending, e.url, i, k);
      ConflictsInOrder(before, i', k');
    } else if Conflicted(e) {
      BumpedInPlace(pending, e.url);
      if k < |pending| {
        ConflictsInOrder(before, i, k);
      } else {
        assert pending[i].0 == Conflicts(log)[i].0;
      }
    } else {
      ConflictsInOrder(before, i, k);
    }
  }

  /** A teardown reports the pending conflicts, one each, in that order. */
  lemma TeardownRule(allow: seq<AllowlistEntry>, log: seq<Event>, pageUrl: string)
    ensures
      var ds, pending := From(Report(allow, log + [Teardown(pageUrl)]), |log|), Conflicts(log);
      && |ds| == |pending|
      && forall i :: 0 <= i < |ds| ==>
           ds[i] == Detection(|log|, MutationStatus, "POST " + pending[i].0 + " → HTTP 409 with no successful retry", pageUrl, None)
  {
    hide Report, Conflicts;
    ReportFrom(allow, log + [Teardown(pageUrl)], |log|);
    assert (log + [Teardown(pageUrl)])[..|log|] == log;
  }
}
