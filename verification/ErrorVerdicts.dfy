/** What the report of the error gate means for the run as a whole. */
module ErrorVerdicts {
  import opened Wrappers
  import opened Texts
  import opened AbortMatching
  import opened ErrorGate

  /** Whether a failing main-frame document answer explains a status echo at this address. */
  ghost predicate Explains(e: Event, digits: string, url: string) {
    && e.Response? && e.path.Some? && e.navigation && e.mainFrame
    && e.status >= 400 && Decimal(e.status) == digits && e.url == url
  }

  /**
   A status echo with a location that no allowlist entry covers is reported exactly when no
   main-frame document, earlier or later, answered the same url with the same status.
   */
  lemma StatusEchoVerdict(allow: seq<AllowlistEntry>, log: seq<Event>, k: nat, digits: string)
    requires k < |log| && log[k].Console? && log[k].level == "error" && log[k].source != ""
    requires EchoedStatus(log[k].text) == Some(digits)
    requires !Allowlisted(allow, ConsoleErrors, log[k].text, None, log[k].pageUrl, log[k].at)
    ensures (exists d :: d in Report(allow, log) && d.origin == k)
            <==> !exists j :: 0 <= j < |log| && Explains(log[j], digits, log[k].source)
  {
    var key := Key(digits, log[k].source);
    EchoKindsAreDisjoint(log[k].text);
    forall j | 0 <= j < |log|
      ensures DocumentKey(log[j]) == Some(key) <==> Explains(log[j], digits, log[k].source)
    {
      if DocumentKey(log[j]).Some? {
        KeyIsInjective(Decimal(log[j].status), log[j].url, digits, log[k].source);
      }
    }
    if !Answered(log, key) {
      InReport(allow, log, Contribution(allow, log, k)[0]);
    } else if d :| d in Report(allow, log) && d.origin == k {
      InReport(allow, log, d);
    }
  }

  lemma {:induction false} ExceptKeeps(ds: seq<Detection>, gone: set<nat>, d: Detection)
    requires d in ds && d.origin !in gone
    ensures d in Except(ds, gone)
  {
    if d != ds[0] {
      ExceptKeeps(ds[1..], gone, d);
    }
  }

  /** A detection leaves the report only when the answer its status echo was waiting for arrives. */
  lemma OnlyAnsweredEchoesLeave(allow: seq<AllowlistEntry>, log: seq<Event>, e: Event, d: Detection)
    requires d in Report(allow, log) && d !in Report(allow, log + [e])
    ensures d.origin < |log| && d.kind == ConsoleErrors
    ensures DocumentKey(e).Some? && EchoKey(log[d.origin]) == DocumentKey(e)
  {
    ReportAfter(allow, log, e);
    if d.origin !in RetiredBy(allow, log, e) {
      ExceptKeeps(Report(allow, log), RetiredBy(allow, log, e), d);
      assert false;
    }
    InReport(allow, log, d);
  }

  // ----- the order of the events does not matter to status echoes

  /** Whether a status echo is still unexplained once these keys are known. */
  ghost predicate EchoSurvives(allow: seq<AllowlistEntry>, e: Event, keys: set<string>) {
    && e.Console? && e.level == "error" && EchoKey(e).Some? && EchoKey(e).value !in keys
    && !Allowlisted(allow, ConsoleErrors, e.text, None, e.pageUrl, e.at)
  }

  /** The status echoes, as events, that the report still holds among the first `n`. */
  ghost function SurvivingEchoes(allow: seq<AllowlistEntry>, log: seq<Event>, n: nat): multiset<Event>
    requires n <= |log|
  {
    if n == 0 then multiset{}
    else
      SurvivingEchoes(allow, log, n - 1)
      + if WaitingKey(allow, log, n - 1).Some? then multiset{log[n - 1]} else multiset{}
  }

  lemma {:induction false} SurvivingCount(allow: seq<AllowlistEntry>, log: seq<Event>, n: nat, e: Event)
    requires n <= |log|
    ensures SurvivingEchoes(allow, log, n)[e] == if EchoSurvives(allow, e, DocumentKeys(log)) then multiset(log[..n])[e] else 0
  {
    hide WaitingKey, EchoSurvives;
    if n > 0 {
      SurvivingCount(allow, log, n - 1, e);
      assert log[..n] == log[..n - 1] + [log[n - 1]];
      WaitingIsSurviving(allow, log, n - 1);
    }
  }

  /** Whether an echo waits depends on the set of answered keys alone. */
  lemma WaitingIsSurviving(allow: seq<AllowlistEntry>, log: seq<Event>, k: nat)
    requires k < |log|
    ensures WaitingKey(allow, log, k).Some? <==> EchoSurvives(allow, log[k], DocumentKeys(log))
  {
    if log[k].Console? {
      EchoKindsAreDisjoint(log[k].text);
    }
  }

  lemma SameKeys(log: seq<Event>, log': seq<Event>)
    requires multiset(log) == multiset(log')
    ensures DocumentKeys(log) <= DocumentKeys(log')
  {
    forall key | key in DocumentKeys(log)
      ensures key in DocumentKeys(log')
    {
      var j :| 0 <= j < |log| && DocumentKey(log[j]) == Some(key);
      assert log[j] in multiset(log');
      var i :| 0 <= i < |log'| && log'[i] == log[j];
      assert DocumentKey(log'[i]) == Some(key);
    }
  }

  /** Whatever the interleaving, the same events leave the same status echoes in the report. */
  lemma StatusVerdictIgnoresOrder(allow: seq<AllowlistEntry>, log: seq<Event>, log': seq<Event>)
    requires multiset(log) == multiset(log')
    ensures SurvivingEchoes(allow, log, |log|) == SurvivingEchoes(allow, log', |log'|)
  {
    SameKeys(log, log');
    SameKeys(log', log);
    assert log[..|log|] == log && log'[..|log'|] == log';
    forall e: Event
      ensures SurvivingEchoes(allow, log, |log|)[e] == SurvivingEchoes(allow, log', |log'|)[e]
    {
      SurvivingCount(allow, log, |log|, e);
      SurvivingCount(allow, log', |log'|, e);
    }
  }

  // ----- conflicts

  /** The events that bear on the conflict of one url: its 2xx and 409 answers, and teardowns. */
  predicate BearsOn(e: Event, url: string) {
    e.Teardown? || ((Succeeded(e) || Conflicted(e)) && e.url == url)
  }

  ghost function Bearing(log: seq<Event>, url: string): seq<Event> {
    if log == [] then []
    else
      var before, e := Bearing(log[..|log| - 1], url), log[|log| - 1];
      if BearsOn(e, url) then before + [e] else before
  }

  /** A url has a pending conflict exactly when the last event that bears on it is a 409. */
  lemma {:induction false} ConflictIsTheLastAnswer(log: seq<Event>, url: string)
    ensures HasKey(Conflicts(log), url) <==> Bearing(log, url) != [] && Conflicted(Bearing(log, url)[|Bearing(log, url)| - 1])
  {
    ConflictsMeaning(log, url);
    if log != [] {
      ConflictIsTheLastAnswer(log[..|log| - 1], url);
      ConflictsMeaning(log[..|log| - 1], url);
      ConflictStandsStep(log, url);
    }
  }

  /** The conflict verdict of a url is the same however its answers interleave with other events. */
  lemma ConflictVerdictIgnoresOthers(log: seq<Event>, log': seq<Event>, url: string)
    requires Bearing(log, url) == Bearing(log', url)
    ensures HasKey(Conflicts(log), url) <==> HasKey(Conflicts(log'), url)
  {
    ConflictIsTheLastAnswer(log, url);
    ConflictIsTheLastAnswer(log', url);
  }

  lemma ConflictDetectionIsInjective(origin: nat, url: string, url': string, pageUrl: string)
    ensures ConflictDetection(origin, url, pageUrl) == ConflictDetection(origin, url', pageUrl) <==> url == url'
  {
    var pre, post := "POST ", " → HTTP 409 with no successful retry";
    var m, m' := pre + url + post, pre + url' + post;
    if m == m' {
      assert url == m[|pre|..|m| - |post|] && url' == m'[|pre|..|m'| - |post|];
    }
  }

  lemma CountsOnce<T>(s: seq<T>, i: nat)
    requires i < |s| && forall j :: 0 <= j < |s| && j != i ==> s[j] != s[i]
    ensures multiset(s)[s[i]] == 1
  {
    var before, after := s[..i], s[i + 1..];
    assert s == before + [s[i]] + after;
    assert s[i] !in before && s[i] !in after;
  }

  /** A teardown reports one conflict per url whose last 2xx-or-409 answer since the previous one was a 409. */
  lemma TeardownConflicts(allow: seq<AllowlistEntry>, log: seq<Event>, pageUrl: string, url: string)
    ensures
      var d := Detection(|log|, MutationStatus, "POST " + url + " → HTTP 409 with no successful retry", pageUrl, None);
      multiset(Contribution(allow, log + [Teardown(pageUrl)], |log|))[d] == if ConflictStands(log, url) then 1 else 0
  {
    assert ConflictDetection(|log|, url, pageUrl)
           == Detection(|log|, MutationStatus, "POST " + url + " → HTTP 409 with no successful retry", pageUrl, None);
    var pending := Conflicts(log);
    var ds := ConflictDetections(|log|, pending, pageUrl);
    ConflictsMeaning(log, url);
    assert (log + [Teardown(pageUrl)])[..|log|] == log;
    forall i | 0 <= i < |pending|
      ensures ds[i] == ConflictDetection(|log|, url, pageUrl) <==> pending[i].0 == url
    {
      ConflictDetectionIsInjective(|log|, pending[i].0, url, pageUrl);
    }
    if ConflictStands(log, url) {
      var i :| 0 <= i < |pending| && pending[i].0 == url;
      CountsOnce(ds, i);
    }
  }

  // ----- fetch rejections

  /** The console errors that report a rejected fetch. */
  ghost function Rejections(log: seq<Event>): set<nat> {
    set k | 0 <= k < |log| && Beats(log)[k].Echo?
  }

  ghost function ReportedRejections(allow: seq<AllowlistEntry>, log: seq<Event>): set<nat> {
    set k | k in Rejections(log) && exists d :: d in Report(allow, log) && d.origin == k
  }

  /** The rejections that an allowlist entry covers; the collector asks the list only after it looked for an abort. */
  ghost function Covered(allow: seq<AllowlistEntry>, log: seq<Event>): set<nat> {
    set k | 0 <= k < |log| && Beats(log)[k].Echo?
      && Allowlisted(allow, ConsoleErrors, log[k].text, None, log[k].pageUrl, log[k].at)
  }

  /** What is reported is exactly what no abort was spent on and no entry covers. */
  lemma RejectionsAreExcusedOrReported(allow: seq<AllowlistEntry>, log: seq<Event>)
    ensures ReportedRejections(allow, log) == Rejections(log) - SuppressedFrom(Beats(log), 0) - Covered(allow, log)
  {
    forall k | k in Rejections(log)
      ensures (exists d :: d in Report(allow, log) && d.origin == k)
              <==> !Suppressed(Beats(log), k) && k !in Covered(allow, log)
    {
      EchoKindsAreDisjoint(log[k].text);
      if !Suppressed(Beats(log), k) && k !in Covered(allow, log) {
        InReport(allow, log, Contribution(allow, log, k)[0]);
      } else if d :| d in Report(allow, log) && d.origin == k {
        InReport(allow, log, d);
      }
    }
  }

  lemma SuppressedAreRejections(log: seq<Event>)
    ensures SuppressedFrom(Beats(log), 0) <= Rejections(log)
  {
  }

  /**
   While no entry covers a rejection, no way of excusing rejections by earlier in-window aborts of their
   own reports fewer of them.
   */
  lemma FewestRejectionsReported(allow: seq<AllowlistEntry>, log: seq<Event>, m: map<nat, nat>)
    requires MonotoneClock(Beats(log)) && Matching(Beats(log), m) && Covered(allow, log) == {}
    ensures |ReportedRejections(allow, log)| <= |Rejections(log)| - |m|
  {
    hide ReportedRejections, Suppressed, Covered;
    RejectionsAreExcusedOrReported(allow, log);
    GreedyIsOptimal(Beats(log), m);
    SuppressedAreRejections(log);
  }

  /** The correlation as it would run if covered rejections were put aside first. */
  ghost function UncoveredBeats(allow: seq<AllowlistEntry>, log: seq<Event>): (beats: seq<Beat>)
    ensures |beats| == |log|
    ensures forall k :: 0 <= k < |log| ==> beats[k] == if k in Covered(allow, log) then Other else Beats(log)[k]
  {
    seq(|log|, k requires 0 <= k < |log| => if k in Covered(allow, log) then Other else Beats(log)[k])
  }

  /** The assignments that leave covered rejections alone are those of the correlation without them. */
  lemma UncoveredMatching(allow: seq<AllowlistEntry>, log: seq<Event>, m: map<nat, nat>)
    ensures Matching(UncoveredBeats(allow, log), m) <==> Matching(Beats(log), m) && m.Keys !! Covered(allow, log)
  {
    hide Injective, Covered, Fresh;
    var beats, all := UncoveredBeats(allow, log), Beats(log);
    assert forall a :: 0 <= a < |log| && all[a].Abort? ==> beats[a] == all[a] by { CoveredAreEchoes(allow, log); }
    forall e | e in m
      ensures Excuses(beats, m[e], e) <==> Excuses(all, m[e], e) && e !in Covered(allow, log)
    {
      if e < |log| && m[e] < |log| && all[m[e]].Abort? { SameFreshness(beats, all, m[e], all[e]); }
    }
  }

  lemma CoveredAreEchoes(allow: seq<AllowlistEntry>, log: seq<Event>)
    ensures forall k :: k in Covered(allow, log) ==> k < |log| && Beats(log)[k].Echo?
  {
  }

  lemma SameFreshness(beats: seq<Beat>, all: seq<Beat>, a: nat, e: Beat)
    requires a < |beats| == |all| && beats[a] == all[a] && all[a].Abort?
    ensures e.Echo? ==> (Fresh(beats, a, e.at) <==> Fresh(all, a, e.at))
  {
  }

  lemma UncoveredClock(allow: seq<AllowlistEntry>, log: seq<Event>)
    requires MonotoneClock(Beats(log))
    ensures MonotoneClock(UncoveredBeats(allow, log))
  {
    var beats := UncoveredBeats(allow, log);
    forall i: nat, j: nat | i < j < |beats|
      ensures Ordered(beats, i, j)
    {
      assert Ordered(Beats(log), i, j);
    }
  }

  /**
   With covered rejections the collector reports as few as any assignment could exactly when the aborts it
   spends on covered ones are not missed: it excuses as many of the others as it would without them.
   */
  lemma FewestUnlessWasted(allow: seq<AllowlistEntry>, log: seq<Event>)
    requires MonotoneClock(Beats(log))
    ensures
      var left := Rejections(log) - Covered(allow, log);
      (forall m :: Matching(Beats(log), m) && m.Keys !! Covered(allow, log) ==> |ReportedRejections(allow, log)| <= |left| - |m|)
      <==> |SuppressedFrom(Beats(log), 0) - Covered(allow, log)| == |SuppressedFrom(UncoveredBeats(allow, log), 0)|
  {
    hide ReportedRejections, Suppressed, Covered, MonotoneClock, Matching, UncoveredBeats, SuppressedFrom, Rejections;
    var covered, beats := Covered(allow, log), UncoveredBeats(allow, log);
    var left, spent := Rejections(log) - covered, SuppressedFrom(Beats(log), 0) - covered;
    RejectionsAreExcusedOrReported(allow, log);
    SuppressedAreRejections(log);
    assert ReportedRejections(allow, log) == left - spent && spent <= left;
    UncoveredClock(allow, log);
    var best := GreedyIsAMatching(beats);
    UncoveredMatching(allow, log, best);
    assert |best| == |best.Keys|;
    var kept := SpentOnUncovered(allow, log);
    GreedyIsOptimal(beats, kept);
    assert |kept| == |kept.Keys|;
    forall m | Matching(Beats(log), m) && m.Keys !! covered
      ensures |m| <= |SuppressedFrom(beats, 0)|
    {
      UncoveredMatching(allow, log, m);
      GreedyIsOptimal(beats, m);
    }
  }

  /** What the collector spends on rejections that no entry covers is an assignment of its own. */
  lemma SpentOnUncovered(allow: seq<AllowlistEntry>, log: seq<Event>) returns (m: map<nat, nat>)
    ensures Matching(UncoveredBeats(allow, log), m) && m.Keys == SuppressedFrom(Beats(log), 0) - Covered(allow, log)
  {
    hide Covered, SuppressedFrom, UncoveredBeats;
    var all := GreedyIsAMatching(Beats(log));
    m := all - Covered(allow, log);
    UncoveredMatching(allow, log, m);
  }

  /** An abort spent on a covered rejection can be missed by a later one, which an assignment would have excused. */
  lemma CoveredRejectionWastesAnAbort(entry: AllowlistEntry, log: seq<Event>, m: map<nat, nat>)
    requires entry.kind == ConsoleErrors && entry.expiresAt == Some(10)
    requires entry.matches(FETCH_REJECTION) && entry.matchesPage.Some?
    requires entry.matchesPage.value("a") && !entry.matchesPage.value("b")
    requires log == [RequestFailed(0, "GET", "u", Some(SERVER_FN_PATH_PREFIX), Some("ERR_ABORTED"), "a", 0),
                     Console("error", FETCH_REJECTION, "", "a", 1), Console("error", FETCH_REJECTION, "", "b", 2)]
    requires m == map[2 := 0]
    ensures MonotoneClock(Beats(log)) && Matching(Beats(log), m) && m.Keys !! Covered([entry], log)
    ensures ReportedRejections([entry], log) == {2} && Rejections(log) - Covered([entry], log) == {2}
  {
    var beats := Beats(log);
    WastingBeats(log);
    assert Suppressed(beats, 1) && !Suppressed(beats, 2) by { WastedAbort(beats); }
    hide Suppressed, Beats, ReportedRejections;
    assert EntryMatches(entry, ConsoleErrors, FETCH_REJECTION, None, "a", 1);
    assert [entry][0] == entry;
    assert Covered([entry], log) == {1};
    assert Rejections(log) == {1, 2};
    assert SuppressedFrom(beats, 0) == {1};
    RejectionsAreExcusedOrReported([entry], log);
  }

  lemma WastingBeats(log: seq<Event>)
    requires log == [RequestFailed(0, "GET", "u", Some(SERVER_FN_PATH_PREFIX), Some("ERR_ABORTED"), "a", 0),
                     Console("error", FETCH_REJECTION, "", "a", 1), Console("error", FETCH_REJECTION, "", "b", 2)]
    ensures Beats(log) == [AbortMatching.Abort(0), Echo(1), Echo(2)]
  {
    assert Includes("ERR_ABORTED", "ERR_ABORTED");
    assert IsFetchRejection(FETCH_REJECTION);
  }

  lemma WastedAbort(beats: seq<Beat>)
    requires beats == [AbortMatching.Abort(0), Echo(1), Echo(2)]
    ensures Suppressed(beats, 1) && !Suppressed(beats, 2)
  {
    assert Unspent(beats, 1) == [0];
    assert FirstFresh(beats, [0], 1) == 0;
    assert Unspent(beats, 2) == [];
  }
}
