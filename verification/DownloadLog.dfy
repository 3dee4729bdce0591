/**
 Download accounting: listeners count finished requests while an asynchronous report waits until
 nothing is in flight and every size is known. Events and resumptions interleave in any order.
 */
module DownloadLog {
  import opened Wrappers

  type Id = nat

  datatype Event = Requested(request: Id) | Finished(request: Id) | Failed(request: Id)

  /** The outcome of a size lookup; Lost when the lookup failed. */
  datatype Size = Pending | Sized(bodyBytes: nat, headerBytes: nat) | Lost

  datatype Download = Download(request: Id, size: Size)

  datatype ReportError = Incomplete | NoBytes

  /**
   Where the report stands: not yet resumed after the network went idle, waiting to be woken, woken and
   due to look again, waiting for the first `n` sizes, or settled.
   */
  datatype Phase = Idle | Parked | Woken | Collecting(n: nat) | Done(result: Result<nat, ReportError>)

  // ----- reading the history

  ghost predicate Ended(log: seq<Event>, r: Id) {
    Finished(r) in log || Failed(r) in log
  }

  /** Every request that was observed in any way. */
  ghost predicate Observed(log: seq<Event>, r: Id) {
    Requested(r) in log || Ended(log, r)
  }

  /** The finished requests in order. */
  ghost function FinishedIn(log: seq<Event>): seq<Id> {
    if log == [] then []
    else
      var before, last := FinishedIn(log[..|log| - 1]), log[|log| - 1];
      if last.Finished? then before + [last.request] else before
  }

  /** A request ends once at most, and it does not begin after it ended. */
  ghost predicate Orderly(log: seq<Event>) {
    && (forall i, j :: 0 <= i < j < |log| && log[i].request == log[j].request ==> log[i].Requested? && !log[j].Requested?)
  }

  lemma {:induction false} FinishedMembers(log: seq<Event>, r: Id)
    ensures r in FinishedIn(log) <==> Finished(r) in log
  {
    if log != [] {
      var before, last := log[..|log| - 1], log[|log| - 1];
      FinishedMembers(before, r);
      assert log == before + [last];
    }
  }

  ghost predicate Distinct(ids: seq<Id>) {
    forall i, j :: 0 <= i < j < |ids| ==> ids[i] != ids[j]
  }

  lemma {:induction false} FinishedOnce(log: seq<Event>)
    requires Orderly(log)
    ensures Distinct(FinishedIn(log))
  {
    if log != [] {
      var before, last := log[..|log| - 1], log[|log| - 1];
      FinishedOnce(before);
      if last.Finished? {
        FinishedMembers(before, last.request);
        assert forall i :: 0 <= i < |before| && before[i].request == last.request ==> log[i].Requested?;
      }
    }
  }

  // ----- totals

  function Total(downloads: seq<Download>): nat {
    if downloads == [] then 0
    else
      var last := downloads[|downloads| - 1];
      Total(downloads[..|downloads| - 1]) + if last.size.Sized? then last.size.bodyBytes + last.size.headerBytes else 0
  }

  predicate AllSettled(downloads: seq<Download>) {
    forall i :: 0 <= i < |downloads| ==> !downloads[i].size.Pending?
  }

  predicate SomeLost(downloads: seq<Download>) {
    exists i :: 0 <= i < |downloads| && downloads[i].size.Lost?
  }

  /** The body and header bytes of a set of requests, given the size of each, whatever order they are added in. */
  ghost function TotalOf(requests: set<Id>, size: map<Id, Size>): nat
    requires forall r :: r in requests ==> r in size && size[r].Sized?
  {
    if requests == {} then 0
    else
      var r :| r in requests;
      size[r].bodyBytes + size[r].headerBytes + TotalOf(requests - {r}, size)
  }

  /** Any element can be taken out of the total first. */
  lemma {:induction false} TakeOneOut(requests: set<Id>, size: map<Id, Size>, r: Id)
    requires (forall q :: q in requests ==> q in size && size[q].Sized?) && r in requests
    ensures TotalOf(requests, size) == size[r].bodyBytes + size[r].headerBytes + TotalOf(requests - {r}, size)
    decreases |requests|
  {
    var first :| first in requests
      && TotalOf(requests, size) == size[first].bodyBytes + size[first].headerBytes + TotalOf(requests - {first}, size);
    if first != r {
      TakeOneOut(requests - {first}, size, r);
      TakeOneOut(requests - {r}, size, first);
      assert requests - {first} - {r} == requests - {r} - {first};
    }
  }

  ghost function RequestsOf(downloads: seq<Download>): set<Id> {
    set i | 0 <= i < |downloads| :: downloads[i].request
  }

  /** Over distinct requests the running total counts every request once. */
  lemma {:induction false} TotalCountsEachOnce(downloads: seq<Download>, size: map<Id, Size>)
    requires forall i, j :: 0 <= i < j < |downloads| ==> downloads[i].request != downloads[j].request
    requires forall i :: 0 <= i < |downloads| ==> downloads[i].request in size && size[downloads[i].request] == downloads[i].size
    requires forall i :: 0 <= i < |downloads| ==> downloads[i].size.Sized?
    ensures Total(downloads) == TotalOf(RequestsOf(downloads), size)
  {
    if downloads != [] {
      var n := |downloads| - 1;
      var before, last := downloads[..n], downloads[n];
      TotalCountsEachOnce(before, size);
      assert RequestsOf(downloads) == RequestsOf(before) + {last.request};
      assert RequestsOf(downloads) - {last.request} == RequestsOf(before);
      TakeOneOut(RequestsOf(downloads), size, last.request);
    }
  }

  function Requests(downloads: seq<Download>): (ids: seq<Id>)
    ensures |ids| == |downloads|
    ensures forall i :: 0 <= i < |downloads| ==> ids[i] == downloads[i].request
  {
    seq(|downloads|, i requires 0 <= i < |downloads| => downloads[i].request)
  }

  /** A request is in flight when it was requested and has not ended. */
  ghost predicate InFlight(log: seq<Event>, r: Id) {
    Requested(r) in log && !Ended(log, r)
  }

  ghost predicate AnyFailed(log: seq<Event>) {
    exists r :: Failed(r) in log
  }

  /** A total that can be reported: nothing in flight or failed, every observed request counted with a known size. */
  ghost predicate Accounted(log: seq<Event>, downloads: seq<Download>, bytes: nat) {
    && !AnyFailed(log)
    && (forall r :: Observed(log, r) ==> Finished(r) in log)
    && Distinct(Requests(downloads)) && (forall r :: r in Requests(downloads) <==> Finished(r) in log)
    && AllSettled(downloads) && !SomeLost(downloads)
    && bytes == Total(downloads) && bytes > 0
  }

  /** The listeners' state is the history's. */
  ghost predicate Tracks(log: seq<Event>, downloads: seq<Download>, inFlight: set<Id>, failed: bool) {
    && Orderly(log)
    && (forall r :: r in inFlight <==> InFlight(log, r))
    && Requests(downloads) == FinishedIn(log)
    && (failed <==> AnyFailed(log))
  }

  lemma TracksRequested(log: seq<Event>, downloads: seq<Download>, inFlight: set<Id>, failed: bool, r: Id)
    requires Tracks(log, downloads, inFlight, failed) && !Observed(log, r)
    ensures Tracks(log + [Requested(r)], downloads, inFlight + {r}, failed)
  {
  }

  lemma TracksFinished(log: seq<Event>, downloads: seq<Download>, inFlight: set<Id>, failed: bool, r: Id)
    requires Tracks(log, downloads, inFlight, failed) && !Ended(log, r)
    ensures Tracks(log + [Finished(r)], downloads + [Download(r, Pending)], inFlight - {r}, failed)
  {
  }

  lemma TracksFailed(log: seq<Event>, downloads: seq<Download>, inFlight: set<Id>, failed: bool, r: Id)
    requires Tracks(log, downloads, inFlight, failed) && !Ended(log, r)
    ensures Tracks(log + [Failed(r)], downloads, inFlight - {r}, true)
  {
  }

  // ----- the log

  class Log {
    var downloads: seq<Download>
    var inFlight: set<Id>
    var failed: bool
    var phase: Phase
    /** What the listeners have been told while they were attached. */
    ghost var history: seq<Event>

    /** The listeners' state is the history's, and a parked report always has something to wait for. */
    ghost predicate Valid()
      reads this
    {
      && Tracks(history, downloads, inFlight, failed)
      && (phase.Parked? ==> inFlight != {})
      && (phase.Collecting? ==> phase.n <= |downloads|)
      && (phase.Done? && phase.result.Ok? ==> Accounted(history, downloads, phase.result.value))
    }

    constructor ()
      ensures Valid() && history == [] && phase == Idle
    {
      downloads, inFlight, failed, phase, history := [], {}, false, Idle, [];
      new;
      assert Requests(downloads) == [];
    }

    method OnRequest(request: Id)
      requires Valid() && !Observed(history, request)
      modifies this
      ensures Valid() && phase == old(phase)
      ensures history == if phase.Done? then old(history) else old(history) + [Requested(request)]
    {
      if phase.Done? { return; }
      hide Tracks;
      TracksRequested(history, downloads, inFlight, failed, request);
      history := history + [Requested(request)];
      inFlight := inFlight + {request};
    }

    /** Counts the request once, and wakes a parked report. */
    method OnFinished(request: Id)
      requires Valid() && !Ended(history, request)
      modifies this
      ensures Valid() && phase == if old(phase).Parked? then Woken else old(phase)
      ensures history == if phase.Done? then old(history) else old(history) + [Finished(request)]
      ensures downloads == if phase.Done? then old(downloads) else old(downloads) + [Download(request, Pending)]
    {
      if phase.Done? { return; }
      hide Tracks;
      TracksFinished(history, downloads, inFlight, failed, request);
      history := history + [Finished(request)];
      downloads := downloads + [Download(request, Pending)];
      inFlight := inFlight - {request};
      if phase.Parked? { phase := Woken; }
    }

    method OnFailed(request: Id)
      requires Valid() && !Ended(history, request)
      modifies this
      ensures Valid() && phase == if old(phase).Parked? then Woken else old(phase)
      ensures history == if phase.Done? then old(history) else old(history) + [Failed(request)]
    {
      if phase.Done? { return; }
      hide Tracks;
      TracksFailed(history, downloads, inFlight, failed, request);
      history := history + [Failed(request)];
      failed := true;
      inFlight := inFlight - {request};
      if phase.Parked? { phase := Woken; }
    }

    /** A size lookup that was still open comes back, or fails. */
    method OnSize(index: nat, size: Size)
      requires Valid() && index < |downloads| && downloads[index].size.Pending? && !size.Pending?
      modifies this`downloads
      ensures Valid() && downloads == old(downloads)[index := Download(old(downloads)[index].request, size)]
    {
      downloads := downloads[index := downloads[index].(size := size)];
      assert Requests(downloads) == Requests(old(downloads));
    }

    /** Whether the report can go on: it is not parked, and the sizes it waits for are known. */
    predicate Runnable()
      reads this
    {
      match phase
      case Parked => false
      case Done(_) => false
      case Collecting(n) => n <= |downloads| && AllSettled(downloads[..n])
      case _ => true
    }

    /**
     Runs the report from one `await` to the next. A total is returned only when it accounts for every
     request observed so far; requests that came meanwhile send the report round again.
     */
    method Resume()
      requires Valid() && Runnable()
      modifies this`phase
      ensures Valid()
      ensures phase.Done? <==> old(phase).Collecting? && inFlight == {} && old(phase).n == |downloads|
      ensures phase.Done? ==>
        var failure, lost := exists r :: Failed(r) in history, exists i :: 0 <= i < |downloads| && downloads[i].size == Lost;
        phase.result == if failure || lost then Err(Incomplete)
                        else if Total(downloads) == 0 then Err(NoBytes) else Ok(Total(downloads))
      ensures !phase.Done? ==> phase == if inFlight != {} then Parked else Collecting(|downloads|)
    {
      if phase.Collecting? && inFlight == {} && phase.n == |downloads| {
        assert downloads[..phase.n] == downloads;
        if failed || SomeLost(downloads) {
          phase := Done(Err(Incomplete));
        } else if Total(downloads) == 0 {
          phase := Done(Err(NoBytes));
        } else {
          EverythingCounted(history, downloads);
          phase := Done(Ok(Total(downloads)));
        }
        return;
      }
      phase := if inFlight != {} then Parked else Collecting(|downloads|);
    }

    /** With nothing in flight and every size known, the report cannot be stuck: it settles in two resumptions at most. */
    method Settle()
      requires Valid() && inFlight == {} && AllSettled(downloads)
      modifies this`phase
      ensures Valid() && phase.Done?
    {
      if phase.Done? { return; }
      assert phase.Collecting? ==> AllSettled(downloads[..phase.n]);
      Resume();
      if !phase.Done? {
        assert downloads[..phase.n] == downloads;
        Resume();
      }
    }
  }

  /** With nothing in flight and no failure, every observed request has finished and is counted once. */
  lemma EverythingCounted(log: seq<Event>, downloads: seq<Download>)
    requires Orderly(log) && Requests(downloads) == FinishedIn(log) && !AnyFailed(log)
    requires forall r :: !InFlight(log, r)
    ensures forall r :: Observed(log, r) ==> Finished(r) in log
    ensures Distinct(Requests(downloads)) && forall r :: r in Requests(downloads) <==> Finished(r) in log
  {
    FinishedOnce(log);
    forall r: Id
      ensures r in Requests(downloads) <==> Finished(r) in log
      ensures Observed(log, r) ==> Finished(r) in log
    {
      FinishedMembers(log, r);
      assert !InFlight(log, r);
    }
  }

  /** A returned total means that the size of every observed request is known, and is the sum of them all. */
  lemma AccountedIsTheSum(log: seq<Event>, downloads: seq<Download>, bytes: nat, observed: set<Id>, size: map<Id, Size>)
    requires Accounted(log, downloads, bytes)
    requires forall r :: r in observed <==> Observed(log, r)
    requires forall i :: 0 <= i < |downloads| ==> downloads[i].request in size && size[downloads[i].request] == downloads[i].size
    ensures forall r :: Observed(log, r) ==> r in size && size[r].Sized?
    ensures bytes == TotalOf(observed, size) && bytes > 0
  {
    var ids := Requests(downloads);
    forall r | r in observed
      ensures r in RequestsOf(downloads)
    {
      assert r in ids;
    }
    forall r | r in RequestsOf(downloads)
      ensures r in observed
    {
      assert r in ids;
    }
    assert observed == RequestsOf(downloads);
    TotalCountsEachOnce(downloads, size);
  }
}
