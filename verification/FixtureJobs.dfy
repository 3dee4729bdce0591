/**
 What a spec may conclude from a job queue: a protocol between a worker that runs, retries and
 continues jobs, and a reader that takes atomic snapshots of the queue.
 */
module FixtureJobs {
  import opened Sequences
  import opened Wrappers

  type Id = nat

  datatype State = Waiting | Delayed | Prioritized | Active | WaitingChildren | Completed | Failed

  predicate Unfinished(s: State) { s in {Waiting, Delayed, Prioritized, Active, WaitingChildren} }

  /** `denial` is the gate's deny code when the return value is a refusal. */
  datatype Job = Job(
    name: string,
    state: State,
    denial: Option<string>,
    failedReason: string,
    attemptsMade: nat,
    maxAttempts: nat,
    processedOn: Option<nat>,
    finishedOn: Option<nat>)

  /**
   The queue, the worker's clock, and what happened so far: for every job ever added its name and the
   first job of its chain, and for every job ever started the time of its first start.
   */
  datatype Queue = Queue(
    jobs: map<Id, Job>,
    clock: nat,
    names: map<Id, string>,
    first: map<Id, Id>,
    firstStart: map<Id, nat>)

  const EMPTY := Queue(map[], 1, map[], map[], map[])

  // ----- the worker

  datatype Step =
    | Add(id: Id, name: string, state: State, maxAttempts: nat)
    | Continue(parent: Id, id: Id, state: State, maxAttempts: nat)
    | Promote(id: Id)
    | Start(id: Id)
    | AwaitChildren(id: Id)
    | ChildrenDone(id: Id)
    | Stall(id: Id)
    | Complete(id: Id, denial: Option<string>)
    | Retry(id: Id, reason: string)
    | Fail(id: Id, reason: string)
    | Evict(id: Id)
    | Tick(now: nat)

  predicate In(q: Queue, id: Id, states: set<State>) {
    id in q.jobs && q.jobs[id].state in states
  }

  /** A continuation is only ever enqueued by a job that is still running. */
  predicate Enabled(q: Queue, step: Step) {
    match step
    case Add(id, _, state, _) => id !in q.names && state in {Waiting, Delayed, Prioritized}
    case Continue(parent, id, state, _) => In(q, parent, {Active}) && id !in q.names && state in {Waiting, Delayed, Prioritized}
    case Promote(id) => In(q, id, {Delayed})
    case Start(id) => In(q, id, {Waiting, Prioritized})
    case AwaitChildren(id) => In(q, id, {Active})
    case ChildrenDone(id) => In(q, id, {WaitingChildren})
    case Stall(id) => In(q, id, {Active})
    case Complete(id, _) => In(q, id, {Active})
    case Retry(id, _) => In(q, id, {Active}) && q.jobs[id].attemptsMade + 1 < q.jobs[id].maxAttempts
    case Fail(id, _) => In(q, id, {Active})
    case Evict(id) => In(q, id, {Completed, Failed})
    case Tick(now) => q.clock <= now
  }

  function NewJob(name: string, state: State, maxAttempts: nat): Job {
    Job(name, state, None, "", 0, maxAttempts, None, None)
  }

  function Move(q: Queue, id: Id, job: Job): Queue {
    q.(jobs := q.jobs[id := job])
  }

  function After(q: Queue, step: Step): Queue
    requires Enabled(q, step)
  {
    match step
    case Add(id, name, state, maxAttempts) =>
      Move(q, id, NewJob(name, state, maxAttempts)).(names := q.names[id := name], first := q.first[id := id])
    case Continue(parent, id, state, maxAttempts) =>
      var name := q.jobs[parent].name;
      Move(q, id, NewJob(name, state, maxAttempts)).(
        names := q.names[id := name],
        first := q.first[id := if parent in q.first then q.first[parent] else parent])
    case Promote(id) => Move(q, id, q.jobs[id].(state := Waiting))
    case Start(id) =>
      Move(q, id, q.jobs[id].(state := Active, processedOn := Some(q.clock))).(
        firstStart := if id in q.firstStart then q.firstStart else q.firstStart[id := q.clock])
    case AwaitChildren(id) => Move(q, id, q.jobs[id].(state := WaitingChildren))
    case ChildrenDone(id) => Move(q, id, q.jobs[id].(state := Waiting))
    case Stall(id) => Move(q, id, q.jobs[id].(state := Waiting))
    case Complete(id, denial) => Move(q, id, q.jobs[id].(state := Completed, denial := denial, finishedOn := Some(q.clock)))
    case Retry(id, reason) =>
      Move(q, id, q.jobs[id].(state := Delayed, failedReason := reason, attemptsMade := q.jobs[id].attemptsMade + 1))
    case Fail(id, reason) =>
      Move(q, id, q.jobs[id].(state := Failed, failedReason := reason, attemptsMade := q.jobs[id].attemptsMade + 1,
                              finishedOn := Some(q.clock)))
    case Evict(id) => q.(jobs := q.jobs - {id})
    case Tick(now) => q.(clock := now)
  }

  ghost predicate Runs(q: Queue, steps: seq<Step>)
    decreases |steps|
  {
    steps == [] || (Enabled(q, steps[0]) && Runs(After(q, steps[0]), steps[1..]))
  }

  ghost function Final(q: Queue, steps: seq<Step>): Queue
    requires Runs(q, steps)
    decreases |steps|
  {
    if steps == [] then q else Final(After(q, steps[0]), steps[1..])
  }

  // ----- what every reachable queue looks like

  ghost predicate JobSound(q: Queue, id: Id)
    requires id in q.jobs
  {
    var job := q.jobs[id];
    && id in q.names && id in q.first && job.name == q.names[id]
    && (job.finishedOn.Some? <==> !Unfinished(job.state))
    && (job.state == Active ==> id in q.firstStart && job.processedOn.Some?)
    && (!Unfinished(job.state) ==> id in q.firstStart && job.processedOn.Some?)
    && (job.finishedOn.Some? ==> 0 < job.finishedOn.value <= q.clock)
    && (job.finishedOn.Some? ==> q.first[id] in q.firstStart && q.firstStart[q.first[id]] <= job.finishedOn.value)
    && (job.processedOn.Some? ==> id in q.firstStart && q.firstStart[id] <= job.processedOn.value <= q.clock)
  }

  /** A chain has one first job, of the same name, and that job was started before any other was added. */
  ghost predicate ChainSound(q: Queue, id: Id)
    requires id in q.first
  {
    var r := q.first[id];
    && r in q.first && q.first[r] == r && id in q.names && r in q.names && q.names[id] == q.names[r]
    && (id != r ==> r in q.firstStart)
  }

  ghost predicate Sound(q: Queue) {
    && q.clock > 0
    && (forall id :: id in q.jobs ==> JobSound(q, id))
    && (forall id :: id in q.first ==> ChainSound(q, id))
    && q.names.Keys == q.first.Keys
    && (forall id :: id in q.firstStart ==> q.firstStart[id] <= q.clock && id in q.names)
  }

  lemma EmptyIsSound()
    ensures Sound(EMPTY)
  {
  }

  lemma AddKeepsSound(q: Queue, step: Step)
    requires Sound(q) && Enabled(q, step) && (step.Add? || step.Continue?)
    ensures Sound(After(q, step))
  {
    var q' := After(q, step);
    assert step.Continue? ==> JobSound(q, step.parent) && ChainSound(q, step.parent);
    forall id | id in q'.jobs
      ensures JobSound(q', id)
    {
      if id != step.id { assert JobSound(q, id); }
    }
    forall id | id in q'.first
      ensures ChainSound(q', id)
    {
      if id != step.id { assert ChainSound(q, id); }
    }
  }

  /** A job that a step leaves alone stays sound. */
  lemma JobPersists(q: Queue, q': Queue, id: Id)
    requires id in q.jobs && JobSound(q, id) && id in q'.jobs && q'.jobs[id] == q.jobs[id]
    requires q'.names == q.names && q'.first == q.first && q.clock <= q'.clock
    requires forall other :: other in q.firstStart ==> other in q'.firstStart && q'.firstStart[other] == q.firstStart[other]
    ensures JobSound(q', id)
  {
  }

  lemma WorkedJobSound(q: Queue, step: Step)
    requires Sound(q) && Enabled(q, step) && !step.Add? && !step.Continue? && !step.Tick? && !step.Evict?
    ensures JobSound(After(q, step), step.id)
  {
    assert JobSound(q, step.id) && ChainSound(q, step.id);
  }

  lemma WorkKeepsJobs(q: Queue, step: Step)
    requires Sound(q) && Enabled(q, step) && !step.Add? && !step.Continue? && !step.Tick? && !step.Evict?
    ensures forall id :: id in After(q, step).jobs ==> JobSound(After(q, step), id)
  {
    var q' := After(q, step);
    WorkedJobSound(q, step);
    assert JobSound(q, step.id);
    forall id | id in q'.jobs
      ensures JobSound(q', id)
    {
      hide After, JobSound;
      if id != step.id { JobPersists(q, q', id); }
    }
  }

  lemma WorkKeepsSound(q: Queue, step: Step)
    requires Sound(q) && Enabled(q, step) && !step.Add? && !step.Continue? && !step.Tick? && !step.Evict?
    ensures Sound(After(q, step))
  {
    var q' := After(q, step);
    WorkKeepsJobs(q, step);
    assert JobSound(q, step.id);
    hide JobSound;
    forall id | id in q'.first
      ensures ChainSound(q', id)
    {
      assert ChainSound(q, id);
    }
  }

  lemma StepKeepsSound(q: Queue, step: Step)
    requires Sound(q) && Enabled(q, step)
    ensures Sound(After(q, step))
  {
    if step.Add? || step.Continue? {
      AddKeepsSound(q, step);
    } else if !step.Tick? && !step.Evict? {
      WorkKeepsSound(q, step);
    } else {
      var q' := After(q, step);
      forall id | id in q'.jobs
        ensures JobSound(q', id)
      {
        assert JobSound(q, id);
      }
      forall id | id in q'.first
        ensures ChainSound(q', id)
      {
        assert ChainSound(q, id);
      }
    }
  }

  lemma {:induction false} RunKeepsSound(q: Queue, steps: seq<Step>)
    requires Sound(q) && Runs(q, steps)
    ensures Sound(Final(q, steps))
    decreases |steps|
  {
    if steps != [] {
      StepKeepsSound(q, steps[0]);
      RunKeepsSound(After(q, steps[0]), steps[1..]);
    }
  }

  /** Every queue that a worker can bring about from an empty one is sound. */
  lemma ReachableIsSound(steps: seq<Step>)
    requires Runs(EMPTY, steps)
    ensures Sound(Final(EMPTY, steps))
  {
    EmptyIsSound();
    RunKeepsSound(EMPTY, steps);
  }

  // ----- the reads

  /** An atomic read of the jobs in some states, in whatever order the queue lists them. */
  ghost predicate Lists(q: Queue, unfinished: bool, listing: seq<(Id, Job)>) {
    && (forall i :: 0 <= i < |listing| ==>
          var (id, job) := listing[i];
          id in q.jobs && q.jobs[id] == job && (Unfinished(job.state) <==> unfinished))
    && (forall id :: id in q.jobs && (Unfinished(q.jobs[id].state) <==> unfinished) ==> (id, q.jobs[id]) in listing)
    && (forall i, j :: 0 <= i < j < |listing| ==> listing[i].0 != listing[j].0)
  }

  /** `state` is read after the listing and may have changed by then; a reason is given when there is one. */
  datatype UnfinishedJob = UnfinishedJob(jobId: Id, state: Option<State>, attemptsMade: nat, failedReason: Option<string>)

  /** The jobs of one name among those that can still run. */
  function UnfinishedFixtureJobs(listing: seq<(Id, Job)>, stateOf: Id -> Option<State>, name: string): seq<UnfinishedJob> {
    if listing == [] then []
    else
      var rest, (id, job) := UnfinishedFixtureJobs(listing[1..], stateOf, name), listing[0];
      if job.name != name then rest
      else
        [UnfinishedJob(id, stateOf(id), job.attemptsMade, if job.failedReason != "" then Some(job.failedReason) else None)]
        + rest
  }

  /** The listed jobs of a name, in order. */
  ghost function Named(listing: seq<(Id, Job)>, name: string): (named: seq<(Id, Job)>)
    ensures forall i :: 0 <= i < |named| ==> named[i] in listing && named[i].1.name == name
  {
    if listing == [] then []
    else if listing[0].1.name == name then [listing[0]] + Named(listing[1..], name)
    else Named(listing[1..], name)
  }

  /** Each listed job of the name is answered in order, with what its record says. */
  lemma {:induction false} UnfinishedAreNamed(listing: seq<(Id, Job)>, stateOf: Id -> Option<State>, name: string)
    ensures
      var jobs, named := UnfinishedFixtureJobs(listing, stateOf, name), Named(listing, name);
      && |jobs| == |named|
      && forall i :: 0 <= i < |jobs| ==>
           && jobs[i].jobId == named[i].0 && jobs[i].state == stateOf(named[i].0)
           && jobs[i].attemptsMade == named[i].1.attemptsMade
           && (if named[i].1.failedReason == "" then jobs[i].failedReason.None?
               else jobs[i].failedReason == Some(named[i].1.failedReason))
  {
    if listing != [] { UnfinishedAreNamed(listing[1..], stateOf, name); }
  }

  lemma {:induction false} NoneUnfinished(listing: seq<(Id, Job)>, stateOf: Id -> Option<State>, name: string)
    ensures UnfinishedFixtureJobs(listing, stateOf, name) == [] <==> forall i :: 0 <= i < |listing| ==> listing[i].1.name != name
  {
    if listing != [] {
      NoneUnfinished(listing[1..], stateOf, name);
      assert listing == [listing[0]] + listing[1..];
    }
  }

  datatype Verdict = Ran | Denied(code: string) | FailedForGood(reason: string)

  datatype Outcome = Outcome(jobId: Id, verdict: Verdict, startedAt: nat, finishedAt: nat)

  /**
   How the worker left a job, from a view of the job and the state read after it; None while it may
   still run, and when the job is gone by the time its state is read.
   */
  function OutcomeOf(id: Id, job: Job, now: Option<State>): Option<Outcome> {
    if job.finishedOn.None? || job.finishedOn.value == 0 then None
    else
      var started := if job.processedOn.Some? then job.processedOn.value else job.finishedOn.value;
      if now == Some(Failed) then Some(Outcome(id, FailedForGood(job.failedReason), started, job.finishedOn.value))
      else if now != Some(Completed) then None
      else
        var verdict := if job.denial.Some? then Denied(job.denial.value) else Ran;
        Some(Outcome(id, verdict, started, job.finishedOn.value))
  }

  function StateOf(q: Queue, id: Id): Option<State> {
    if id in q.jobs then Some(q.jobs[id].state) else None
  }

  function SettledFixtureJobOutcome(q: Queue, id: Id): Option<Outcome> {
    if id in q.jobs then OutcomeOf(id, q.jobs[id], StateOf(q, id)) else None
  }

  // ----- the end of a chain

  /** No job of the chain that the queue still holds can run again. */
  ghost predicate ChainOver(q: Queue, r: Id) {
    forall id :: id in q.jobs && id in q.first && q.first[id] == r ==> !Unfinished(q.jobs[id].state)
  }

  ghost function ChainOf(q: Queue, r: Id): set<Id> {
    set id | id in q.first && q.first[id] == r
  }

  /** The job that a step runs, moves or adds to a chain, the removal of finished jobs aside. */
  predicate Touches(step: Step, id: Id) {
    match step
    case Add(id', _, _, _) => id' == id
    case Continue(parent, id', _, _) => parent == id || id' == id
    case Evict(_) => false
    case Tick(_) => false
    case _ => step.id == id
  }

  /** Once a chain is over, a step neither touches a job of it nor adds one to it. */
  lemma OverStaysOver(q: Queue, step: Step, r: Id)
    requires Sound(q) && Enabled(q, step) && ChainOver(q, r) && r in q.names
    ensures ChainOver(After(q, step), r) && ChainOf(After(q, step), r) == ChainOf(q, r)
    ensures forall id :: id in ChainOf(q, r) ==> !Touches(step, id)
  {
    OverIsUntouched(q, step, r);
    ChainGrowsByTouch(q, step, r);
  }

  lemma OverIsUntouched(q: Queue, step: Step, r: Id)
    requires Sound(q) && Enabled(q, step) && ChainOver(q, r)
    ensures forall id :: id in ChainOf(q, r) ==> !Touches(step, id)
  {
    hide After;
  }

  /** What a step changes besides the job it concerns. */
  lemma OnlyOneJobMoves(q: Queue, step: Step)
    requires Enabled(q, step)
    ensures forall id :: id in After(q, step).jobs && !Touches(step, id) ==> id in q.jobs && After(q, step).jobs[id] == q.jobs[id]
    ensures !step.Add? && !step.Continue? ==> After(q, step).first == q.first
  {
  }

  /** Where the first job of a chain is recorded, and that a step records it for the job it adds only. */
  lemma FirstsAfter(q: Queue, step: Step)
    requires Sound(q) && Enabled(q, step)
    ensures After(q, step).first
            == if step.Add? then q.first[step.id := step.id]
               else if step.Continue? then q.first[step.id := q.first[step.parent]]
               else q.first
    ensures step.Add? || step.Continue? ==> step.id !in q.names && step.id !in q.first
  {
    assert step.Continue? ==> JobSound(q, step.parent);
  }

  lemma ChainGrowsByTouch(q: Queue, step: Step, r: Id)
    requires Sound(q) && Enabled(q, step) && ChainOver(q, r) && r in q.names
    requires forall id :: id in ChainOf(q, r) ==> !Touches(step, id)
    ensures ChainOver(After(q, step), r) && ChainOf(After(q, step), r) == ChainOf(q, r)
  {
    var q' := After(q, step);
    OnlyOneJobMoves(q, step);
    FirstsAfter(q, step);
    assert step.Continue? ==> step.parent in q.first by {
      assert step.Continue? ==> JobSound(q, step.parent);
    }
    hide After, Sound, JobSound, Enabled, ChainSound, Unfinished;
    assert ChainOf(q', r) == ChainOf(q, r) by {
      assert step.Continue? ==> step.parent !in ChainOf(q, r);
    }
    assert forall id :: id in q'.first && q'.first[id] == r ==> id in ChainOf(q, r);
  }

  /** The chain stays as it is over every further run, and no step of it concerns one of its jobs. */
  lemma {:induction false} OverForGood(q: Queue, steps: seq<Step>, r: Id)
    requires Sound(q) && Runs(q, steps) && ChainOver(q, r) && r in q.names
    ensures ChainOver(Final(q, steps), r) && ChainOf(Final(q, steps), r) == ChainOf(q, r)
    ensures forall k, id :: 0 <= k < |steps| && id in ChainOf(q, r) ==> !Touches(steps[k], id)
    decreases |steps|
  {
    if steps != [] {
      OverStaysOver(q, steps[0], r);
      StepKeepsSound(q, steps[0]);
      NamesStay(q, steps[0], r);
      OverForGood(After(q, steps[0]), steps[1..], r);
      assert steps == [steps[0]] + steps[1..];
    }
  }

  lemma NamesStay(q: Queue, step: Step, id: Id)
    requires Enabled(q, step) && id in q.names
    ensures id in After(q, step).names && After(q, step).names[id] == q.names[id]
  {
  }

  /** What a later queue still says of a job: its name, its chain, its first start, and its end once it is finished. */
  ghost predicate Remembers(q: Queue, q': Queue) {
    && (forall id :: id in q.names ==> id in q'.names && q'.names[id] == q.names[id])
    && (forall id :: id in q.first ==> id in q'.first && q'.first[id] == q.first[id])
    && (forall id :: id in q.firstStart ==> id in q'.firstStart && q'.firstStart[id] == q.firstStart[id])
    && (forall id :: id in q.names && id !in q.jobs ==> id !in q'.jobs)
    && (forall id :: id in q.jobs && id in q'.jobs && !Unfinished(q.jobs[id].state) ==> q'.jobs[id] == q.jobs[id])
  }

  lemma StepRemembers(q: Queue, step: Step)
    requires Sound(q) && Enabled(q, step)
    ensures Remembers(q, After(q, step))
  {
    assert forall id :: id in q.jobs ==> id in q.names by { assert forall id :: id in q.jobs ==> JobSound(q, id); }
    FinishedJobsStay(q, step);
    FirstsAfter(q, step);
    RecordsStay(q, step);
    hide After, Sound, Enabled;
  }

  lemma RecordsStay(q: Queue, step: Step)
    requires Enabled(q, step)
    ensures
      var q' := After(q, step);
      && (forall id :: id in q.names ==> id in q'.names && q'.names[id] == q.names[id])
      && (forall id :: id in q.firstStart ==> id in q'.firstStart && q'.firstStart[id] == q.firstStart[id])
  {
  }

  lemma FinishedJobsStay(q: Queue, step: Step)
    requires Enabled(q, step) && forall id :: id in q.jobs ==> id in q.names
    ensures
      var q' := After(q, step);
      && (forall id :: id in q.names && id !in q.jobs ==> id !in q'.jobs)
      && forall id :: id in q.jobs && id in q'.jobs && !Unfinished(q.jobs[id].state) ==> q'.jobs[id] == q.jobs[id]
  {
  }

  lemma RemembersOn(a: Queue, b: Queue, c: Queue)
    requires Sound(a) && Remembers(a, b) && Remembers(b, c)
    ensures Remembers(a, c)
  {
    assert forall id :: id in a.jobs ==> JobSound(a, id);
  }

  lemma {:induction false} PastStays(q: Queue, steps: seq<Step>)
    requires Sound(q) && Runs(q, steps)
    ensures Remembers(q, Final(q, steps))
    decreases |steps|
  {
    hide After, Sound, Remembers;
    if steps == [] {
      RemembersItself(q);
    } else {
      var next := After(q, steps[0]);
      StepRemembers(q, steps[0]);
      StepKeepsSound(q, steps[0]);
      PastStays(next, steps[1..]);
      RemembersOn(q, next, Final(q, steps));
    }
  }

  lemma RemembersItself(q: Queue)
    ensures Remembers(q, q)
  {
  }

  lemma ListedWhenUnfinished(q: Queue, listing: seq<(Id, Job)>, id: Id)
    requires Lists(q, true, listing) && id in q.jobs && Unfinished(q.jobs[id].state)
    ensures exists i :: 0 <= i < |listing| && listing[i].1 == q.jobs[id]
  {
  }

  /** A snapshot without an unfinished job of a name shows that every chain of that name is over. */
  lemma EmptySnapshotEndsChains(q: Queue, listing: seq<(Id, Job)>, stateOf: Id -> Option<State>, name: string, r: Id)
    requires Sound(q) && Lists(q, true, listing) && UnfinishedFixtureJobs(listing, stateOf, name) == []
    requires r in q.names && q.names[r] == name
    ensures ChainOver(q, r)
  {
    NoneUnfinished(listing, stateOf, name);
    forall id | id in q.jobs && id in q.first && q.first[id] == r
      ensures !Unfinished(q.jobs[id].state)
    {
      assert JobSound(q, id) && ChainSound(q, id);
      if Unfinished(q.jobs[id].state) { ListedWhenUnfinished(q, listing, id); }
    }
  }

  /**
   The wait is sound: once the first job has been seen settled, a later snapshot without an unfinished
   job of its name means that the chain, retries included, is over and that no later step can run,
   retry or extend it, however many other chains of the name are added.
   */
  lemma WaitIsSound(before: seq<Step>, steps: seq<Step>, listing: seq<(Id, Job)>, stateOf: Id -> Option<State>, r: Id,
                    later: seq<Step>)
    requires Runs(EMPTY, before)
    requires
      var q := Final(EMPTY, before);
      SettledFixtureJobOutcome(q, r).Some? && Runs(q, steps)
      && var seen := Final(q, steps);
         Lists(seen, true, listing) && UnfinishedFixtureJobs(listing, stateOf, q.jobs[r].name) == [] && Runs(seen, later)
    ensures
      var q := Final(EMPTY, before);
      && r in q.first
      && var seen, root := Final(q, steps), q.first[r];
         && ChainOver(seen, root) && ChainOver(Final(seen, later), root)
         && ChainOf(Final(seen, later), root) == ChainOf(seen, root)
         && forall k, id :: 0 <= k < |later| && id in ChainOf(seen, root) ==> !Touches(later[k], id)
  {
    var q := Final(EMPTY, before);
    ReachableIsSound(before);
    assert JobSound(q, r);
    var seen, root := Final(q, steps), q.first[r];
    assert ChainSound(q, r);
    RunKeepsSound(q, steps);
    PastStays(q, steps);
    EmptySnapshotEndsChains(seen, listing, stateOf, q.jobs[r].name, root);
    OverForGood(seen, later, root);
  }

  // ----- the outcomes

  predicate EndedBefore(a: Outcome, b: Outcome) { a.finishedAt < b.finishedAt }

  function SortByFinish(outcomes: seq<Outcome>): seq<Outcome> {
    Sort(EndedBefore, outcomes)
  }

  ghost predicate OldestFirst(outcomes: seq<Outcome>) {
    forall i, j :: 0 <= i < j < |outcomes| ==> outcomes[i].finishedAt <= outcomes[j].finishedAt
  }

  /** The outcomes of one name from `since` on, as listed; each state is read at a later moment of its own. */
  function Selected(listing: seq<(Id, Job)>, stateOf: Id -> Option<State>, name: string, since: nat): seq<Outcome> {
    if listing == [] then []
    else
      var before, (id, job) := Selected(listing[..|listing| - 1], stateOf, name, since), listing[|listing| - 1];
      var o := OutcomeOf(id, job, stateOf(id));
      if job.name == name && o.Some? && o.value.finishedAt >= since then before + [o.value] else before
  }

  function FixtureJobOutcomesSince(listing: seq<(Id, Job)>, stateOf: Id -> Option<State>, name: string, since: nat): seq<Outcome> {
    SortByFinish(Selected(listing, stateOf, name, since))
  }

  /** Whether a kept job is to be reported, and how. */
  ghost predicate Reported(q: Queue, stateOf: Id -> Option<State>, name: string, since: nat, o: Outcome) {
    && o.jobId in q.jobs && !Unfinished(q.jobs[o.jobId].state) && q.jobs[o.jobId].name == name
    && OutcomeOf(o.jobId, q.jobs[o.jobId], stateOf(o.jobId)) == Some(o) && o.finishedAt >= since
  }

  ghost predicate Picked(entry: (Id, Job), stateOf: Id -> Option<State>, name: string, since: nat, o: Outcome) {
    && entry.0 == o.jobId && entry.1.name == name
    && OutcomeOf(o.jobId, entry.1, stateOf(o.jobId)) == Some(o) && o.finishedAt >= since
  }

  lemma SelectedStep(listing: seq<(Id, Job)>, stateOf: Id -> Option<State>, name: string, since: nat, o: Outcome)
    requires listing != []
    ensures
      multiset(Selected(listing, stateOf, name, since))[o]
      == multiset(Selected(listing[..|listing| - 1], stateOf, name, since))[o]
         + if Picked(listing[|listing| - 1], stateOf, name, since, o) then 1 else 0
  {
  }

  lemma {:induction false} NotSelected(listing: seq<(Id, Job)>, stateOf: Id -> Option<State>, name: string, since: nat, o: Outcome)
    requires forall i :: 0 <= i < |listing| ==> !Picked(listing[i], stateOf, name, since, o)
    ensures multiset(Selected(listing, stateOf, name, since))[o] == 0
  {
    hide Picked;
    if listing != [] {
      NotSelected(listing[..|listing| - 1], stateOf, name, since, o);
      SelectedStep(listing, stateOf, name, since, o);
    }
  }

  lemma {:induction false} SelectedOnce(listing: seq<(Id, Job)>, stateOf: Id -> Option<State>, name: string, since: nat, o: Outcome, i: nat)
    requires forall j, k :: 0 <= j < k < |listing| ==> listing[j].0 != listing[k].0
    requires i < |listing| && Picked(listing[i], stateOf, name, since, o)
    ensures multiset(Selected(listing, stateOf, name, since))[o] == 1
  {
    hide Selected;
    var n := |listing| - 1;
    SelectedStep(listing, stateOf, name, since, o);
    if i == n {
      NotSelected(listing[..n], stateOf, name, since, o);
    } else {
      SelectedOnce(listing[..n], stateOf, name, since, o, i);
    }
  }

  /** The answer holds exactly the kept finished jobs of the name that ended at or after `since`, once each, oldest first. */
  lemma OutcomesAreExact(q: Queue, listing: seq<(Id, Job)>, stateOf: Id -> Option<State>, name: string, since: nat, o: Outcome)
    requires Lists(q, false, listing)
    ensures OldestFirst(FixtureJobOutcomesSince(listing, stateOf, name, since))
    ensures
      multiset(FixtureJobOutcomesSince(listing, stateOf, name, since))[o]
      == if Reported(q, stateOf, name, since, o) then 1 else 0
  {
    SortSorts(EndedBefore, Selected(listing, stateOf, name, since));
    if Reported(q, stateOf, name, since, o) {
      assert (o.jobId, q.jobs[o.jobId]) in listing;
      var i :| 0 <= i < |listing| && listing[i] == (o.jobId, q.jobs[o.jobId]);
      SelectedOnce(listing, stateOf, name, since, o, i);
    } else {
      NotSelected(listing, stateOf, name, since, o);
    }
  }

  /** A finished job that the queue keeps has an outcome, and its first attempt did not start after it ended. */
  lemma FinishedHasOutcome(q: Queue, id: Id)
    requires Sound(q) && id in q.jobs && !Unfinished(q.jobs[id].state)
    ensures
      var o := SettledFixtureJobOutcome(q, id);
      && o.Some? && o.value.finishedAt == q.jobs[id].finishedOn.value
      && q.first[id] in q.firstStart && q.firstStart[q.first[id]] <= o.value.finishedAt
  {
  }

  // ----- what the worker did, and what is reported of it

  lemma {:induction false} SplitRun(q: Queue, steps: seq<Step>, k: nat)
    requires Runs(q, steps) && k <= |steps|
    ensures Runs(q, steps[..k]) && Runs(Final(q, steps[..k]), steps[k..])
    ensures Final(q, steps) == Final(Final(q, steps[..k]), steps[k..])
    decreases k
  {
    if k > 0 {
      SplitRun(After(q, steps[0]), steps[1..], k - 1);
      assert steps[..k][1..] == steps[1..][..k - 1] && steps[1..][k - 1..] == steps[k..];
    } else {
      assert steps[..0] == [] && steps[0..] == steps;
    }
  }

  /** The worker's clock when step `k` of a run from an empty queue is taken. */
  ghost function ClockAt(steps: seq<Step>, k: nat): nat
    requires Runs(EMPTY, steps) && k <= |steps|
  {
    SplitRun(EMPTY, steps, k);
    Final(EMPTY, steps[..k]).clock
  }

  /** Only a start changes when a job is said to have been started. */
  lemma {:induction false} StartStays(q: Queue, steps: seq<Step>, id: Id)
    requires Sound(q) && Runs(q, steps) && id in q.jobs && id in Final(q, steps).jobs
    requires forall l :: 0 <= l < |steps| ==> steps[l] != Start(id)
    ensures Final(q, steps).jobs[id].processedOn == q.jobs[id].processedOn
    decreases |steps|
  {
    hide Sound, Enabled;
    if steps != [] {
      var next := After(q, steps[0]);
      StepKeepsSound(q, steps[0]);
      StepRemembers(q, steps[0]);
      PastStays(next, steps[1..]);
      assert id in q.names by { Recorded(q, id); }
      assert id in next.jobs;
      OneStartStays(q, steps[0], id);
      StartStays(next, steps[1..], id);
    }
  }

  lemma Recorded(q: Queue, id: Id)
    requires Sound(q) && id in q.jobs
    ensures id in q.names
  {
    assert JobSound(q, id);
  }

  lemma OneStartStays(q: Queue, step: Step, id: Id)
    requires Sound(q) && Enabled(q, step) && id in q.jobs && id in After(q, step).jobs && step != Start(id)
    ensures After(q, step).jobs[id].processedOn == q.jobs[id].processedOn
  {
    Recorded(q, id);
    hide Sound, JobSound, ChainSound, Unfinished;
  }

  /**
   A job that the queue still keeps is reported by its last start `s` and by the step `k` that ended it: denied
   with the code of a refusal, run when there was none, failed with the reason of its last failure; started at
   the clock of that start and finished at the clock of that step.
   */
  lemma OutcomeIsWhatHappened(steps: seq<Step>, id: Id, s: nat, k: nat)
    requires Runs(EMPTY, steps) && s < k < |steps| && id in Final(EMPTY, steps).jobs
    requires steps[s] == Start(id) && forall l :: s < l < k ==> steps[l] != Start(id)
    requires (steps[k].Complete? || steps[k].Fail?) && steps[k].id == id
    ensures
      SettledFixtureJobOutcome(Final(EMPTY, steps), id)
      == Some(Outcome(id,
                      match steps[k]
                      case Complete(_, Some(code)) => Denied(code)
                      case Fail(_, reason) => FailedForGood(reason)
                      case _ => Ran,
                      ClockAt(steps, s), ClockAt(steps, k)))
  {
    hide Sound, Runs, Final, Enabled, Remembers, ClockAt;
    var started, ended, end := StepAt(steps, s), StepAt(steps, k), Final(EMPTY, steps);
    var between := steps[s + 1..k];
    RunBetween(steps, s, k);
    assert forall l :: 0 <= l < |between| ==> between[l] == steps[s + 1 + l];
    StartTaken(started, id);
    KeptSince(steps, k, id);
    EndTaken(ended, steps[k], id);
    StartStays(After(started, steps[s]), between, id);
    assert started.clock == ClockAt(steps, s) && ended.clock == ClockAt(steps, k) by { ClockOfStep(steps, s); ClockOfStep(steps, k); }
  }

  /** Every finished job that is kept has such a last start and such an end. */
  lemma {:induction false} FinishedWasEnded(steps: seq<Step>, id: Id) returns (s: nat, k: nat)
    requires Runs(EMPTY, steps) && id in Final(EMPTY, steps).jobs && !Unfinished(Final(EMPTY, steps).jobs[id].state)
    ensures s < k < |steps| && steps[s] == Start(id) && (forall l :: s < l < k ==> steps[l] != Start(id))
    ensures (steps[k].Complete? || steps[k].Fail?) && steps[k].id == id
  {
    hide Sound, Final, Runs, After, Enabled, StepAt;
    assert steps != [] by { StandsStill(); }
    var n := |steps| - 1;
    var before := StepAt(steps, n);
    LastStep(steps);
    if id in before.jobs && !Unfinished(before.jobs[id].state) {
      s, k := FinishedWasEnded(steps[..n], id);
    } else {
      NewlyFinished(before, steps[n], id);
      s := StartedBefore(steps[..n], id);
      k := n;
    }
  }

  lemma {:induction false} StartedBefore(steps: seq<Step>, id: Id) returns (s: nat)
    requires Runs(EMPTY, steps) && id in Final(EMPTY, steps).jobs && Final(EMPTY, steps).jobs[id].processedOn.Some?
    ensures s < |steps| && steps[s] == Start(id) && forall l :: s < l < |steps| ==> steps[l] != Start(id)
  {
    hide Sound, Final, Runs, After, Enabled, StepAt;
    assert steps != [] by { StandsStill(); }
    var n := |steps| - 1;
    LastStep(steps);
    if steps[n] == Start(id) {
      s := n;
    } else {
      NewlyStarted(StepAt(steps, n), steps[n], id);
      s := StartedBefore(steps[..n], id);
    }
  }

  lemma LastStep(steps: seq<Step>)
    requires Runs(EMPTY, steps) && steps != []
    ensures
      var n := |steps| - 1;
      && Runs(EMPTY, steps[..n]) && Final(EMPTY, steps[..n]) == StepAt(steps, n)
      && Final(EMPTY, steps) == After(StepAt(steps, n), steps[n])
  {
    var n := |steps| - 1;
    SplitRun(EMPTY, steps, n);
    assert steps[n..] == [steps[n]] && steps[n..][1..] == [];
  }

  lemma NewlyFinished(q: Queue, step: Step, id: Id)
    requires Sound(q) && Enabled(q, step) && id in After(q, step).jobs && !Unfinished(After(q, step).jobs[id].state)
    requires !(id in q.jobs && !Unfinished(q.jobs[id].state))
    ensures (step.Complete? || step.Fail?) && step.id == id && id in q.jobs && q.jobs[id].processedOn.Some?
  {
    assert id in q.jobs ==> JobSound(q, id);
  }

  lemma NewlyStarted(q: Queue, step: Step, id: Id)
    requires Enabled(q, step) && step != Start(id) && id in After(q, step).jobs && After(q, step).jobs[id].processedOn.Some?
    ensures id in q.jobs && q.jobs[id].processedOn.Some?
  {
  }

  /** The queue in which step `k` is taken. */
  ghost function StepAt(steps: seq<Step>, k: nat): (q: Queue)
    requires Runs(EMPTY, steps) && k < |steps|
    ensures Sound(q) && Enabled(q, steps[k]) && Sound(After(q, steps[k])) && q.clock > 0
  {
    SplitRun(EMPTY, steps, k);
    ReachableIsSound(steps[..k]);
    var q := Final(EMPTY, steps[..k]);
    StepKeepsSound(q, steps[k]);
    q
  }

  lemma ClockOfStep(steps: seq<Step>, k: nat)
    requires Runs(EMPTY, steps) && k < |steps|
    ensures StepAt(steps, k).clock == ClockAt(steps, k)
  {
  }

  lemma RunBetween(steps: seq<Step>, s: nat, k: nat)
    requires Runs(EMPTY, steps) && s < k < |steps|
    ensures
      var after, between := After(StepAt(steps, s), steps[s]), steps[s + 1..k];
      Runs(after, between) && Final(after, between) == StepAt(steps, k)
  {
    SplitRun(EMPTY, steps, k);
    var first := steps[..k];
    SplitRun(EMPTY, first, s);
    assert first[..s] == steps[..s] && first[s..][0] == steps[s] && first[s..][1..] == steps[s + 1..k];
  }

  lemma RunAfter(steps: seq<Step>, k: nat)
    requires Runs(EMPTY, steps) && k < |steps|
    ensures
      var after := After(StepAt(steps, k), steps[k]);
      Runs(after, steps[k + 1..]) && Final(after, steps[k + 1..]) == Final(EMPTY, steps)
  {
    SplitRun(EMPTY, steps, k);
    assert steps[k..][0] == steps[k] && steps[k..][1..] == steps[k + 1..];
  }

  /** What ended a job that is still kept at the end of the run is kept as it was. */
  lemma KeptSince(steps: seq<Step>, k: nat, id: Id)
    requires Runs(EMPTY, steps) && k < |steps| && id in Final(EMPTY, steps).jobs
    requires (steps[k].Complete? || steps[k].Fail?) && steps[k].id == id
    ensures id in After(StepAt(steps, k), steps[k]).jobs
    ensures Final(EMPTY, steps).jobs[id] == After(StepAt(steps, k), steps[k]).jobs[id]
  {
    hide Sound, Enabled, Final, Runs, StepAt, After;
    RunAfter(steps, k);
    EndTaken(StepAt(steps, k), steps[k], id);
    PastStays(After(StepAt(steps, k), steps[k]), steps[k + 1..]);
  }

  lemma StartTaken(q: Queue, id: Id)
    requires Enabled(q, Start(id))
    ensures id in After(q, Start(id)).jobs && After(q, Start(id)).jobs[id].processedOn == Some(q.clock)
  {
  }

  lemma EndTaken(q: Queue, step: Step, id: Id)
    requires Enabled(q, step) && (step.Complete? || step.Fail?) && step.id == id && q.clock > 0
    ensures id in q.jobs && id in After(q, step).jobs
    ensures
      var job := After(q, step).jobs[id];
      && job.processedOn == q.jobs[id].processedOn && job.finishedOn == Some(q.clock)
      && (step.Complete? ==> job.state == Completed && job.denial == step.denial)
      && (step.Fail? ==> job.state == Failed && job.failedReason == step.reason)
  {
  }

  /** A finished job of a chain ended no earlier than the first job first started, and carries its name. */
  lemma ChainFollowsFirst(q0: Queue, q: Queue, r: Id, id: Id)
    requires Sound(q0) && Sound(q) && Remembers(q0, q) && SettledFixtureJobOutcome(q0, r).Some?
    requires id in q.jobs && !Unfinished(q.jobs[id].state) && id in q.first && q.first[id] == r
    ensures q.jobs[id].name == q0.jobs[r].name && r in q0.firstStart && q.jobs[id].finishedOn.Some?
    ensures q0.firstStart[r] <= SettledFixtureJobOutcome(q0, r).value.startedAt
    ensures q0.firstStart[r] <= q.jobs[id].finishedOn.value
  {
    assert JobSound(q0, r) && JobSound(q, id) && ChainSound(q, id);
  }

  /** A finished job is reported when it did not end before `since` and is still kept when its state is read. */
  lemma ReportedWhenKept(q: Queue, later: Queue, stateOf: Id -> Option<State>, since: nat, id: Id)
    requires Sound(q) && Remembers(q, later) && stateOf(id) == StateOf(later, id)
    requires id in q.jobs && !Unfinished(q.jobs[id].state)
    ensures
      var o := SettledFixtureJobOutcome(q, id);
      && o.Some? && Some(o.value.finishedAt) == q.jobs[id].finishedOn
      && (Reported(q, stateOf, q.jobs[id].name, since, o.value) <==> o.value.finishedAt >= since && id in later.jobs)
  {
    FinishedHasOutcome(q, id);
    assert JobSound(q, id);
    hide Sound, JobSound;
  }

  /** The same for three sound queues, each of which remembers the one before. */
  lemma SinceAcross(q0: Queue, q: Queue, later: Queue, listing: seq<(Id, Job)>, stateOf: Id -> Option<State>, r: Id, id: Id)
    requires Sound(q0) && Sound(q) && Remembers(q0, q) && Remembers(q, later)
    requires SettledFixtureJobOutcome(q0, r).Some? && Lists(q, false, listing) && stateOf(id) == StateOf(later, id)
    requires id in q.jobs && !Unfinished(q.jobs[id].state) && id in q.first && q.first[id] == r
    ensures
      var first, o := SettledFixtureJobOutcome(q0, r).value, SettledFixtureJobOutcome(q, id);
      && o.Some?
      && var reported := o.value in FixtureJobOutcomesSince(listing, stateOf, q0.jobs[r].name, first.startedAt);
         && (reported <==> o.value.finishedAt >= first.startedAt && id in later.jobs)
         && r in q0.firstStart && q0.firstStart[r] <= first.startedAt
         && (first.startedAt == q0.firstStart[r] && id in later.jobs ==> reported)
  {
    var name, since := q0.jobs[r].name, SettledFixtureJobOutcome(q0, r).value.startedAt;
    hide SettledFixtureJobOutcome, FixtureJobOutcomesSince, Lists, Sound, Remembers, Reported, Unfinished, StateOf;
    ChainFollowsFirst(q0, q, r, id);
    ReportedWhenKept(q, later, stateOf, since, id);
    var o := SettledFixtureJobOutcome(q, id).value;
    OutcomesAreExact(q, listing, stateOf, name, since, o);
    assert o in multiset(FixtureJobOutcomesSince(listing, stateOf, name, since)) <==> Reported(q, stateOf, name, since, o);
  }

  /**
   `since` comes from the outcome of the first job as it was read earlier; the finished jobs are listed
   later, when that job may be gone, and the state of a listed job later still. A finished job of the chain
   is then reported exactly when it did not end before that last start of the first job and is still kept
   when its state is read. When the first job was started only once, every one still kept is reported.
   */
  lemma SinceKeepsTheChain(before: seq<Step>, steps: seq<Step>, more: seq<Step>, listing: seq<(Id, Job)>,
                           stateOf: Id -> Option<State>, r: Id, id: Id)
    requires Runs(EMPTY, before)
    requires
      var q0 := Final(EMPTY, before);
      SettledFixtureJobOutcome(q0, r).Some? && Runs(q0, steps)
      && var q := Final(q0, steps);
         && Lists(q, false, listing) && Runs(q, more) && stateOf(id) == StateOf(Final(q, more), id)
         && id in q.jobs && !Unfinished(q.jobs[id].state) && id in q.first && q.first[id] == r
    ensures
      var q0 := Final(EMPTY, before);
      var q := Final(q0, steps);
      var first, o := SettledFixtureJobOutcome(q0, r).value, SettledFixtureJobOutcome(q, id);
      && o.Some?
      && var reported := o.value in FixtureJobOutcomesSince(listing, stateOf, q0.jobs[r].name, first.startedAt);
         && (reported <==> o.value.finishedAt >= first.startedAt && id in Final(q, more).jobs)
         && r in q0.firstStart && q0.firstStart[r] <= first.startedAt
         && (first.startedAt == q0.firstStart[r] && id in Final(q, more).jobs ==> reported)
  {
    hide FixtureJobOutcomesSince, Lists, Runs, SettledFixtureJobOutcome, Remembers, Sound;
    var q0 := Final(EMPTY, before);
    var q := Final(q0, steps);
    ReachableIsSound(before);
    RunKeepsSound(q0, steps);
    PastStays(q0, steps);
    PastStays(q, more);
    SinceAcross(q0, q, Final(q, more), listing, stateOf, r, id);
  }

  lemma {:induction false} OneMore(q: Queue, steps: seq<Step>, step: Step)
    requires Runs(q, steps) && Enabled(Final(q, steps), step)
    ensures Runs(q, steps + [step]) && Final(q, steps + [step]) == After(Final(q, steps), step)
    decreases |steps|
  {
    var longer := steps + [step];
    if steps == [] {
      assert longer[1..] == [];
    } else {
      assert longer[1..] == steps[1..] + [step];
      OneMore(After(q, steps[0]), steps[1..], step);
    }
  }

  /** A retried first job can hide part of its own chain: its continuation ended before its last start. */
  lemma RetryHidesTheChain() returns (steps: seq<Step>, q: Queue)
    ensures Runs(EMPTY, steps) && q == Final(EMPTY, steps)
    ensures 2 in q.first && q.first[2] == 1 && ChainOver(q, 1)
    ensures SettledFixtureJobOutcome(q, 1) == Some(Outcome(1, Ran, 5, 5))
    ensures SettledFixtureJobOutcome(q, 2) == Some(Outcome(2, FailedForGood("late"), 1, 1))
    ensures forall listing, stateOf: Id -> Option<State> :: Lists(q, false, listing) ==>
      Outcome(2, FailedForGood("late"), 1, 1) !in FixtureJobOutcomesSince(listing, stateOf, "purge", 5)
  {
    hide Runs, Final, Lists, FixtureJobOutcomesSince, Sound;
    steps, q := FirstAttempt();
    steps, q := Extend(steps, q, Retry(1, "reset"));
    steps, q := Extend(steps, q, Promote(1));
    steps, q := Extend(steps, q, Tick(5));
    steps, q := Extend(steps, q, Start(1));
    steps, q := Extend(steps, q, Complete(1, None));
    forall listing, stateOf: Id -> Option<State> | Lists(q, false, listing)
      ensures Outcome(2, FailedForGood("late"), 1, 1) !in FixtureJobOutcomesSince(listing, stateOf, "purge", 5)
    {
      OutcomesAreExact(q, listing, stateOf, "purge", 5, Outcome(2, FailedForGood("late"), 1, 1));
    }
  }

  lemma Extend(steps: seq<Step>, q: Queue, step: Step) returns (steps': seq<Step>, q': Queue)
    requires Runs(EMPTY, steps) && q == Final(EMPTY, steps) && Enabled(q, step)
    ensures Runs(EMPTY, steps') && q' == Final(EMPTY, steps') && q' == After(q, step)
  {
    OneMore(EMPTY, steps, step);
    steps', q' := steps + [step], After(q, step);
  }

  /** The first job starts, enqueues its continuation, and is still running when that one has failed for good. */
  lemma FirstAttempt() returns (steps: seq<Step>, q: Queue)
    ensures Runs(EMPTY, steps) && q == Final(EMPTY, steps) && q.clock == 1
    ensures q.jobs == map[1 := Job("purge", Active, None, "", 0, 2, Some(1), None),
                          2 := Job("purge", Failed, None, "late", 1, 1, Some(1), Some(1))]
    ensures q.first == map[1 := 1, 2 := 1]
  {
    hide Runs, Final;
    assert Runs(EMPTY, []) && Final(EMPTY, []) == EMPTY by { StandsStill(); }
    steps, q := Extend([], EMPTY, Add(1, "purge", Waiting, 2));
    steps, q := Extend(steps, q, Start(1));
    steps, q := Extend(steps, q, Continue(1, 2, Waiting, 1));
    steps, q := Extend(steps, q, Start(2));
    steps, q := Extend(steps, q, Fail(2, "late"));
  }

  lemma StandsStill()
    ensures Runs(EMPTY, []) && Final(EMPTY, []) == EMPTY
  {
  }
}
