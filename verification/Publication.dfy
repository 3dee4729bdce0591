/**
 Publishing a seeded Portal: an append-only list of snapshots, and activations of which one is live.
 Each write is a statement of its own, so a run can stop after any of them.
 */
module Publication {
  import opened Units
  import opened Wrappers
  import opened JsonText
  import opened JsonGrammar
  import opened StableJson

  type Id = nat

  /** What a snapshot row says about its configuration: the digest and the columns that mirror it. */
  datatype Columns = Columns(digest: string, locales: seq<Text>, brandProfileVersion: Option<nat>, content: Json)

  datatype Snapshot = Snapshot(id: Id, version: nat, columns: Columns)

  /** `sequence` is unique per portal, and at most one activation per portal may be live. */
  datatype Activation = Activation(id: Id, snapshotId: Id, sequence: nat, live: bool)

  datatype Store = Store(snapshots: seq<Snapshot>, activations: seq<Activation>)

  /** Identifiers of a run: the fixture's own pair and two random ones. */
  datatype Ids = Ids(fixtureSnapshot: Id, fixtureActivation: Id, randomSnapshot: Id, randomActivation: Id)

  datatype Outcome = AlreadyServing | Published | Interrupted | UniqueViolation

  /** The stored form of a value: the database keeps the value but orders object members its own way. */
  ghost predicate Storage(jsonb: Json -> Json) {
    forall v :: Printable(v) ==> Printable(jsonb(v)) && Same(jsonb(v), v)
  }

  // ----- comparing a stored snapshot with the one to publish

  predicate PublishesSame(existing: Columns, wanted: Columns) {
    && existing.digest == wanted.digest
    && StableText(Strings(SortTexts(existing.locales))) == StableText(Strings(SortTexts(wanted.locales)))
    && existing.brandProfileVersion == wanted.brandProfileVersion
    && StableText(existing.content) == StableText(wanted.content)
  }

  /** The comparison finds exactly the columns that agree up to locale order and member order. */
  lemma PublishesSameMeaning(existing: Columns, wanted: Columns)
    requires Printable(existing.content) && Printable(wanted.content)
    ensures PublishesSame(existing, wanted) <==>
      && existing.digest == wanted.digest
      && multiset(existing.locales) == multiset(wanted.locales)
      && existing.brandProfileVersion == wanted.brandProfileVersion
      && Same(existing.content, wanted.content)
  {
    hide StableText, Strings, SortTexts, Same;
    LocalesCompare(existing.locales, wanted.locales);
    StableTextComparesValues(existing.content, wanted.content);
  }

  lemma StoredIsSame(jsonb: Json -> Json, columns: Columns)
    requires Storage(jsonb) && Printable(columns.content)
    ensures PublishesSame(columns.(content := jsonb(columns.content)), columns)
  {
    hide StableText, Strings, SortTexts;
    PublishesSameMeaning(columns.(content := jsonb(columns.content)), columns);
  }

  // ----- queries

  /** The snapshot with the highest version, when there is one. */
  function Latest(snapshots: seq<Snapshot>): Option<Snapshot> {
    if snapshots == [] then None
    else
      var before, last := Latest(snapshots[..|snapshots| - 1]), snapshots[|snapshots| - 1];
      if before.Some? && before.value.version > last.version then before else Some(last)
  }

  /** Some live activation, when there is one. */
  function Live(activations: seq<Activation>): Option<Activation> {
    if activations == [] then None
    else if activations[0].live then Some(activations[0])
    else Live(activations[1..])
  }

  function Retired(activations: seq<Activation>): (retired: seq<Activation>)
    ensures |retired| == |activations|
    ensures forall i :: 0 <= i < |activations| ==> retired[i] == activations[i].(live := false)
  {
    seq(|activations|, i requires 0 <= i < |activations| => activations[i].(live := false))
  }

  predicate SequenceTaken(activations: seq<Activation>, sequence: nat) {
    exists i :: 0 <= i < |activations| && activations[i].sequence == sequence
  }

  predicate ActivationIdTaken(activations: seq<Activation>, id: Id) {
    exists i :: 0 <= i < |activations| && activations[i].id == id
  }

  predicate SnapshotTaken(snapshots: seq<Snapshot>, id: Id, version: nat) {
    exists i :: 0 <= i < |snapshots| && (snapshots[i].id == id || snapshots[i].version == version)
  }

  predicate HasLive(activations: seq<Activation>) {
    exists i :: 0 <= i < |activations| && activations[i].live
  }

  // ----- one run

  /**
   A run of the publisher that is stopped before its write number `writes`; three writes are all it makes.
   The statements come in the order of the source, each against the unique indexes of its table.
   */
  function Publish(jsonb: Json -> Json, s: Store, wanted: Columns, ids: Ids, writes: nat): (Store, Outcome) {
    var existing, live := Latest(s.snapshots), Live(s.activations);
    var same := existing.Some? && PublishesSame(existing.value.columns, wanted);
    if same && live.Some? && live.value.snapshotId == existing.value.id then (s, AlreadyServing)
    else
      var snapshotId := if same then existing.value.id else if existing.Some? then ids.randomSnapshot else ids.fixtureSnapshot;
      var activationId := if existing.Some? then ids.randomActivation else ids.fixtureActivation;
      var version := if same then existing.value.version else (if existing.Some? then existing.value.version else 0) + 1;
      var inserts := if same then 0 else 1;
      if writes < inserts then (s, Interrupted)
      else if !same && SnapshotTaken(s.snapshots, snapshotId, version) then (s, UniqueViolation)
      else
        var stored := wanted.(content := jsonb(wanted.content));
        var s1 := if same then s else s.(snapshots := s.snapshots + [Snapshot(snapshotId, version, stored)]);
        if writes < inserts + 1 then (s1, Interrupted)
        else
          var s2 := s1.(activations := Retired(s1.activations));
          if writes < inserts + 2 then (s2, Interrupted)
          else if SequenceTaken(s2.activations, version) || ActivationIdTaken(s2.activations, activationId)
                  || HasLive(s2.activations) then (s2, UniqueViolation)
          else (s2.(activations := s2.activations + [Activation(activationId, snapshotId, version, true)]), Published)
  }

  class PublicationStore {
    const jsonb: Json -> Json
    var snapshots: seq<Snapshot>
    var activations: seq<Activation>
    /** The runs and outside retirements so far. */
    ghost var operations: seq<Operation>

    ghost function State(): Store
      reads this
    {
      Store(snapshots, activations)
    }

    /** The tables hold what the history of operations leaves. */
    ghost predicate Valid()
      reads this
    {
      State() == History(jsonb, operations)
    }

    constructor (jsonb: Json -> Json)
      ensures Valid() && this.jsonb == jsonb && State() == Store([], []) && operations == []
    {
      this.jsonb := jsonb;
      snapshots, activations, operations := [], [], [];
    }

    method InsertSnapshot(row: Snapshot) returns (ok: bool)
      modifies this`snapshots
      ensures
        ok <==> !exists i :: 0 <= i < |old(snapshots)| && (old(snapshots)[i].id == row.id || old(snapshots)[i].version == row.version)
      ensures snapshots == if ok then old(snapshots) + [row] else old(snapshots)
    {
      ok := !SnapshotTaken(snapshots, row.id, row.version);
      if ok { snapshots := snapshots + [row]; }
    }

    method RetireLive()
      modifies this`activations
      ensures activations == Retired(old(activations))
    {
      activations := Retired(activations);
    }

    method InsertActivation(row: Activation) returns (ok: bool)
      modifies this`activations
      ensures
        ok <==> !exists i :: 0 <= i < |old(activations)|
                  && (old(activations)[i].sequence == row.sequence || old(activations)[i].id == row.id
                      || (row.live && old(activations)[i].live))
      ensures activations == if ok then old(activations) + [row] else old(activations)
    {
      ok := !(SequenceTaken(activations, row.sequence) || ActivationIdTaken(activations, row.id)
              || (row.live && HasLive(activations)));
      if ok { activations := activations + [row]; }
    }

    method PublishPortalSnapshot(wanted: Columns, ids: Ids, writes: nat) returns (outcome: Outcome)
      requires Valid()
      modifies this
      ensures Valid() && operations == old(operations) + [Run(wanted, ids, writes)]
      ensures (State(), outcome) == Publish(jsonb, old(State()), wanted, ids, writes)
    {
      outcome := ExecuteStatements(wanted, ids, writes);
      HistoryAppend(jsonb, operations, Run(wanted, ids, writes));
      operations := operations + [Run(wanted, ids, writes)];
    }

    /** The statements of a run, in the order of the source. */
    method ExecuteStatements(wanted: Columns, ids: Ids, writes: nat) returns (outcome: Outcome)
      modifies this`snapshots, this`activations
      ensures (State(), outcome) == Publish(jsonb, old(State()), wanted, ids, writes)
    {
      hide PublishesSame, Live, Latest;
      var existing, liveActivation := Latest(snapshots), Live(activations);
      var sameConfiguration := existing.Some? && PublishesSame(existing.value.columns, wanted);
      var isServingCurrent := sameConfiguration && liveActivation.Some? && liveActivation.value.snapshotId == existing.value.id;
      if isServingCurrent { return AlreadyServing; }
      var snapshotId :=
        if sameConfiguration then existing.value.id else if existing.Some? then ids.randomSnapshot else ids.fixtureSnapshot;
      var activationId := if existing.Some? then ids.randomActivation else ids.fixtureActivation;
      var version :=
        if sameConfiguration then existing.value.version
        else (if existing.Some? then existing.value.version else 0) + 1;
      var left := writes;
      if !sameConfiguration {
        if left == 0 { return Interrupted; }
        var inserted := InsertSnapshot(Snapshot(snapshotId, version, wanted.(content := jsonb(wanted.content))));
        if !inserted { return UniqueViolation; }
        left := left - 1;
      }
      if left == 0 { return Interrupted; }
      RetireLive();
      if left == 1 { return Interrupted; }
      var activated := InsertActivation(Activation(activationId, snapshotId, version, true));
      outcome := if activated then Published else UniqueViolation;
    }

    /** A live activation may be retired at any time from outside. */
    method RetireFromOutside()
      requires Valid()
      modifies this`activations, this`operations
      ensures Valid() && operations == old(operations) + [Retire]
      ensures activations == Retired(old(activations))
    {
      RetireLive();
      HistoryAppend(jsonb, operations, Retire);
      operations := operations + [Retire];
    }
  }

  // ----- what every reachable store looks like

  ghost predicate Versioned(snapshots: seq<Snapshot>) {
    forall i :: 0 <= i < |snapshots| ==> snapshots[i].version == i + 1
  }

  ghost predicate DistinctSnapshots(snapshots: seq<Snapshot>) {
    forall i, j :: 0 <= i < j < |snapshots| ==> snapshots[i].id != snapshots[j].id
  }

  ghost predicate NeighboursDiffer(snapshots: seq<Snapshot>) {
    forall i, j :: 0 <= i && j == i + 1 && j < |snapshots| ==> !PublishesSame(snapshots[i].columns, snapshots[j].columns)
  }

  ghost predicate AllPrintable(snapshots: seq<Snapshot>) {
    forall i :: 0 <= i < |snapshots| ==> Printable(snapshots[i].columns.content)
  }

  /** Every activation carries the version of the snapshot it points at, no two the same. */
  ghost predicate Sequenced(s: Store) {
    && (forall i :: 0 <= i < |s.activations| ==>
          var a := s.activations[i];
          1 <= a.sequence <= |s.snapshots| && a.snapshotId == s.snapshots[a.sequence - 1].id)
    && (forall i, j :: 0 <= i < j < |s.activations| ==> s.activations[i].sequence != s.activations[j].sequence)
  }

  ghost predicate OneLive(activations: seq<Activation>) {
    forall i, j :: 0 <= i < j < |activations| ==> !(activations[i].live && activations[j].live)
  }

  ghost predicate Invariant(s: Store) {
    && Versioned(s.snapshots) && DistinctSnapshots(s.snapshots) && NeighboursDiffer(s.snapshots) && AllPrintable(s.snapshots)
    && Sequenced(s) && OneLive(s.activations)
  }

  /** Random identifiers are new, and the fixture's own are only used by this portal's first run. */
  ghost predicate FreshIds(s: Store, ids: Ids) {
    && (forall i :: 0 <= i < |s.snapshots| ==> s.snapshots[i].id != ids.randomSnapshot)
    && (forall i :: 0 <= i < |s.activations| ==> s.activations[i].id != ids.randomActivation)
  }

  lemma {:induction false} LatestIsLast(snapshots: seq<Snapshot>)
    requires Versioned(snapshots)
    ensures Latest(snapshots) == if snapshots == [] then None else Some(snapshots[|snapshots| - 1])
  {
    if |snapshots| > 1 {
      LatestIsLast(snapshots[..|snapshots| - 1]);
    }
  }

  lemma {:induction false} LiveMeaning(activations: seq<Activation>)
    ensures Live(activations).None? <==> !HasLive(activations)
    ensures Live(activations).Some? ==> Live(activations).value.live && Live(activations).value in activations
  {
    if activations != [] && !activations[0].live {
      LiveMeaning(activations[1..]);
      if HasLive(activations) {
        var i :| 0 <= i < |activations| && activations[i].live;
        assert activations[1..][i - 1].live;
      }
      if HasLive(activations[1..]) {
        var i :| 0 <= i < |activations[1..]| && activations[1..][i].live;
        assert activations[i + 1].live;
      }
    }
  }

  lemma RetireKeeps(s: Store)
    requires Invariant(s)
    ensures Invariant(s.(activations := Retired(s.activations))) && !HasLive(Retired(s.activations))
  {
  }

  /** Appending a version that differs from the latest one keeps the invariant. */
  lemma AppendKeeps(s: Store, row: Snapshot)
    requires Invariant(s) && row.version == |s.snapshots| + 1 && Printable(row.columns.content)
    requires !SnapshotTaken(s.snapshots, row.id, row.version)
    requires s.snapshots != [] ==> !PublishesSame(s.snapshots[|s.snapshots| - 1].columns, row.columns)
    ensures Invariant(s.(snapshots := s.snapshots + [row]))
  {
    hide PublishesSame, Printable;
    var longer := s.snapshots + [row];
    assert DistinctSnapshots(longer) by {
      assert forall i :: 0 <= i < |s.snapshots| ==> s.snapshots[i].id != row.id;
    }
  }

  /** Activating the latest snapshot under a sequence that is free keeps the invariant. */
  lemma ActivateKeeps(s: Store, id: Id)
    requires Invariant(s) && s.snapshots != [] && !HasLive(s.activations)
    requires !SequenceTaken(s.activations, |s.snapshots|)
    ensures
      var last := s.snapshots[|s.snapshots| - 1];
      Invariant(s.(activations := s.activations + [Activation(id, last.id, |s.snapshots|, true)]))
  {
  }

  lemma NoNewSequence(s: Store)
    requires Sequenced(s)
    ensures !SequenceTaken(s.activations, |s.snapshots| + 1)
  {
  }

  lemma NewSnapshotIsFree(s: Store, id: Id)
    requires Versioned(s.snapshots) && forall i :: 0 <= i < |s.snapshots| ==> s.snapshots[i].id != id
    ensures !SnapshotTaken(s.snapshots, id, |s.snapshots| + 1)
  {
  }

  /** A stored row differs from the latest one exactly when the wanted columns do. */
  lemma StoredDiffers(jsonb: Json -> Json, existing: Columns, wanted: Columns)
    requires Storage(jsonb) && Printable(existing.content) && Printable(wanted.content)
    ensures PublishesSame(existing, wanted.(content := jsonb(wanted.content))) <==> PublishesSame(existing, wanted)
  {
    hide StableText, Strings, SortTexts, Same, Printable;
    StoredIsSame(jsonb, wanted);
  }

  /** The latest snapshot holds the wanted configuration. */
  ghost predicate Holds(s: Store, wanted: Columns) {
    s.snapshots != [] && PublishesSame(s.snapshots[|s.snapshots| - 1].columns, wanted)
  }

  /** The latest snapshot is the one that the live activation points at. */
  ghost predicate Serves(s: Store) {
    && s.snapshots != []
    && exists i :: 0 <= i < |s.activations| && s.activations[i].live
         && s.activations[i].snapshotId == s.snapshots[|s.snapshots| - 1].id
  }

  /** The first statement: a new snapshot exactly when the latest one does not hold the configuration. */
  ghost function WithSnapshot(jsonb: Json -> Json, s: Store, wanted: Columns, ids: Ids): Store {
    if Holds(s, wanted) then s
    else
      var id := if s.snapshots == [] then ids.fixtureSnapshot else ids.randomSnapshot;
      s.(snapshots := s.snapshots + [Snapshot(id, |s.snapshots| + 1, wanted.(content := jsonb(wanted.content)))])
  }

  lemma WithSnapshotKeeps(jsonb: Json -> Json, s: Store, wanted: Columns, ids: Ids)
    requires Storage(jsonb) && Invariant(s) && FreshIds(s, ids) && Printable(wanted.content)
    ensures
      var s1 := WithSnapshot(jsonb, s, wanted, ids);
      && Invariant(s1) && Holds(s1, wanted) && s.snapshots <= s1.snapshots && s1.activations == s.activations
      && (!Holds(s, wanted) ==> !SequenceTaken(s.activations, |s1.snapshots|))
  {
    hide PublishesSame, Printable;
    if !Holds(s, wanted) {
      var stored := wanted.(content := jsonb(wanted.content));
      var id := if s.snapshots == [] then ids.fixtureSnapshot else ids.randomSnapshot;
      NewSnapshotIsFree(s, id);
      NoNewSequence(s);
      StoredIsSame(jsonb, wanted);
      if s.snapshots != [] {
        StoredDiffers(jsonb, s.snapshots[|s.snapshots| - 1].columns, wanted);
      }
      AppendKeeps(s, Snapshot(id, |s.snapshots| + 1, stored));
    }
  }

  // ----- what one run does to a reachable store

  lemma LiveServes(s: Store)
    requires Invariant(s) && s.snapshots != []
    ensures
      Serves(s) <==> Live(s.activations).Some?
                     && Live(s.activations).value.snapshotId == s.snapshots[|s.snapshots| - 1].id
  {
    hide PublishesSame, Printable;
    LiveMeaning(s.activations);
  }

  lemma ActivationIdIsFree(s: Store, ids: Ids)
    requires Invariant(s) && FreshIds(s, ids)
    ensures !ActivationIdTaken(s.activations, if s.snapshots == [] then ids.fixtureActivation else ids.randomActivation)
  {
  }

  /** Which statements a run executes, and which of them the unique indexes refuse. */
  lemma PublishSteps(jsonb: Json -> Json, s: Store, wanted: Columns, ids: Ids, writes: nat)
    requires Storage(jsonb) && Invariant(s) && FreshIds(s, ids) && Printable(wanted.content)
    ensures
      var s1 := WithSnapshot(jsonb, s, wanted, ids);
      var before := if Holds(s, wanted) then 0 else 1;
      var retired := s1.(activations := Retired(s1.activations));
      var n := |s1.snapshots|;
      var id := if s.snapshots == [] then ids.fixtureActivation else ids.randomActivation;
      n > 0 && Publish(jsonb, s, wanted, ids, writes)
      == if Holds(s, wanted) && Serves(s) then (s, AlreadyServing)
         else if writes < before then (s, Interrupted)
         else if writes < before + 1 then (s1, Interrupted)
         else if writes < before + 2 then (retired, Interrupted)
         else if SequenceTaken(s1.activations, n) then (retired, UniqueViolation)
         else (retired.(activations := retired.activations + [Activation(id, s1.snapshots[n - 1].id, n, true)]), Published)
  {
    hide PublishesSame, Printable, Latest, Live, Storage;
    LatestIsLast(s.snapshots);
    if s.snapshots != [] { LiveServes(s); }
    WithSnapshotKeeps(jsonb, s, wanted, ids);
    var s1 := WithSnapshot(jsonb, s, wanted, ids);
    RetireKeeps(s1);
    ActivationIdIsFree(s, ids);
    NewSnapshotIsFree(s, if s.snapshots == [] then ids.fixtureSnapshot else ids.randomSnapshot);
    RetiredKeys(s1.activations);
  }

  lemma RetiredKeys(activations: seq<Activation>)
    ensures forall n :: SequenceTaken(Retired(activations), n) <==> SequenceTaken(activations, n)
    ensures forall id :: ActivationIdTaken(Retired(activations), id) <==> ActivationIdTaken(activations, id)
  {
  }

  /** Wherever a run stops, versions stay numbered, neighbours differ, one activation at most is live, no row is rewritten. */
  lemma PublishKeeps(jsonb: Json -> Json, s: Store, wanted: Columns, ids: Ids, writes: nat)
    requires Storage(jsonb) && Invariant(s) && FreshIds(s, ids) && Printable(wanted.content)
    ensures
      var s' := Publish(jsonb, s, wanted, ids, writes).0;
      Invariant(s') && s.snapshots <= s'.snapshots
  {
    hide PublishesSame, Printable, Publish, Invariant, WithSnapshot, Storage, Holds, Serves;
    PublishSteps(jsonb, s, wanted, ids, writes);
    WithSnapshotKeeps(jsonb, s, wanted, ids);
    var s1 := WithSnapshot(jsonb, s, wanted, ids);
    var retired := s1.(activations := Retired(s1.activations));
    RetireKeeps(s1);
    RetiredKeys(s1.activations);
    if !SequenceTaken(s1.activations, |s1.snapshots|) {
      ActivateKeeps(retired, if s.snapshots == [] then ids.fixtureActivation else ids.randomActivation);
    }
  }

  /**
   A whole run either ends with the latest snapshot live and holding what was asked for, or is refused.
   It is refused exactly when the latest snapshot already holds that, has been activated before, and is
   not live now: its sequence number is used up. Then the run leaves no live activation behind.
   */
  lemma WholeRun(jsonb: Json -> Json, s: Store, wanted: Columns, ids: Ids, writes: nat)
    requires Storage(jsonb) && Invariant(s) && FreshIds(s, ids) && Printable(wanted.content) && writes >= 3
    ensures
      var (s', outcome) := Publish(jsonb, s, wanted, ids, writes);
      && (outcome == UniqueViolation
          <==> Holds(s, wanted) && !Serves(s) && SequenceTaken(s.activations, |s.snapshots|))
      && (outcome == UniqueViolation ==> s'.snapshots == s.snapshots && !HasLive(s'.activations))
      && (outcome != UniqueViolation ==> outcome in {AlreadyServing, Published} && Holds(s', wanted) && Serves(s'))
  {
    hide PublishesSame, Printable, Publish, Invariant, WithSnapshot, Storage, Holds, Serves;
    PublishSteps(jsonb, s, wanted, ids, writes);
    WithSnapshotKeeps(jsonb, s, wanted, ids);
    var s1 := WithSnapshot(jsonb, s, wanted, ids);
    RetireKeeps(s1);
    SameWithSnapshot(jsonb, s, wanted, ids);
    ActivatedServes(s1, Retired(s1.activations), if s.snapshots == [] then ids.fixtureActivation else ids.randomActivation, wanted);
  }

  lemma SameWithSnapshot(jsonb: Json -> Json, s: Store, wanted: Columns, ids: Ids)
    ensures Holds(s, wanted) ==> WithSnapshot(jsonb, s, wanted, ids) == s
  {
  }

  lemma ActivatedServes(s: Store, retired: seq<Activation>, id: Id, wanted: Columns)
    requires s.snapshots != []
    ensures
      var last := s.snapshots[|s.snapshots| - 1];
      var s' := s.(activations := retired + [Activation(id, last.id, |s.snapshots|, true)]);
      Serves(s') && (Holds(s, wanted) ==> Holds(s', wanted))
  {
    hide PublishesSame;
    var last := s.snapshots[|s.snapshots| - 1];
    var activations := retired + [Activation(id, last.id, |s.snapshots|, true)];
    assert activations[|retired|].live && activations[|retired|].snapshotId == last.id;
  }

  /** Once a run has succeeded, repeating it writes nothing. */
  lemma RepeatedRunWritesNothing(jsonb: Json -> Json, s: Store, wanted: Columns, ids: Ids, ids': Ids, writes: nat)
    requires Storage(jsonb) && Invariant(s) && FreshIds(s, ids) && Printable(wanted.content)
    requires
      var (s1, outcome) := Publish(jsonb, s, wanted, ids, 3);
      outcome != UniqueViolation && FreshIds(s1, ids')
    ensures
      var s1 := Publish(jsonb, s, wanted, ids, 3).0;
      Publish(jsonb, s1, wanted, ids', writes) == (s1, AlreadyServing)
  {
    hide PublishesSame, Printable, Publish, Invariant, WithSnapshot, Storage, Holds, Serves;
    var s1 := Publish(jsonb, s, wanted, ids, 3).0;
    WholeRun(jsonb, s, wanted, ids, 3);
    PublishKeeps(jsonb, s, wanted, ids, 3);
    PublishSteps(jsonb, s1, wanted, ids', writes);
  }

  // ----- whole histories

  datatype Operation = Run(wanted: Columns, ids: Ids, writes: nat) | Retire

  ghost function Apply(jsonb: Json -> Json, s: Store, op: Operation): Store {
    match op
    case Run(wanted, ids, writes) => Publish(jsonb, s, wanted, ids, writes).0
    case Retire => s.(activations := Retired(s.activations))
  }

  ghost function History(jsonb: Json -> Json, ops: seq<Operation>): Store {
    if ops == [] then Store([], []) else Apply(jsonb, History(jsonb, ops[..|ops| - 1]), ops[|ops| - 1])
  }

  lemma HistoryAppend(jsonb: Json -> Json, ops: seq<Operation>, op: Operation)
    ensures History(jsonb, ops + [op]) == Apply(jsonb, History(jsonb, ops), op)
  {
    assert (ops + [op])[..|ops|] == ops;
  }

  ghost predicate Admissible(jsonb: Json -> Json, s: Store, op: Operation) {
    op.Run? ==> FreshIds(s, op.ids) && Printable(op.wanted.content)
  }

  ghost predicate AdmissibleHistory(jsonb: Json -> Json, ops: seq<Operation>) {
    forall k :: 0 <= k < |ops| ==> Admissible(jsonb, History(jsonb, ops[..k]), ops[k])
  }

  lemma AdmissiblePrefix(jsonb: Json -> Json, ops: seq<Operation>)
    requires ops != [] && AdmissibleHistory(jsonb, ops)
    ensures
      var before := ops[..|ops| - 1];
      AdmissibleHistory(jsonb, before) && Admissible(jsonb, History(jsonb, before), ops[|ops| - 1])
  {
    hide History, Admissible;
    var before := ops[..|ops| - 1];
    forall k | 0 <= k < |before|
      ensures Admissible(jsonb, History(jsonb, before[..k]), before[k])
    {
      assert before[..k] == ops[..k] && before[k] == ops[k];
    }
  }

  /** From no snapshots, every history of runs, stopped ones too, and outside retirements keeps the invariant. */
  lemma {:induction false} HistoryKeepsInvariant(jsonb: Json -> Json, ops: seq<Operation>)
    requires Storage(jsonb) && AdmissibleHistory(jsonb, ops)
    ensures Invariant(History(jsonb, ops))
  {
    hide Invariant, Publish, Printable, AdmissibleHistory, Storage, Retired, FreshIds;
    if ops == [] {
      EmptyStore();
    } else {
      var before, op := ops[..|ops| - 1], ops[|ops| - 1];
      AdmissiblePrefix(jsonb, ops);
      HistoryKeepsInvariant(jsonb, before);
      var s := History(jsonb, before);
      match op
      case Run(wanted, ids, writes) => PublishKeeps(jsonb, s, wanted, ids, writes);
      case Retire => RetireKeeps(s);
    }
  }

  lemma EmptyStore()
    ensures Invariant(Store([], []))
  {
  }

  /** No snapshot is ever rewritten or removed: what a history has written stays the beginning of what it writes. */
  lemma {:induction false} HistoryOnlyAppends(jsonb: Json -> Json, ops: seq<Operation>, k: nat)
    requires Storage(jsonb) && AdmissibleHistory(jsonb, ops) && k <= |ops|
    ensures History(jsonb, ops[..k]).snapshots <= History(jsonb, ops).snapshots
    decreases |ops|
  {
    hide Invariant, Publish, Printable, AdmissibleHistory, Storage, Retired, FreshIds;
    if k == |ops| {
      assert ops[..k] == ops;
    } else {
      var before, op := ops[..|ops| - 1], ops[|ops| - 1];
      AdmissiblePrefix(jsonb, ops);
      HistoryOnlyAppends(jsonb, before, k);
      HistoryKeepsInvariant(jsonb, before);
      assert before[..k] == ops[..k];
      if op.Run? {
        PublishKeeps(jsonb, History(jsonb, before), op.wanted, op.ids, op.writes);
      }
    }
  }

  ghost predicate RunsOnly(ops: seq<Operation>) {
    forall k :: 0 <= k < |ops| ==> ops[k].Run?
  }

  /** A run, stopped or not, leaves no latest snapshot that was activated before and is not live. */
  lemma RunNeverStrands(jsonb: Json -> Json, s: Store, wanted: Columns, ids: Ids, writes: nat)
    requires Storage(jsonb) && Invariant(s) && FreshIds(s, ids) && Printable(wanted.content)
    requires SequenceTaken(s.activations, |s.snapshots|) ==> Serves(s)
    ensures
      var s' := Publish(jsonb, s, wanted, ids, writes).0;
      SequenceTaken(s'.activations, |s'.snapshots|) ==> Serves(s')
  {
    hide PublishesSame, Printable, Publish, Invariant, WithSnapshot, Storage, Holds, Serves, SequenceTaken, FreshIds;
    PublishSteps(jsonb, s, wanted, ids, writes);
    WithSnapshotKeeps(jsonb, s, wanted, ids);
    SameWithSnapshot(jsonb, s, wanted, ids);
    var s1 := WithSnapshot(jsonb, s, wanted, ids);
    RetiredKeys(s1.activations);
    ActivatedServes(s1, Retired(s1.activations), if s.snapshots == [] then ids.fixtureActivation else ids.randomActivation, wanted);
  }

  lemma {:induction false} RunsNeverStrand(jsonb: Json -> Json, ops: seq<Operation>)
    requires Storage(jsonb) && AdmissibleHistory(jsonb, ops) && RunsOnly(ops)
    ensures
      var s := History(jsonb, ops);
      SequenceTaken(s.activations, |s.snapshots|) ==> Serves(s)
  {
    hide Invariant, Publish, Printable, AdmissibleHistory, Storage, FreshIds, Serves, SequenceTaken;
    if ops == [] {
      NothingTaken();
    } else {
      var before, op := ops[..|ops| - 1], ops[|ops| - 1];
      AdmissiblePrefix(jsonb, ops);
      HistoryKeepsInvariant(jsonb, before);
      RunsNeverStrand(jsonb, before);
      RunNeverStrands(jsonb, History(jsonb, before), op.wanted, op.ids, op.writes);
    }
  }

  lemma NothingTaken()
    ensures !SequenceTaken([], 0)
  {
  }

  /**
   While nothing else retires activations, a whole run is never refused and ends serving what it asked for,
   whatever mix of whole runs and runs that were cut short came before it.
   */
  lemma WholeRunsServe(jsonb: Json -> Json, ops: seq<Operation>, wanted: Columns, ids: Ids, writes: nat)
    requires Storage(jsonb) && AdmissibleHistory(jsonb, ops) && RunsOnly(ops)
    requires FreshIds(History(jsonb, ops), ids) && Printable(wanted.content) && writes >= 3
    ensures
      var (s, outcome) := Publish(jsonb, History(jsonb, ops), wanted, ids, writes);
      outcome in {AlreadyServing, Published} && Serves(s) && Holds(s, wanted)
  {
    hide Invariant, Publish, Printable, AdmissibleHistory, Storage, FreshIds, Serves, Holds, SequenceTaken;
    HistoryKeepsInvariant(jsonb, ops);
    RunsNeverStrand(jsonb, ops);
    WholeRun(jsonb, History(jsonb, ops), wanted, ids, writes);
  }

  /** The promise fails under outside retirement: publish, retire, publish the same again, and nothing is live. */
  lemma RepublishAfterRetirementFails(jsonb: Json -> Json, wanted: Columns, ids: Ids, ids': Ids)
    requires Storage(jsonb) && Printable(wanted.content)
    requires ids'.randomSnapshot != ids.fixtureSnapshot && ids'.randomActivation != ids.fixtureActivation
    ensures
      var s := History(jsonb, [Run(wanted, ids, 3), Retire]);
      var (s', outcome) := Publish(jsonb, s, wanted, ids', 3);
      outcome == UniqueViolation && !HasLive(s'.activations) && !Serves(s')
  {
    hide PublishesSame, Printable, Publish, Storage, StableText, Invariant;
    var s0, empty := Publish(jsonb, Store([], []), wanted, ids, 3).0, Store([], []);
    EmptyStore();
    PublishSteps(jsonb, empty, wanted, ids, 3);
    PublishKeeps(jsonb, empty, wanted, ids, 3);
    WholeRun(jsonb, empty, wanted, ids, 3);
    assert [Run(wanted, ids, 3), Retire][..1] == [Run(wanted, ids, 3)];
    assert History(jsonb, [Run(wanted, ids, 3)]) == Apply(jsonb, History(jsonb, []), Run(wanted, ids, 3));
    var s := History(jsonb, [Run(wanted, ids, 3), Retire]);
    assert s == s0.(activations := Retired(s0.activations));
    RetireKeeps(s0);
    assert s.activations[0].sequence == 1;
    WholeRun(jsonb, s, wanted, ids', 3);
  }
}
