/**
 Both controllers on one Bundle: they write its status under the same field manager, and each lists only its
 own condition.  Runs of reconciles of either, with any inputs and failures, between changes by others.
 */
module SharedStatus {
  import opened Prelude
  import opened BundleApi
  import opened ServerSideApply
  import opened Status
  import R = Reconciler
  import P = ReconcileProperties
  import Runs
  import H = Handover
  import HandoverRuns

  const CONDITIONS := {SYNCED, H.DEPRECATED, H.MIGRATED}

  /** The ClusterBundle, the conditions and the package version in the status of the Bundle, and the targets. */
  datatype State = State(cluster: Option<H.Fields>, stored: StoredConditions, version: string, targets: R.TargetMap)

  /** A reconcile of the Bundle controller, with whether its status patch is stored; one of the hand-over; or
      anything that others do. */
  datatype Event =
    | Sync(world: R.World, trace: R.Trace, patch: Option<BundleStatus>, err: bool, events: nat, written: bool)
    | Migrate(bundle: Bundle, faults: H.CallFaults, now: int)
    | Other

  function Migrated(s: State, e: Event): (H.State, bool)
    requires e.Migrate?
  {
    H.Reconciled(H.State(s.cluster, s.stored), e.bundle, e.faults, e.now)
  }

  ghost predicate SameConditions(a: StoredConditions, b: StoredConditions) {
    forall kind :: kind in CONDITIONS ==> (if kind in a then kind in b && b[kind] == a[kind] else kind !in b)
  }

  predicate Stores(e: Event) {
    e.Sync? && e.patch.Some? && e.written && |e.patch.value.conditions| == 1
  }

  /** The status of the hand-over lists no package version, so that applying it drops the one that the manager
      had applied before. */
  ghost predicate Steps(s: State, e: Event, s': State) {
    match e
    case Sync(w, tr, patch, err, events, written) =>
      && ReadAs(s.stored, R.Existing(w)) && R.Reconciled(w, s.targets, s'.targets, tr, patch, err, events)
      && s'.cluster == s.cluster && w.bundle.status.defaultCAPackageVersion == s.version
      && s'.stored == (if Stores(e) then ApplyCondition(s.stored, patch.value.conditions[0]) else s.stored)
      && s'.version == (if Stores(e) then patch.value.defaultCAPackageVersion else s.version)
    case Migrate(b, faults, now) =>
      && ReadAs(s.stored, b.status.conditions) && s'.targets == s.targets
      && H.State(s'.cluster, s'.stored) == Migrated(s, e).0
      && s'.version == (if Migrated(s, e).1 then "" else s.version)
    case Other => SameConditions(s.stored, s'.stored) && s'.version == s.version
  }

  ghost predicate IsRun(states: seq<State>, events: seq<Event>) {
    && |states| == |events| + 1
    && (forall kind :: kind in CONDITIONS ==> kind !in states[0].stored) && states[0].version == ""
    && forall i :: 0 <= i < |events| ==> Steps(states[i], events[i], states[i + 1])
  }

  function MigrationKind(s: State): string {
    if H.UserManaged(s.cluster) then H.MIGRATED else H.DEPRECATED
  }

  /** The type of the condition that a step writes, if it writes one. */
  function WrittenKind(s: State, e: Event): Option<string> {
    match e
    case Sync(_, _, patch, _, _, written) => if patch.Some? && written then Some(SYNCED) else None
    case Migrate(_, _, _) =>
      if !Migrated(s, e).1 then None
      else Some(MigrationKind(s))
    case Other => None
  }

  function LastWritten(states: seq<State>, events: seq<Event>, i: nat): Option<string>
    requires i <= |events| < |states|
  {
    if i == 0 then None
    else
      var kind := WrittenKind(states[i - 1], events[i - 1]);
      if kind.Some? then kind else LastWritten(states, events, i - 1)
  }

  // ---------- What one write does ----------

  ghost predicate SoleOwner(stored: StoredConditions) {
    forall kind :: kind in CONDITIONS && kind in stored ==> stored[kind].owners == {MANAGER}
  }

  /** Of the three conditions exactly the one that was written is left. */
  ghost predicate Only(stored: StoredConditions, last: Option<string>) {
    forall kind :: kind in CONDITIONS ==> (kind in stored <==> last == Some(kind))
  }

  lemma WriteDecides(stored: StoredConditions, c: Condition)
    requires SoleOwner(stored) && c.kind in CONDITIONS
    ensures SoleOwner(ApplyCondition(stored, c)) && Only(ApplyCondition(stored, c), Some(c.kind))
  {
  }

  /** A status patch of the Bundle controller lists the Synced condition alone. */
  lemma PatchListsSynced(w: R.World, before: R.TargetMap, after: R.TargetMap, tr: R.Trace,
                         patch: Option<BundleStatus>, err: bool, events: nat)
    requires R.Reconciled(w, before, after, tr, patch, err, events) && patch.Some?
    ensures |patch.value.conditions| == 1 && patch.value.conditions[0].kind == SYNCED
    ensures patch.value.conditions[0].lastTransitionTime
         == TransitionTime(R.Existing(w), patch.value.conditions[0], w.now)
  {
    hide R.Reconciled, R.PatchWith, R.SourcesStatus, R.ApplyStatus, R.SecretsStatus, TransitionTime;
    Runs.PatchShape(w, before, after, tr, patch, err, events);
    Runs.FailuresSay(w);
    Runs.SuccessSays(w, tr.id);
  }

  lemma SyncDecides(s: State, e: Event, s': State, last: Option<string>)
    requires Steps(s, e, s') && e.Sync? && SoleOwner(s.stored) && Only(s.stored, last)
    ensures SoleOwner(s'.stored)
    ensures Only(s'.stored, if WrittenKind(s, e).Some? then WrittenKind(s, e) else last)
  {
    hide R.Reconciled, ApplyCondition, TransitionTime, ReadAs, SoleOwner, Only;
    if e.patch.Some? {
      PatchListsSynced(e.world, s.targets, s'.targets, e.trace, e.patch, e.err, e.events);
      assert SYNCED in CONDITIONS;
      WriteDecides(s.stored, e.patch.value.conditions[0]);
    }
  }

  /** What a completed reconcile of the hand-over writes. */
  lemma MigrationWrites(s: State, e: Event) returns (c: Condition)
    requires e.Migrate? && Migrated(s, e).1
    ensures Migrated(s, e).0.stored == ApplyCondition(s.stored, c) && c.kind == MigrationKind(s)
    ensures c.kind in CONDITIONS
  {
    hide H.Patched, ApplyCondition, TransitionTime;
    c := if H.UserManaged(s.cluster) then H.MigratedCondition(e.bundle) else H.DeprecatedCondition(e.bundle);
    c := c.(lastTransitionTime := TransitionTime(e.bundle.status.conditions, c, e.now));
  }

  lemma MigrationFails(s: State, e: Event)
    requires e.Migrate? && !Migrated(s, e).1
    ensures Migrated(s, e).0.stored == s.stored
  {
    hide H.Patched, H.WithCondition;
  }

  lemma MigrateDecides(s: State, e: Event, s': State, last: Option<string>)
    requires e.Migrate? && s'.stored == Migrated(s, e).0.stored && SoleOwner(s.stored) && Only(s.stored, last)
    ensures SoleOwner(s'.stored)
    ensures Only(s'.stored, if WrittenKind(s, e).Some? then WrittenKind(s, e) else last)
  {
    hide Migrated, ApplyCondition, SoleOwner, Only, MigrationKind;
    if Migrated(s, e).1 {
      var c := MigrationWrites(s, e);
      WriteDecides(s.stored, c);
    } else {
      MigrationFails(s, e);
    }
  }

  lemma MigrationStored(s: State, e: Event, s': State)
    requires Steps(s, e, s') && e.Migrate?
    ensures s'.stored == Migrated(s, e).0.stored
  {
    hide Migrated, ReadAs;
  }

  lemma OtherDecides(s: State, s': State, last: Option<string>)
    requires SameConditions(s.stored, s'.stored) && SoleOwner(s.stored) && Only(s.stored, last)
    ensures SoleOwner(s'.stored) && Only(s'.stored, last)
  {
  }

  lemma StepDecides(s: State, e: Event, s': State, last: Option<string>)
    requires Steps(s, e, s') && SoleOwner(s.stored) && Only(s.stored, last)
    ensures SoleOwner(s'.stored)
    ensures Only(s'.stored, if WrittenKind(s, e).Some? then WrittenKind(s, e) else last)
  {
    hide SoleOwner, Only, SameConditions, R.Reconciled, ReadAs, ApplyCondition, Migrated, MigrationKind;
    match e
    case Sync(_, _, _, _, _, _) => SyncDecides(s, e, s', last);
    case Migrate(_, _, _) =>
      MigrationStored(s, e, s');
      MigrateDecides(s, e, s', last);
    case Other => OtherDecides(s, s', last);
  }

  // ---------- Every run ----------

  lemma StepAt(states: seq<State>, events: seq<Event>, i: nat)
    requires IsRun(states, events) && i < |events|
    ensures |states| == |events| + 1 && Steps(states[i], events[i], states[i + 1])
  {
  }

  lemma StartsEmpty(states: seq<State>, events: seq<Event>)
    requires IsRun(states, events)
    ensures |states| == |events| + 1 && SoleOwner(states[0].stored) && Only(states[0].stored, None)
    ensures states[0].version == ""
  {
  }

  /** In every state of every run, of the conditions Synced, Deprecated and Migrated exactly the one is present
      that was written last. */
  lemma {:induction false} LastWriteDecides(states: seq<State>, events: seq<Event>, i: nat)
    requires IsRun(states, events) && i <= |events| < |states|
    ensures SoleOwner(states[i].stored) && Only(states[i].stored, LastWritten(states, events, i))
  {
    hide IsRun, Steps, SoleOwner, Only, WrittenKind;
    if i == 0 {
      StartsEmpty(states, events);
    } else {
      LastWriteDecides(states, events, i - 1);
      StepAt(states, events, i - 1);
      StepDecides(states[i - 1], events[i - 1], states[i], LastWritten(states, events, i - 1));
    }
  }

  lemma VersionStep(s: State, e: Event, s': State, last: Option<string>)
    requires Steps(s, e, s') && (s.version != "" ==> last == Some(SYNCED))
    ensures s'.version != "" ==> (if WrittenKind(s, e).Some? then WrittenKind(s, e) else last) == Some(SYNCED)
  {
    hide R.Reconciled, Migrated, ReadAs, ApplyCondition, MigrationKind, SameConditions;
  }

  /** A package version is reported only while the Bundle controller's was the last status write. */
  lemma {:induction false} VersionGoesWithSynced(states: seq<State>, events: seq<Event>, i: nat)
    requires IsRun(states, events) && i <= |events| < |states|
    ensures states[i].version != "" ==> LastWritten(states, events, i) == Some(SYNCED)
  {
    hide IsRun, Steps, WrittenKind;
    if i == 0 {
      StartsEmpty(states, events);
    } else {
      VersionGoesWithSynced(states, events, i - 1);
      StepAt(states, events, i - 1);
      VersionStep(states[i - 1], events[i - 1], states[i], LastWritten(states, events, i - 1));
    }
  }

  /** Exactly one of Deprecated and Migrated is present in a state if and only if the last status write was one of
      the hand-over: every status write of the Bundle controller drops both. */
  lemma ExactlyOneMeans(states: seq<State>, events: seq<Event>, i: nat)
    requires IsRun(states, events) && i <= |events| < |states|
    ensures HandoverRuns.ExactlyOne(states[i].stored) <==>
            LastWritten(states, events, i) in {Some(H.DEPRECATED), Some(H.MIGRATED)}
    ensures SYNCED in states[i].stored <==> LastWritten(states, events, i) == Some(SYNCED)
  {
    hide IsRun, LastWritten;
    LastWriteDecides(states, events, i);
    assert SYNCED in CONDITIONS && H.DEPRECATED in CONDITIONS && H.MIGRATED in CONDITIONS;
  }

  /** A status write of the manager keeps exactly one migration condition if and only if it writes one. */
  lemma WriteKeepsExactlyOne(s: H.State, c: Condition)
    requires HandoverRuns.Inv(s) && HandoverRuns.ExactlyOne(s.stored)
    ensures HandoverRuns.ExactlyOne(ApplyCondition(s.stored, c)) <==> c.kind in HandoverRuns.MIGRATION_CONDITIONS
  {
    assert H.DEPRECATED in HandoverRuns.MIGRATION_CONDITIONS && H.MIGRATED in HandoverRuns.MIGRATION_CONDITIONS;
  }

  // ---------- The two controllers never come to rest ----------

  /** Where Synced is missing, every successful reconcile of the Bundle controller writes the status, and dates
      the condition anew. */
  lemma SyncedIsRenewed(w: R.World, before: R.TargetMap, after: R.TargetMap, tr: R.Trace,
                        patch: Option<BundleStatus>, err: bool, events: nat, stored: StoredConditions)
    requires R.Reconciled(w, before, after, tr, patch, err, events) && tr.stage == R.Synced
    requires ReadAs(stored, R.Existing(w)) && SYNCED !in stored
    ensures patch.Some? && |patch.value.conditions| == 1
    ensures patch.value.conditions[0].lastTransitionTime == w.now
  {
    P.SyncedSays(w, before, after, tr, patch, err, events);
    hide R.Reconciled;
    assert Find(R.Existing(w), SYNCED) == None;
    assert patch.Some?;
    PatchListsSynced(w, before, after, tr, patch, err, events);
  }

  lemma OneOfThemWrites(s: State, w: R.World, after: R.TargetMap, tr: R.Trace, patch: Option<BundleStatus>,
                        err: bool, events: nat, e: Event)
    requires SoleOwner(s.stored) && ReadAs(s.stored, R.Existing(w))
    requires R.Reconciled(w, s.targets, after, tr, patch, err, events) && tr.stage == R.Synced
    requires e.Migrate? && Migrated(s, e).1
    ensures patch.Some? || Migrated(s, e).0.stored != s.stored
  {
    MigrationIsNotSync(s);
    hide *;
    if SYNCED !in s.stored {
      SyncedIsRenewed(w, s.targets, after, tr, patch, err, events, s.stored);
    } else {
      var c := MigrationWrites(s, e);
      WriteDecides(s.stored, c);
      SyncedIsDropped(ApplyCondition(s.stored, c), c.kind);
    }
  }

  /** In no state of any run can both controllers rest: if a successful reconcile of the Bundle controller would
      have no news, a completed one of the hand-over would change the conditions. */
  lemma NeverAtRest(states: seq<State>, events: seq<Event>, i: nat,
                    w: R.World, after: R.TargetMap, tr: R.Trace, patch: Option<BundleStatus>,
                    err: bool, recorded: nat, e: Event)
    requires IsRun(states, events) && i <= |events| < |states|
    requires ReadAs(states[i].stored, R.Existing(w))
    requires R.Reconciled(w, states[i].targets, after, tr, patch, err, recorded) && tr.stage == R.Synced
    requires e.Migrate? && Migrated(states[i], e).1
    ensures patch.Some? || Migrated(states[i], e).0.stored != states[i].stored
  {
    hide *;
    LastWriteDecides(states, events, i);
    OneOfThemWrites(states[i], w, after, tr, patch, err, recorded, e);
  }

  lemma MigrationIsNotSync(s: State)
    ensures MigrationKind(s) != SYNCED && MigrationKind(s) in CONDITIONS
  {
  }

  lemma SyncedIsDropped(stored: StoredConditions, kind: string)
    requires Only(stored, Some(kind)) && kind != SYNCED
    ensures SYNCED !in stored
  {
    assert SYNCED in CONDITIONS;
  }
}
