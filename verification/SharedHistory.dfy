/**
 What a present Synced condition says about the past when both controllers write the status of a Bundle.
 */
module SharedHistory {
  import opened Prelude
  import opened BundleApi
  import opened Status
  import opened SharedStatus
  import R = Reconciler
  import Runs

  // ---------- Status writes ----------

  predicate Writes(s: State, e: Event) {
    WrittenKind(s, e).Some?
  }

  /** The Bundle controller stored a status patch. */
  predicate SyncWrite(s: State, e: Event) {
    e.Sync? && e.patch.Some? && e.written
  }

  /** The step of the last status write before state `i`. */
  function PreviousWrite(states: seq<State>, events: seq<Event>, i: nat): (k: Option<nat>)
    requires i <= |events| < |states|
    ensures k.Some? ==> k.value < i && Writes(states[k.value], events[k.value])
    ensures k.Some? ==> forall j :: k.value < j < i ==> !Writes(states[j], events[j])
    ensures k.None? ==> forall j :: 0 <= j < i ==> !Writes(states[j], events[j])
  {
    if i == 0 then None
    else if Writes(states[i - 1], events[i - 1]) then Some(i - 1)
    else PreviousWrite(states, events, i - 1)
  }

  function Reported(e: Event): Option<Condition> {
    if e.Sync? && e.patch.Some? && |e.patch.value.conditions| == 1 then Some(e.patch.value.conditions[0]) else None
  }

  lemma SyncWrites(s: State, e: Event)
    ensures SyncWrite(s, e) <==> WrittenKind(s, e) == Some(SYNCED)
  {
    MigrationIsNotSync(s);
    hide Migrated, MigrationKind;
  }

  lemma SyncWriteStores(s: State, e: Event, s': State)
    requires Steps(s, e, s') && SyncWrite(s, e)
    ensures Stores(e) && SYNCED in s'.stored && Reported(e) == Some(s'.stored[SYNCED].value)
  {
    hide R.Reconciled, ReadAs, TransitionTime;
    PatchListsSynced(e.world, s.targets, s'.targets, e.trace, e.patch, e.err, e.events);
  }

  /** Every other step keeps the Synced condition or drops it. */
  lemma OtherStepKeeps(s: State, e: Event, s': State)
    requires Steps(s, e, s') && !Writes(s, e)
    ensures SYNCED in s'.stored ==> SYNCED in s.stored && s'.stored[SYNCED] == s.stored[SYNCED]
  {
    assert SYNCED in CONDITIONS;
    hide R.Reconciled, ReadAs, ApplyCondition, Migrated, MigrationKind;
    if e.Migrate? {
      MigrationStored(s, e, s');
      MigrationFails(s, e);
    }
  }

  lemma {:induction false} LastIsPrevious(states: seq<State>, events: seq<Event>, i: nat)
    requires i <= |events| < |states|
    ensures var k := PreviousWrite(states, events, i);
            LastWritten(states, events, i) == if k.Some? then WrittenKind(states[k.value], events[k.value]) else None
  {
    hide WrittenKind;
    if i > 0 {
      LastIsPrevious(states, events, i - 1);
    }
  }

  /** A present Synced condition is the one that the last status write reported. */
  lemma {:induction false} SyncedIsLastReport(states: seq<State>, events: seq<Event>, i: nat) returns (k: nat)
    requires IsRun(states, events) && i <= |events| < |states|
    requires SYNCED in states[i].stored
    ensures k < i && PreviousWrite(states, events, i) == Some(k) && SyncWrite(states[k], events[k])
    ensures Reported(events[k]) == Some(states[i].stored[SYNCED].value)
  {
    hide IsRun, Steps, SyncWrite, Reported, LastWritten, SoleOwner, Only;
    LastIsPrevious(states, events, i);
    ExactlyOneMeans(states, events, i);
    k := PreviousWrite(states, events, i).value;
    SyncWrites(states[k], events[k]);
    StepAt(states, events, k);
    StepAt(states, events, i - 1);
    hide WrittenKind;
    if k == i - 1 {
      SyncWriteStores(states[k], events[k], states[i]);
    } else {
      OtherStepKeeps(states[i - 1], events[i - 1], states[i]);
      var k' := SyncedIsLastReport(states, events, i - 1);
    }
  }

  // ---------- Synced is earned ----------

  /** A present Synced condition was written by the last status write, for the generation that the step saw.  If it
      is true, the step resolved all sources and left every target desired at that step in place and current. */
  lemma SyncedIsEarned(states: seq<State>, events: seq<Event>, i: nat) returns (k: nat)
    requires IsRun(states, events) && i <= |events| < |states|
    requires SYNCED in states[i].stored
    ensures k < i && SyncWrite(states[k], events[k])
    ensures forall j :: k < j < i ==> !Writes(states[j], events[j])
    ensures var c, w, tr := states[i].stored[SYNCED].value, events[k].world, events[k].trace;
            && Reported(events[k]) == Some(c) && c.observedGeneration == w.bundle.meta.generation
            && (c.status <==> tr.stage == R.Synced)
            && (c.status ==>
                  && R.ResolvedInto(w, tr)
                  && forall r :: r in R.DesiredBy(w) ==>
                       Runs.InPlace(Runs.StatusWrite(w, tr, states[k + 1].targets, c), r))
  {
    hide IsRun, Writes, R.Reconciled, R.ResolvedInto, R.DesiredBy, Runs.InPlace, ReadAs, ApplyCondition;
    k := SyncedIsLastReport(states, events, i);
    StepAt(states, events, k);
    StepIsTruthful(states[k], events[k], states[k + 1]);
  }

  lemma StepIsTruthful(s: State, e: Event, s': State)
    requires Steps(s, e, s') && SyncWrite(s, e)
    ensures Reported(e).Some? && Runs.Truthful(Runs.StatusWrite(e.world, e.trace, s'.targets, Reported(e).value))
    ensures Reported(e).value.lastTransitionTime == TransitionTime(R.Existing(e.world), Reported(e).value, e.world.now)
    ensures ReadAs(s.stored, R.Existing(e.world))
  {
    hide R.Reconciled, Runs.Truthful, ReadAs, TransitionTime, ApplyCondition;
    Runs.PatchIsTruthful(e.world, s.targets, s'.targets, e.trace, e.patch, e.err, e.events);
  }

  // ---------- Synced is dated ----------

  function StatusOf(e: Event): bool {
    Reported(e).Some? && Reported(e).value.status
  }

  /** The write before continues the stretch: it is one of the Bundle controller with the same status. */
  predicate Continues(states: seq<State>, events: seq<Event>, k: nat)
    requires k < |events| < |states|
  {
    var p := PreviousWrite(states, events, k);
    p.Some? && SyncWrite(states[p.value], events[p.value]) && StatusOf(events[p.value]) == StatusOf(events[k])
  }

  /** The first write of the stretch of equal status that ends with the write `k`; a write of the hand-over ends
      every stretch. */
  function StretchStart(states: seq<State>, events: seq<Event>, k: nat): (start: nat)
    requires k < |events| < |states| && SyncWrite(states[k], events[k])
    ensures start <= k && SyncWrite(states[start], events[start])
    ensures !Continues(states, events, start) && StatusOf(events[start]) == StatusOf(events[k])
    ensures forall j :: start <= j <= k && Writes(states[j], events[j]) ==>
              SyncWrite(states[j], events[j]) && StatusOf(events[j]) == StatusOf(events[k])
  {
    if Continues(states, events, k) then StretchStart(states, events, PreviousWrite(states, events, k).value) else k
  }

  /** What the Bundle controller reads of the Synced condition before it writes: the report of the write before, if
      that was its own. */
  lemma ReadsPreviousReport(states: seq<State>, events: seq<Event>, k: nat)
    requires IsRun(states, events) && k < |events| < |states| && SyncWrite(states[k], events[k])
    ensures var p := PreviousWrite(states, events, k);
            Find(R.Existing(events[k].world), SYNCED)
            == if p.Some? && SyncWrite(states[p.value], events[p.value]) then Reported(events[p.value]) else None
  {
    StepAt(states, events, k);
    StepIsTruthful(states[k], events[k], states[k + 1]);
    FoundIsStored(states[k].stored, R.Existing(events[k].world));
    ExactlyOneMeans(states, events, k);
    LastIsPrevious(states, events, k);
    hide IsRun, Steps, Reported, LastWritten, Find, ReadAs;
    var p := PreviousWrite(states, events, k);
    if SYNCED in states[k].stored {
      var j := SyncedIsLastReport(states, events, k);
    } else if p.Some? {
      SyncWrites(states[p.value], events[p.value]);
    }
  }

  lemma FoundIsStored(stored: StoredConditions, conditions: seq<Condition>)
    requires ReadAs(stored, conditions)
    ensures Find(conditions, SYNCED) == if SYNCED in stored then Some(stored[SYNCED].value) else None
  {
  }

  /** The transition time of every write is the time of the step that began its stretch. */
  lemma {:induction false} WritesAreDated(states: seq<State>, events: seq<Event>, k: nat)
    requires IsRun(states, events) && k < |events| < |states| && SyncWrite(states[k], events[k])
    ensures Reported(events[k]).Some?
    ensures Reported(events[k]).value.lastTransitionTime
         == events[StretchStart(states, events, k)].world.now
  {
    ReadsPreviousReport(states, events, k);
    StepAt(states, events, k);
    StepIsTruthful(states[k], events[k], states[k + 1]);
    ReportIsSynced(states[k], events[k], states[k + 1]);
    hide IsRun, Steps, Runs.Truthful, Find, ReadAs, Reported;
    if Continues(states, events, k) {
      WritesAreDated(states, events, PreviousWrite(states, events, k).value);
    } else {
      NotContinued(states, events, k);
    }
  }

  lemma ReportIsSynced(s: State, e: Event, s': State)
    requires Steps(s, e, s') && SyncWrite(s, e)
    ensures Reported(e).Some? && Reported(e).value.kind == SYNCED
  {
    hide R.Reconciled, ReadAs, TransitionTime, ApplyCondition;
    PatchListsSynced(e.world, s.targets, s'.targets, e.trace, e.patch, e.err, e.events);
  }

  lemma NotContinued(states: seq<State>, events: seq<Event>, k: nat)
    requires k < |events| < |states| && !Continues(states, events, k)
    ensures var p := PreviousWrite(states, events, k);
            p.Some? && SyncWrite(states[p.value], events[p.value]) && Reported(events[p.value]).Some?
            && Reported(events[k]).Some? ==>
              Reported(events[p.value]).value.status != Reported(events[k]).value.status
  {
    hide PreviousWrite, SyncWrite;
  }

  /** A present Synced condition is dated by the first write of the Bundle controller since the last write of the
      hand-over or the last change of status. */
  lemma SyncedIsDated(states: seq<State>, events: seq<Event>, i: nat) returns (k: nat)
    requires IsRun(states, events) && i <= |events| < |states|
    requires SYNCED in states[i].stored
    ensures k < i && PreviousWrite(states, events, i) == Some(k) && SyncWrite(states[k], events[k])
    ensures states[i].stored[SYNCED].value.lastTransitionTime == events[StretchStart(states, events, k)].world.now
  {
    k := SyncedIsLastReport(states, events, i);
    WritesAreDated(states, events, k);
    hide IsRun, StretchStart;
  }
}
