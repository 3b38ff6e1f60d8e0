/**
 Runs of the Bundle controller: any number of reconciles, at any times and with any inputs and
 failures, between arbitrary changes by others.  Only the controller writes the Synced condition and
 the package version.
 */
module Runs {
  import opened Prelude
  import opened BundleApi
  import opened CertPools
  import opened Sources
  import opened Status
  import opened Targets
  import opened Reconciler
  import opened ReconcileProperties

  /** A stored status patch: the reconcile that computed it and the targets it left. */
  datatype StatusWrite = StatusWrite(world: World, trace: Trace, targets: TargetMap, condition: Condition)

  /** Cluster state as far as it matters here, with the status patches stored so far. */
  datatype Cluster = Cluster(stored: StoredConditions, version: string, targets: TargetMap,
                             log: seq<StatusWrite>)

  ghost predicate Initial(c: Cluster) {
    SYNCED !in c.stored && c.version == "" && c.log == []
  }

  /** One reconcile; its status patch, if any, may still fail to be stored. */
  ghost predicate ReconcileStep(c: Cluster, c': Cluster, w: World, tr: Trace, patch: Option<BundleStatus>,
                                err: bool, events: nat, written: bool)
  {
    && ReadAs(c.stored, Existing(w)) && w.bundle.status.defaultCAPackageVersion == c.version
    && Reconciled(w, c.targets, c'.targets, tr, patch, err, events)
    && if patch.Some? && written && |patch.value.conditions| == 1 then
         var condition := patch.value.conditions[0];
         && c'.stored == ApplyCondition(c.stored, condition)
         && c'.version == patch.value.defaultCAPackageVersion
         && c'.log == c.log + [StatusWrite(w, tr, c'.targets, condition)]
       else c'.stored == c.stored && c'.version == c.version && c'.log == c.log
  }

  /** Others change targets and conditions of other types at will. */
  ghost predicate OtherStep(c: Cluster, c': Cluster) {
    && c'.version == c.version && c'.log == c.log
    && (SYNCED in c'.stored <==> SYNCED in c.stored)
    && (SYNCED in c.stored ==> c'.stored[SYNCED].value == c.stored[SYNCED].value)
  }

  ghost predicate Next(c: Cluster, c': Cluster) {
    || OtherStep(c, c')
    || exists w, tr, patch, err, events, written :: ReconcileStep(c, c', w, tr, patch, err, events, written)
  }

  ghost predicate IsRun(run: seq<Cluster>) {
    && run != [] && Initial(run[0])
    && forall i :: 0 <= i < |run| - 1 ==> Next(run[i], run[i + 1])
  }

  // ---------- What the log says ----------

  /** What counts for transition times: a write's status, its transition time and when it was computed. */
  datatype Mark = Mark(status: bool, transition: int, now: int)

  ghost function Marks(log: seq<StatusWrite>): seq<Mark> {
    seq(|log|, i requires 0 <= i < |log| =>
      Mark(log[i].condition.status, log[i].condition.lastTransitionTime, log[i].world.now))
  }

  /** Where the maximal stretch of equal status that ends at `i` begins. */
  function StretchStart(marks: seq<Mark>, i: nat): (start: nat)
    requires i < |marks|
    ensures start <= i
  {
    if i == 0 || marks[i - 1].status != marks[i].status then i else StretchStart(marks, i - 1)
  }

  lemma {:induction false} StretchIsMaximal(marks: seq<Mark>, i: nat)
    requires i < |marks|
    ensures var start := StretchStart(marks, i);
            && (forall j :: start <= j <= i ==> marks[j].status == marks[i].status)
            && (start > 0 ==> marks[start - 1].status != marks[i].status)
  {
    if !(i == 0 || marks[i - 1].status != marks[i].status) {
      StretchIsMaximal(marks, i - 1);
    }
  }

  lemma {:induction false} StretchOfPrefix(marks: seq<Mark>, more: seq<Mark>, i: nat)
    requires i < |marks|
    ensures StretchStart(marks + more, i) == StretchStart(marks, i)
  {
    if i > 0 {
      StretchOfPrefix(marks, more, i - 1);
    }
  }

  /** Every transition time is the time of the step that began the stretch of equal status. */
  ghost predicate Timely(marks: seq<Mark>) {
    forall i :: 0 <= i < |marks| ==> marks[i].transition == marks[StretchStart(marks, i)].now
  }

  lemma MarksGrow(marks: seq<Mark>, m: Mark)
    requires Timely(marks)
    requires m.transition == if marks != [] && marks[|marks| - 1].status == m.status
                             then marks[|marks| - 1].transition else m.now
    ensures Timely(marks + [m])
  {
    hide StretchStart;
    forall i | 0 <= i < |marks + [m]|
      ensures (marks + [m])[i].transition == (marks + [m])[StretchStart(marks + [m], i)].now
    {
      if i < |marks| {
        OldMarkTimely(marks, m, i);
      } else {
        NewMarkTimely(marks, m);
      }
    }
  }

  lemma OldMarkTimely(marks: seq<Mark>, m: Mark, i: nat)
    requires Timely(marks) && i < |marks|
    ensures (marks + [m])[i].transition == (marks + [m])[StretchStart(marks + [m], i)].now
    ensures StretchStart(marks + [m], i) < |marks|
  {
    hide StretchStart;
    StretchOfPrefix(marks, [m], i);
    TimelyAt(marks, i);
  }

  lemma NewMarkTimely(marks: seq<Mark>, m: Mark)
    requires Timely(marks)
    requires m.transition == if marks != [] && marks[|marks| - 1].status == m.status
                             then marks[|marks| - 1].transition else m.now
    ensures (marks + [m])[|marks|].transition == (marks + [m])[StretchStart(marks + [m], |marks|)].now
  {
    hide Timely;
    if marks != [] && marks[|marks| - 1].status == m.status {
      OldMarkTimely(marks, m, |marks| - 1);
      assert StretchStart(marks + [m], |marks|) == StretchStart(marks + [m], |marks| - 1);
    }
  }

  lemma TimelyAt(marks: seq<Mark>, i: nat)
    requires Timely(marks) && i < |marks|
    ensures marks[i].transition == marks[StretchStart(marks, i)].now
  {
  }

  /** The package version after the logged writes: that of the last successful one. */
  function Reported(log: seq<StatusWrite>): string {
    if log == [] then ""
    else
      var last := log[|log| - 1];
      if last.condition.status then last.trace.id else Reported(log[..|log| - 1])
  }

  /** A write of a true condition comes from a reconcile that resolved all sources and left every target
      desired at that step in place and current; every write is about the generation it saw. */
  ghost predicate Truthful(write: StatusWrite) {
    && write.condition.kind == SYNCED
    && write.condition.observedGeneration == write.world.bundle.meta.generation
    && (write.condition.status <==> write.trace.stage == Synced)
    && (write.condition.status ==>
          && ResolvedInto(write.world, write.trace)
          && forall r :: r in DesiredBy(write.world) ==> InPlace(write, r))
  }

  ghost predicate InPlace(write: StatusWrite, r: Resource) {
    && r in write.targets
    && TemplateOf(write.world.bundle.spec.target, r.kind).Some?
    && !NeedsUpdate(write.targets[r], PlanFor(write.world, PemText(write.trace.pool), r.kind))
  }

  /** The status always reads as the last write, whose transition time is the time of the step that began
      the current stretch of equal status. */
  ghost predicate Faithful(c: Cluster) {
    && FaithfulLog(c.log)
    && c.version == Reported(c.log)
    && (SYNCED in c.stored <==> c.log != [])
    && (c.log != [] ==> c.stored[SYNCED].value == c.log[|c.log| - 1].condition)
  }

  ghost predicate FaithfulLog(log: seq<StatusWrite>) {
    (forall i :: 0 <= i < |log| ==> Truthful(log[i])) && Timely(Marks(log))
  }

  // ---------- Every run is faithful ----------

  /** A faithful log stays faithful when a truthful write carries its transition time over exactly when
      the status is unchanged. */
  lemma LogGrows(log: seq<StatusWrite>, write: StatusWrite)
    requires FaithfulLog(log) && Truthful(write)
    requires write.condition.lastTransitionTime
          == if log != [] && log[|log| - 1].condition.status == write.condition.status
             then log[|log| - 1].condition.lastTransitionTime else write.world.now
    ensures FaithfulLog(log + [write])
    ensures Reported(log + [write]) == if write.condition.status then write.trace.id else Reported(log)
  {
    hide Truthful, Timely;
    var m := Mark(write.condition.status, write.condition.lastTransitionTime, write.world.now);
    MarksGrow(Marks(log), m);
    assert Marks(log + [write]) == Marks(log) + [m];
    assert (log + [write])[..|log|] == log;
  }

  /** A stored status patch sets the Synced condition and nothing else. */
  lemma PatchShape(w: World, before: TargetMap, after: TargetMap, tr: Trace, patch: Option<BundleStatus>,
                   err: bool, events: nat)
    requires Reconciled(w, before, after, tr, patch, err, events) && patch.Some?
    ensures patch.value == if tr.stage == Synced then PatchWith(w, Success(w), tr.id)
                           else match tr.stage
                             case SourcesFailed(e) => SourcesStatus(w, e)
                             case ApplyFailed(r) => ApplyStatus(w, r)
                             case _ => SecretsStatus(w)
  {
    hide PemText, Effect, ResolvedInto, Buildable, BuildFailsWith, HasUntyped, HasNews, Stale, StaleOf, DesiredBy;
    hide NeedsApply, PanicsFor, PatchWith, Success, SourcesStatus, SecretsStatus, ApplyStatus;
  }

  /** The patch sets one condition, Synced, for the generation it saw, with the right transition time. */
  predicate Reports(w: World, p: BundleStatus, status: bool, version: string) {
    && |p.conditions| == 1 && p.defaultCAPackageVersion == version
    && var c := p.conditions[0];
       && c.kind == SYNCED && c.status == status && c.observedGeneration == w.bundle.meta.generation
       && c.lastTransitionTime == TransitionTime(Existing(w), c, w.now)
  }

  lemma FailureSays(w: World, reason: string, message: string)
    ensures Reports(w, FailureStatus(w, reason, message), false, w.bundle.status.defaultCAPackageVersion)
  {
    hide Find;
  }

  lemma SuccessSays(w: World, id: string)
    ensures Reports(w, PatchWith(w, Success(w), id), true, id)
  {
    hide Find, SuccessMessage;
  }

  lemma SyncedIsTruthful(w: World, before: TargetMap, after: TargetMap, tr: Trace, patch: Option<BundleStatus>,
                         err: bool, events: nat, c: Condition)
    requires Reconciled(w, before, after, tr, patch, err, events) && tr.stage == Synced
    requires c.kind == SYNCED && c.status && c.observedGeneration == w.bundle.meta.generation
    ensures Truthful(StatusWrite(w, tr, after, c))
  {
    SyncedSays(w, before, after, tr, patch, err, events);
    forall r | r in DesiredBy(w)
      ensures InPlace(StatusWrite(w, tr, after, c), r)
    {
      hide Reconciled, DesiredBy, NeedsUpdate, PlanFor;
      DesiredAfterwards(w, before, after, tr, patch, err, events, r);
    }
    hide Reconciled, DesiredBy, InPlace, ResolvedInto;
  }

  /** What the status patch of one reconcile says. */
  lemma PatchIsTruthful(w: World, before: TargetMap, after: TargetMap, tr: Trace, patch: Option<BundleStatus>,
                        err: bool, events: nat)
    requires Reconciled(w, before, after, tr, patch, err, events) && patch.Some?
    ensures |patch.value.conditions| == 1
    ensures var condition := patch.value.conditions[0];
            && condition.kind == SYNCED && Truthful(StatusWrite(w, tr, after, condition))
            && condition.lastTransitionTime == TransitionTime(Existing(w), condition, w.now)
            && patch.value.defaultCAPackageVersion
               == if condition.status then tr.id else w.bundle.status.defaultCAPackageVersion
  {
    hide Reconciled, PatchWith, FailureStatus, SourcesStatus, ApplyStatus, SecretsStatus, Success, TransitionTime;
    PatchShape(w, before, after, tr, patch, err, events);
    if tr.stage == Synced {
      SuccessSays(w, tr.id);
      SyncedIsTruthful(w, before, after, tr, patch, err, events, patch.value.conditions[0]);
    } else {
      FailuresSay(w);
    }
  }

  lemma FailuresSay(w: World)
    ensures forall e :: Reports(w, SourcesStatus(w, e), false, w.bundle.status.defaultCAPackageVersion)
    ensures forall r :: Reports(w, ApplyStatus(w, r), false, w.bundle.status.defaultCAPackageVersion)
    ensures Reports(w, SecretsStatus(w), false, w.bundle.status.defaultCAPackageVersion)
  {
    forall reason, message
      ensures Reports(w, FailureStatus(w, reason, message), false, w.bundle.status.defaultCAPackageVersion)
    {
      FailureSays(w, reason, message);
    }
    hide Reports, FailureStatus;
  }

  lemma ReconcileKeepsFaith(c: Cluster, c': Cluster, w: World, tr: Trace, patch: Option<BundleStatus>,
                            err: bool, events: nat)
    requires Faithful(c) && ReconcileStep(c, c', w, tr, patch, err, events, true) && patch.Some?
    ensures Faithful(c')
  {
    hide Reconciled, Truthful, FaithfulLog, Reported, Find;
    PatchIsTruthful(w, c.targets, c'.targets, tr, patch, err, events);
    var condition := patch.value.conditions[0];
    assert Find(Existing(w), SYNCED) == if SYNCED in c.stored then Some(c.stored[SYNCED].value) else None;
    LogGrows(c.log, StatusWrite(w, tr, c'.targets, condition));
  }

  lemma NextKeepsFaith(c: Cluster, c': Cluster)
    requires Faithful(c) && Next(c, c')
    ensures Faithful(c')
  {
    hide Reconciled, FaithfulLog, Reported;
    if !OtherStep(c, c') {
      var w, tr, patch, err, events, written :| ReconcileStep(c, c', w, tr, patch, err, events, written);
      if c'.log != c.log {
        ReconcileKeepsFaith(c, c', w, tr, patch, err, events);
      }
    }
  }

  /** In every state of every run the status is faithful to the reconciles that wrote it. */
  lemma {:induction false} RunsAreFaithful(run: seq<Cluster>, i: nat)
    requires IsRun(run) && i < |run|
    ensures Faithful(run[i])
  {
    if i > 0 {
      hide Faithful, OtherStep, ReconcileStep;
      RunsAreFaithful(run, i - 1);
      var c, c' := run[i - 1], run[i];
      assert Next(run[i - 1], run[i - 1 + 1]);
      NextKeepsFaith(c, c');
    }
  }

  /** A Synced=True condition in any state of any run was written by a reconcile of the generation it
      names that resolved all sources and left every desired target current. */
  lemma SyncedIsEarned(run: seq<Cluster>, i: nat) returns (write: StatusWrite)
    requires IsRun(run) && i < |run|
    requires SYNCED in run[i].stored && run[i].stored[SYNCED].value.status
    ensures write in run[i].log && write.condition == run[i].stored[SYNCED].value
    ensures write.condition.observedGeneration == write.world.bundle.meta.generation
    ensures ResolvedInto(write.world, write.trace) && write.trace.stage == Synced
    ensures forall r :: r in DesiredBy(write.world) ==> InPlace(write, r)
  {
    RunsAreFaithful(run, i);
    hide IsRun, DesiredBy, ResolvedInto, InPlace;
    write := run[i].log[|run[i].log| - 1];
    assert Truthful(write);
  }
}
