/**
 Runs of the hand-over: any number of reconciles, with any Bundle, any failing calls and at any times,
 between arbitrary edits of the ClusterBundle by users.
 */
module HandoverRuns {
  import opened Prelude
  import opened BundleApi
  import opened ClusterBundleApi
  import opened Conversion
  import opened ServerSideApply
  import opened Status
  import opened Targets
  import opened Handover

  datatype Event = Reconcile(bundle: Bundle, faults: CallFaults, now: int) | Edit

  const MIGRATION_CONDITIONS := {DEPRECATED, MIGRATED}

  /** Users create, change and delete the ClusterBundle at will, but a field that the controller owns after
      an edit is one that it owned before and whose value is unchanged.  Nobody else writes or drops the
      two migration conditions; the Bundle controller, which drops both, joins in `SharedStatus`. */
  ghost predicate Edited(s: State, s': State) {
    && (s'.cluster.Some? ==>
          forall p :: p in s'.cluster.value && MANAGER in s'.cluster.value[p].owners ==>
            && s.cluster.Some? && p in s.cluster.value && MANAGER in s.cluster.value[p].owners
            && s.cluster.value[p].value == s'.cluster.value[p].value)
    && forall kind :: kind in MIGRATION_CONDITIONS ==>
         (if kind in s.stored then kind in s'.stored && s'.stored[kind] == s.stored[kind] else kind !in s'.stored)
  }

  ghost predicate Steps(s: State, e: Event, s': State) {
    match e
    case Reconcile(b, faults, now) =>
      ReadAs(s.stored, b.status.conditions) && s' == Handover.Reconciled(s, b, faults, now).0
    case Edit => Edited(s, s')
  }

  ghost predicate Initial(s: State) {
    && (s.cluster.Some? ==> ManagedFields(s.cluster.value) == {})
    && forall kind :: kind in MIGRATION_CONDITIONS ==> kind !in s.stored
  }

  ghost predicate IsRun(states: seq<State>, events: seq<Event>) {
    && |states| == |events| + 1 && Initial(states[0])
    && forall i :: 0 <= i < |events| ==> Steps(states[i], events[i], states[i + 1])
  }

  predicate Completes(s: State, e: Event) {
    e.Reconcile? && Handover.Reconciled(s, e.bundle, e.faults, e.now).1
  }

  // ---------- What the controller applies ----------

  lemma {:induction false} DataFieldsOnly(kind: Kind, data: seq<TargetKeyValue>)
    ensures forall p :: p in DataFields(kind, data) ==> p.DataEntry?
  {
    if data != [] {
      DataFieldsOnly(kind, data[..|data| - 1]);
    }
  }

  lemma TargetFieldsOnly(kind: Kind, t: Option<KeyValueTarget>)
    ensures forall p :: p in TargetFields(kind, t) ==> p.DataEntry? || p.TargetAnnotation? || p.TargetLabel?
  {
    if t.Some? {
      DataFieldsOnly(kind, t.value.data);
      hide DataFields;
    }
  }

  lemma SpecFieldsOnly(spec: HubSpec)
    ensures forall p :: p in SpecFields(spec) ==> !p.Annotation?
  {
    TargetFieldsOnly(ConfigMapKind, spec.target.configMap);
    TargetFieldsOnly(SecretKind, spec.target.secret);
    hide TargetFields;
  }

  /** The only annotation that is ever applied is the JKS key, so that no Bundle, whatever its own
      annotations, marks its ClusterBundle as migrated. */
  lemma PatchNeverMigrates(b: Bundle)
    ensures forall name :: Annotation(name) in PatchFor(b) ==> name == JKS_KEY_ANNOTATION
    ensures Annotation(MIGRATED_ANNOTATION) !in PatchFor(b)
  {
    SpecFieldsOnly(ToHub(b).spec);
    hide ToHub, SpecFields;
  }

  // ---------- What every step keeps ----------

  /** The controller never owns the migrated annotation, and is the only owner of the migration
      conditions, of which there is at most one. */
  ghost predicate Inv(s: State) {
    && (UserManaged(s.cluster) ==> MANAGER !in s.cluster.value[Annotation(MIGRATED_ANNOTATION)].owners)
    && (forall kind :: kind in MIGRATION_CONDITIONS && kind in s.stored ==> s.stored[kind].owners == {MANAGER})
    && !(DEPRECATED in s.stored && MIGRATED in s.stored)
  }

  predicate ExactlyOne(stored: StoredConditions) {
    DEPRECATED in stored <==> MIGRATED !in stored
  }

  /** Whether the ClusterBundle is marked as migrated is not for a reconcile to change. */
  lemma MarkKept(s: State, b: Bundle, faults: CallFaults, now: int)
    requires Inv(s)
    ensures var s' := Handover.Reconciled(s, b, faults, now).0;
            && (UserManaged(s'.cluster) <==> UserManaged(s.cluster))
            && (UserManaged(s.cluster) ==>
                  var mark := Annotation(MIGRATED_ANNOTATION);
                  s'.cluster.value[mark] == s.cluster.value[mark])
  {
    ClusterAfter(s, b, faults, now);
    PatchNeverMigrates(b);
    hide Handover.Reconciled, PatchFor, Refused;
    if UserManaged(s.cluster) {
      var mark := s.cluster.value[Annotation(MIGRATED_ANNOTATION)];
      assert mark.owners - {MANAGER} == mark.owners;
    }
  }

  lemma ClusterAfter(s: State, b: Bundle, faults: CallFaults, now: int)
    ensures var s' := Handover.Reconciled(s, b, faults, now).0;
            s'.cluster == if Patched(s.cluster, b, faults).Some? then Patched(s.cluster, b, faults) else s.cluster
  {
    hide Patched, WithCondition;
  }

  lemma ConditionApplied(s: State, b: Bundle, c: Condition, now: int)
    requires Inv(s) && c.kind in MIGRATION_CONDITIONS
    ensures var stored := WithCondition(s.stored, b, c, now);
            && (forall kind :: kind in MIGRATION_CONDITIONS ==> (kind in stored <==> kind == c.kind))
            && stored[c.kind].owners == {MANAGER}
            && stored[c.kind].value == c.(lastTransitionTime := TransitionTime(b.status.conditions, c, now))
  {
    hide TransitionTime;
  }

  lemma ReconcileKeepsInv(s: State, b: Bundle, faults: CallFaults, now: int)
    requires Inv(s)
    ensures var (s', completed) := Handover.Reconciled(s, b, faults, now);
            && Inv(s')
            && (completed ==> ExactlyOne(s'.stored) && (MIGRATED in s'.stored <==> UserManaged(s.cluster)))
            && (!completed ==> s'.stored == s.stored)
  {
    MarkKept(s, b, faults, now);
    ConditionApplied(s, b, MigratedCondition(b), now);
    ConditionApplied(s, b, DeprecatedCondition(b), now);
    hide Patched, WithCondition;
  }

  lemma EditKeepsInv(s: State, s': State)
    requires Inv(s) && Edited(s, s')
    ensures Inv(s') && (ExactlyOne(s.stored) ==> ExactlyOne(s'.stored))
  {
    assert DEPRECATED in MIGRATION_CONDITIONS && MIGRATED in MIGRATION_CONDITIONS;
  }

  lemma StepAt(states: seq<State>, events: seq<Event>, i: nat)
    requires IsRun(states, events) && i < |events|
    ensures |states| == |events| + 1 && Steps(states[i], events[i], states[i + 1])
  {
  }

  lemma {:induction false} RunsKeepInv(states: seq<State>, events: seq<Event>, i: nat)
    requires IsRun(states, events) && i <= |events|
    ensures Inv(states[i])
  {
    if i == 0 {
      assert DEPRECATED in MIGRATION_CONDITIONS && MIGRATED in MIGRATION_CONDITIONS;
      InitialInv(states[0]);
    } else {
      RunsKeepInv(states, events, i - 1);
      StepAt(states, events, i - 1);
      StepKeepsInv(states[i - 1], events[i - 1], states[i]);
    }
  }

  lemma InitialInv(s: State)
    requires Initial(s)
    ensures Inv(s)
  {
    assert DEPRECATED in MIGRATION_CONDITIONS && MIGRATED in MIGRATION_CONDITIONS;
    if UserManaged(s.cluster) {
      assert Annotation(MIGRATED_ANNOTATION) !in ManagedFields(s.cluster.value);
    }
  }

  lemma StepKeepsInv(s: State, e: Event, s': State)
    requires Inv(s) && Steps(s, e, s')
    ensures Inv(s') && (ExactlyOne(s.stored) || Completes(s, e) ==> ExactlyOne(s'.stored))
  {
    hide Inv, Handover.Reconciled, ExactlyOne, Edited;
    match e
    case Edit => EditKeepsInv(s, s');
    case Reconcile(b, faults, now) => ReconcileKeepsInv(s, b, faults, now);
  }

  // ---------- The results ----------

  /** In every run a ClusterBundle is marked as migrated after a reconcile iff it was before: only users
      set and remove the mark. */
  lemma OnlyUsersMigrate(states: seq<State>, events: seq<Event>, i: nat)
    requires IsRun(states, events) && i < |events| && events[i].Reconcile?
    ensures UserManaged(states[i + 1].cluster) <==> UserManaged(states[i].cluster)
  {
    RunsKeepInv(states, events, i);
    StepAt(states, events, i);
    MarkKept(states[i], events[i].bundle, events[i].faults, events[i].now);
    hide Inv, Handover.Reconciled;
  }

  /** From the first completed reconcile on, exactly one of the conditions Deprecated and Migrated is present
      in every state of a run in which nobody else touches them, whatever fails later. */
  lemma {:induction false} ExactlyOneCondition(states: seq<State>, events: seq<Event>, i: nat, j: nat)
    requires IsRun(states, events) && i < j <= |events| && Completes(states[i], events[i])
    ensures ExactlyOne(states[j].stored)
    decreases j
  {
    hide *;
    StepAt(states, events, j - 1);
    RunsKeepInv(states, events, j - 1);
    if i < j - 1 {
      ExactlyOneCondition(states, events, i, j - 1);
    }
    StepKeepsInv(states[j - 1], events[j - 1], states[j]);
  }

  /** A completed reconcile leaves the condition Migrated if the ClusterBundle was marked, and Deprecated otherwise:
      true, for the generation of the Bundle, and owned by the controller. */
  lemma ConditionTellsTheMark(states: seq<State>, events: seq<Event>, i: nat)
    requires IsRun(states, events) && i < |events| && Completes(states[i], events[i])
    ensures var cluster, stored := states[i].cluster, states[i + 1].stored;
            var marked := cluster.Some? && Annotation("trust-manager.io/migrated") in cluster.value;
            && ("Migrated" in stored <==> marked) && ("Deprecated" in stored <==> !marked)
            && var c := stored[if marked then "Migrated" else "Deprecated"];
               && c.owners == {"trust-manager"} && c.value.status
               && c.value.observedGeneration == events[i].bundle.meta.generation
               && c.value.reason == if marked then "MigrationDetected" else "MigrationRequired"
  {
    RunsKeepInv(states, events, i);
    StepAt(states, events, i);
    ReconcileKeepsInv(states[i], events[i].bundle, events[i].faults, events[i].now);
    ConditionWritten(states[i], events[i].bundle, events[i].faults, events[i].now);
    hide Inv, Handover.Reconciled, MigratedCondition, DeprecatedCondition;
  }

  lemma ConditionWritten(s: State, b: Bundle, faults: CallFaults, now: int)
    requires Inv(s) && Handover.Reconciled(s, b, faults, now).1
    ensures var stored := Handover.Reconciled(s, b, faults, now).0.stored;
            var kind := if UserManaged(s.cluster) then "Migrated" else "Deprecated";
            && kind in stored && stored[kind].owners == {"trust-manager"} && stored[kind].value.status
            && stored[kind].value.observedGeneration == b.meta.generation
            && stored[kind].value.reason
               == if UserManaged(s.cluster) then "MigrationDetected" else "MigrationRequired"
  {
    ConditionApplied(s, b, MigratedCondition(b), now);
    ConditionApplied(s, b, DeprecatedCondition(b), now);
    hide Patched, WithCondition, Inv;
  }

  /** A reconcile completes if and only if no call fails and, unless the ClusterBundle is marked, its patch is not
      refused; before its patch is through it changes nothing, and before its status is written no condition. */
  lemma CompletesExactly(s: State, b: Bundle, faults: CallFaults, now: int)
    ensures var (s', completed) := Handover.Reconciled(s, b, faults, now);
            && (completed <==> !faults.get && !faults.patch && !faults.status
                               && (UserManaged(s.cluster) || !Refused(b)))
            && (faults.get || faults.patch || (!UserManaged(s.cluster) && Refused(b)) ==> s' == s)
            && (faults.status ==> s'.stored == s.stored)
  {
    hide Refused, PatchFor, Apply, WithCondition;
  }

  /** Both controllers share a field manager: a completed reconcile drops the condition of any other type
      unless somebody else owns it too, the Synced condition of the Bundle among them. */
  lemma OtherConditionsDropped(s: State, b: Bundle, faults: CallFaults, now: int, kind: string)
    requires Completes(s, Reconcile(b, faults, now)) && kind !in MIGRATION_CONDITIONS
    ensures kind in Handover.Reconciled(s, b, faults, now).0.stored <==>
            kind in s.stored && s.stored[kind].owners != {MANAGER}
  {
    hide Patched;
  }

  /** Once marked, no reconcile changes or removes a field that somebody else owns, or adds one. */
  lemma UserFieldsSurvive(s: State, b: Bundle, faults: CallFaults, now: int, p: Path)
    requires UserManaged(s.cluster)
    ensures var s' := Handover.Reconciled(s, b, faults, now).0;
            && s'.cluster.Some?
            && (p in s.cluster.value && s.cluster.value[p].owners != {MANAGER} ==>
                  p in s'.cluster.value && s'.cluster.value[p].value == s.cluster.value[p].value
                  && s'.cluster.value[p].owners - {MANAGER} == s.cluster.value[p].owners - {MANAGER})
            && (p !in s.cluster.value ==> p !in s'.cluster.value)
  {
    hide WithCondition;
  }

  /** Before, a reconcile that gets through overrides another owner's field iff it lists another value for it. */
  lemma ManagedFieldsAreForced(s: State, b: Bundle, faults: CallFaults, now: int, p: Path)
    requires !UserManaged(s.cluster) && s.cluster.Some? && Patched(s.cluster, b, faults).Some?
    requires p in s.cluster.value && s.cluster.value[p].owners != {MANAGER}
    ensures var after := Handover.Reconciled(s, b, faults, now).0.cluster;
            && after.Some? && p in after.value
            && (after.value[p].value != s.cluster.value[p].value <==>
                exists v :: Has(ToHub(b), b.meta, p, v) && v != s.cluster.value[p].value)
  {
    PatchedIsNotRefused(s.cluster, b, faults);
    forall v
      ensures Lists(PatchFor(b), p, v) <==> Has(ToHub(b), b.meta, p, v)
    {
      PatchListsExactly(b, p, v);
    }
    hide WithCondition, PatchFor, Refused, Has, ToHub;
    if p in PatchFor(b) {
      assert Lists(PatchFor(b), p, PatchFor(b)[p]);
    }
  }

  lemma PatchedIsNotRefused(cluster: Option<Fields>, b: Bundle, faults: CallFaults)
    requires !UserManaged(cluster) && Patched(cluster, b, faults).Some?
    ensures !Refused(b)
  {
    hide Refused, PatchFor, Apply;
  }

  /** A reconcile of an unmarked ClusterBundle that gets through leaves the controller in charge of exactly the
      fields of the converted Bundle, with the values they have there: none is missing and there is no other. */
  lemma MirrorsTheBundle(s: State, b: Bundle, faults: CallFaults, now: int)
    requires !UserManaged(s.cluster) && Patched(s.cluster, b, faults).Some?
    ensures var after := Handover.Reconciled(s, b, faults, now).0.cluster;
            && after.Some?
            && forall p, v :: Has(ToHub(b), b.meta, p, v) <==>
                              p in after.value && MANAGER in after.value[p].owners && after.value[p].value == v
  {
    PatchedIsNotRefused(s.cluster, b, faults);
    var fields := if s.cluster.Some? then s.cluster.value else map[];
    var after := Handover.Reconciled(s, b, faults, now).0.cluster;
    assert after == Some(Apply(fields, PatchFor(b))) by { hide WithCondition, PatchFor, Refused, Apply; }
    AppliedAsListed(fields, PatchFor(b));
    hide Handover.Reconciled, PatchFor, Refused, Apply, Has, ToHub;
    forall p, v
      ensures Has(ToHub(b), b.meta, p, v) <==>
              p in after.value && MANAGER in after.value[p].owners && after.value[p].value == v
    {
      PatchListsExactly(b, p, v);
      assert p in PatchFor(b) <==> p in ManagedFields(after.value);
    }
  }

  /** A reconcile that found the mark and withdrew. */
  predicate Withdraws(s: State, e: Event) {
    e.Reconcile? && UserManaged(s.cluster) && !e.faults.get && !e.faults.patch
  }

  ghost predicate OwnsNothing(s: State) {
    s.cluster.Some? ==> ManagedFields(s.cluster.value) == {}
  }

  lemma WithdrawalStep(s: State, e: Event, s': State)
    requires Steps(s, e, s') && Withdraws(s, e)
    ensures OwnsNothing(s')
    ensures OwnsNothing(s) ==> s'.cluster == s.cluster
  {
    hide WithCondition, Apply, ManagedFields, ReadAs;
    WithdrawalKeepsContent(s.cluster.value);
    if ManagedFields(s.cluster.value) == {} {
      NothingToWithdraw(s.cluster.value);
    }
  }

  /** While the mark stays, owning nothing is kept by every step, and reconciles change nothing. */
  lemma NothingStaysNothing(s: State, e: Event, s': State)
    requires OwnsNothing(s) && UserManaged(s.cluster) && Steps(s, e, s')
    ensures OwnsNothing(s') && (e.Reconcile? ==> s'.cluster == s.cluster)
  {
    if e.Reconcile? {
      hide Apply, ManagedFields, WithCondition, ReadAs;
      NothingToWithdraw(s.cluster.value);
    } else if s'.cluster.Some? {
      forall p | p in s'.cluster.value
        ensures MANAGER !in s'.cluster.value[p].owners
      {
        assert p in s.cluster.value ==> p !in ManagedFields(s.cluster.value);
      }
    }
  }

  /** After one withdrawal the controller owns no field of the ClusterBundle, and every later reconcile leaves
      the ClusterBundle exactly as it is, for as long as the mark stays. */
  lemma {:induction false} HandedOver(states: seq<State>, events: seq<Event>, i: nat, j: nat)
    requires IsRun(states, events) && i < j <= |events| && Withdraws(states[i], events[i])
    requires forall k :: i <= k < j ==> UserManaged(states[k].cluster)
    ensures OwnsNothing(states[j])
    ensures j < |events| && UserManaged(states[j].cluster) && events[j].Reconcile? ==>
              states[j + 1].cluster == states[j].cluster
    decreases j
  {
    hide *;
    StepAt(states, events, j - 1);
    if i == j - 1 {
      WithdrawalStep(states[i], events[i], states[j]);
    } else {
      HandedOver(states, events, i, j - 1);
      NothingStaysNothing(states[j - 1], events[j - 1], states[j]);
    }
    if j < |events| && UserManaged(states[j].cluster) {
      StepAt(states, events, j);
      NothingStaysNothing(states[j], events[j], states[j + 1]);
    }
  }

  /** The withdrawal keeps the whole content iff the controller owned no field alone; the controlling owner
      reference goes exactly if nobody else owns it, so that deleting the Bundle does not take the
      ClusterBundle along. */
  lemma ContentHandedOver(s: State, e: Event, s': State)
    requires Steps(s, e, s') && Withdraws(s, e)
    ensures s'.cluster.Some?
    ensures ServerSideApply.Values(s'.cluster.value) == ServerSideApply.Values(s.cluster.value) <==>
            forall p :: p in s.cluster.value ==> s.cluster.value[p].owners != {MANAGER}
    ensures forall uid :: ControllerReference(uid) in s'.cluster.value <==>
              ControllerReference(uid) in s.cluster.value
              && s.cluster.value[ControllerReference(uid)].owners != {MANAGER}
  {
    WithdrawnCluster(s, e, s');
    WithdrawalKeepsContent(s.cluster.value);
    hide Handover.Reconciled, Steps, UserManaged, Values, ManagedFields;
  }

  lemma WithdrawnCluster(s: State, e: Event, s': State)
    requires Steps(s, e, s') && Withdraws(s, e)
    ensures s.cluster.Some? && s'.cluster == Some(Apply(s.cluster.value, map[]))
  {
    hide WithCondition, ReadAs, Apply;
  }

  /** A second reconcile of the same Bundle, with its status read back, changes nothing. */
  lemma SecondReconcile(s: State, b: Bundle, faults: CallFaults, now: int, b': Bundle, faults': CallFaults, now': int)
    requires Inv(s) && Completes(s, Reconcile(b, faults, now))
    requires var s' := Handover.Reconciled(s, b, faults, now).0;
             b' == b.(status := b'.status) && ReadAs(s'.stored, b'.status.conditions)
    ensures var s' := Handover.Reconciled(s, b, faults, now).0;
            Handover.Reconciled(s', b', faults', now').0 == s'
  {
    hide *;
    SecondPatch(s, b, faults, now, b', faults', now');
    SecondCondition(s, b, faults, now, b', now');
    OnlyPatchAndCondition(Handover.Reconciled(s, b, faults, now).0, b', faults', now');
  }

  /** A reconcile that would change neither the ClusterBundle nor the conditions changes nothing. */
  lemma OnlyPatchAndCondition(s: State, b: Bundle, faults: CallFaults, now: int)
    requires s.cluster.Some? && Patched(s.cluster, b, faults) in {None, s.cluster}
    requires var c := if UserManaged(s.cluster) then MigratedCondition(b) else DeprecatedCondition(b);
             WithCondition(s.stored, b, c, now) == s.stored
    ensures Handover.Reconciled(s, b, faults, now).0 == s
  {
    hide Patched, WithCondition;
  }

  lemma SecondPatch(s: State, b: Bundle, faults: CallFaults, now: int, b': Bundle, faults': CallFaults, now': int)
    requires Inv(s) && Completes(s, Reconcile(b, faults, now)) && b' == b.(status := b'.status)
    ensures var s' := Handover.Reconciled(s, b, faults, now).0;
            s'.cluster.Some? && Patched(s'.cluster, b', faults') in {None, s'.cluster}
  {
    MarkKept(s, b, faults, now);
    SamePatch(b, b');
    PatchedOnce(s, b, faults, now);
    hide Inv, Handover.Reconciled, PatchFor, Refused, Apply, ManagedFields, UserManaged;
    if UserManaged(s.cluster) {
      WithdrawalKeepsContent(s.cluster.value);
      NothingToWithdraw(Apply(s.cluster.value, map[]));
    } else {
      ApplyTwice(if s.cluster.Some? then s.cluster.value else map[], PatchFor(b));
    }
  }

  lemma PatchedOnce(s: State, b: Bundle, faults: CallFaults, now: int)
    requires Completes(s, Reconcile(b, faults, now))
    ensures Patched(s.cluster, b, faults).Some?
    ensures Handover.Reconciled(s, b, faults, now).0.cluster == Patched(s.cluster, b, faults)
    ensures UserManaged(s.cluster) ==> s.cluster.Some?
  {
    hide PatchFor, Refused, Apply, WithCondition;
  }

  lemma SecondCondition(s: State, b: Bundle, faults: CallFaults, now: int, b': Bundle, now': int)
    requires Inv(s) && Completes(s, Reconcile(b, faults, now)) && b' == b.(status := b'.status)
    requires ReadAs(Handover.Reconciled(s, b, faults, now).0.stored, b'.status.conditions)
    ensures var s' := Handover.Reconciled(s, b, faults, now).0;
            var c := if UserManaged(s'.cluster) then MigratedCondition(b') else DeprecatedCondition(b');
            WithCondition(s'.stored, b', c, now') == s'.stored
  {
    MarkKept(s, b, faults, now);
    SameConditions(b, b');
    var c := if UserManaged(s.cluster) then MigratedCondition(b) else DeprecatedCondition(b);
    assert c.kind in MIGRATION_CONDITIONS;
    hide Inv, WithCondition, Patched, ReadAs, MigratedCondition, DeprecatedCondition;
    assert Handover.Reconciled(s, b, faults, now).0.stored == WithCondition(s.stored, b, c, now);
    ConditionTwice(s, b, c, now, b', now');
  }

  lemma SameConditions(b: Bundle, b': Bundle)
    requires b' == b.(status := b'.status)
    ensures MigratedCondition(b') == MigratedCondition(b) && DeprecatedCondition(b') == DeprecatedCondition(b)
  {
  }

  lemma SamePatch(b: Bundle, b': Bundle)
    requires b' == b.(status := b'.status)
    ensures PatchFor(b') == PatchFor(b) && Refused(b') == Refused(b)
  {
    assert ToHub(b').spec == ToHub(b).spec && ToHub(b').meta == ToHub(b).meta;
    hide ToHub, SpecFields;
  }

  lemma ConditionTwice(s: State, b: Bundle, c: Condition, now: int, b': Bundle, now': int)
    requires Inv(s) && c.kind in MIGRATION_CONDITIONS
    requires ReadAs(WithCondition(s.stored, b, c, now), b'.status.conditions)
    ensures WithCondition(WithCondition(s.stored, b, c, now), b', c, now') == WithCondition(s.stored, b, c, now)
  {
    ConditionApplied(s, b, c, now);
    var once := WithCondition(s.stored, b, c, now);
    assert Find(b'.status.conditions, c.kind) == Some(once[c.kind].value);
    var stamped := c.(lastTransitionTime := TransitionTime(b.status.conditions, c, now));
    assert TransitionTime(b'.status.conditions, c, now') == stamped.lastTransitionTime;
    ApplyTwice(s.stored, map[c.kind := stamped]);
    hide TransitionTime, Apply;
  }
}
