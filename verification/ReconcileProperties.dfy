/**
 What reconciling promises about targets: it converges on the desired set, it never touches what is
 neither desired nor controlled by the Bundle, other managers' data survives every outcome, and a
 second reconcile with unchanged inputs does nothing.
 */
module ReconcileProperties {
  import opened Prelude
  import opened CertPools
  import opened PoolProperties
  import opened BundleApi
  import opened Sources
  import opened BuildProperties
  import opened ServerSideApply
  import opened Status
  import opened Targets
  import opened Reconciler

  /** Labelled, controlled by the bundle, not being deleted, of an enabled kind, in an allowed namespace. */
  function Owned(w: World, targets: TargetMap): set<Resource> {
    set r | r in targets && EnabledKind(w.options, r.kind) && Listed(w, r, targets[r])
            && ControlledBy(targets[r], w.bundle.meta.uid) && !targets[r].deleting
  }

  predicate BeingDeleted(targets: TargetMap, r: Resource) {
    r in targets && targets[r].deleting
  }

  /** Stale targets that hold entries of somebody else. */
  function Shared(w: World, targets: TargetMap): set<Resource> {
    set r | r in Stale(w, targets) && r in targets && HasForeignData(targets[r])
  }

  ghost predicate CleanupWorks(w: World) {
    forall r :: w.faults.cleanup(r) == CleansUp
  }

  // ---------- Convergence ----------

  /** After a successful reconcile a desired target exists, is current and is owned unless its deletion
      had begun before. */
  lemma DesiredAfterwards(w: World, before: TargetMap, after: TargetMap, tr: Trace,
                          patch: Option<BundleStatus>, err: bool, events: nat, r: Resource)
    requires Reconciled(w, before, after, tr, patch, err, events) && tr.stage == Synced
    requires r in DesiredBy(w)
    ensures r in after && TemplateOf(w.bundle.spec.target, r.kind).Some?
    ensures !NeedsUpdate(after[r], PlanFor(w, PemText(tr.pool), r.kind))
    ensures after[r].deleting == BeingDeleted(before, r)
    ensures r in Owned(w, after) <==> !BeingDeleted(before, r)
  {
    var pem := PemText(tr.pool);
    DesiredIsAllowed(w, r);
    hide PemText, DesiredBy, Render;
    assert r !in tr.cleaned;
    assert Lookup(after, r) == if r in tr.applied then ApplyResult(w, pem, before, r) else Lookup(before, r);
    if r in tr.applied {
      AppliedIsCurrent(Lookup(before, r), PlanFor(w, pem, r.kind), RenderFor(w, pem, r.kind).value);
    } else {
      assert !NeedsApply(w, pem, before, r);
    }
  }

  lemma DesiredIsAllowed(w: World, r: Resource)
    requires r in DesiredBy(w)
    ensures AllowedNamespace(w.options, r.namespace)
    ensures TemplateOf(w.bundle.spec.target, r.kind).Some?
    ensures w.options.secretTargetsEnabled || w.bundle.spec.target.secret.None? ==> EnabledKind(w.options, r.kind)
  {
  }

  lemma UndesiredAfterwards(w: World, before: TargetMap, after: TargetMap, tr: Trace,
                            patch: Option<BundleStatus>, err: bool, events: nat, r: Resource)
    requires Reconciled(w, before, after, tr, patch, err, events) && tr.stage == Synced && CleanupWorks(w)
    requires r !in DesiredBy(w)
    ensures Lookup(after, r)
         == if r in Stale(w, before) then Cleaned(before[r], w.bundle.meta.name, w.bundle.meta.uid)
            else Lookup(before, r)
    ensures r in Owned(w, after) <==> r in Shared(w, before)
  {
    EffectAt(w, before, after, tr, patch, err, events, r);
    SyncedSays(w, before, after, tr, patch, err, events);
    hide Reconciled, PemText, DesiredBy, Cleaned, HasForeignData, ApplyResult;
    if r in Stale(w, before) {
      CleanedUp(before[r], w.bundle.meta.name, w.bundle.meta.uid);
      CleanedKeepsMarks(before[r], w.bundle.meta.name, w.bundle.meta.uid);
    }
  }

  lemma CleanedKeepsMarks(obj: TargetObject, bundle: string, uid: string)
    ensures Cleaned(obj, bundle, uid).Some? ==>
              var left := Cleaned(obj, bundle, uid).value;
              left.owner == Some(bundle) && left.controller == Some(uid) && left.deleting == obj.deleting
  {
  }

  /** A successful reconcile whose cleanups work leaves the bundle in control of the desired targets that
      are not being deleted, and of the stale targets that other managers still have data in. */
  lemma Convergence(w: World, before: TargetMap, after: TargetMap, tr: Trace,
                    patch: Option<BundleStatus>, err: bool, events: nat)
    requires Reconciled(w, before, after, tr, patch, err, events) && tr.stage == Synced && CleanupWorks(w)
    ensures Owned(w, after) == (set r | r in DesiredBy(w) && !BeingDeleted(before, r)) + Shared(w, before)
  {
    forall r
      ensures r in Owned(w, after) <==>
              (r in DesiredBy(w) && !BeingDeleted(before, r)) || r in Shared(w, before)
    {
      if r in DesiredBy(w) {
        DesiredAfterwards(w, before, after, tr, patch, err, events, r);
        assert r !in Stale(w, before);
      } else {
        UndesiredAfterwards(w, before, after, tr, patch, err, events, r);
      }
    }
  }

  /** The owned targets are exactly the desired ones if and only if no desired target was being deleted
      and no stale target held data of another manager. */
  lemma ConvergesExactly(w: World, before: TargetMap, after: TargetMap, tr: Trace,
                         patch: Option<BundleStatus>, err: bool, events: nat)
    requires Reconciled(w, before, after, tr, patch, err, events) && tr.stage == Synced && CleanupWorks(w)
    ensures Owned(w, after) == DesiredBy(w) <==>
            (forall r :: r in DesiredBy(w) ==> !BeingDeleted(before, r)) && Shared(w, before) == {}
  {
    Convergence(w, before, after, tr, patch, err, events);
    SharedIsUndesired(w, before);
    hide *;
    SameSets(Owned(w, after), DesiredBy(w), Shared(w, before), before);
  }

  lemma SameSets(owned: set<Resource>, desired: set<Resource>, shared: set<Resource>, before: TargetMap)
    requires owned == (set r | r in desired && !BeingDeleted(before, r)) + shared && shared !! desired
    ensures owned == desired <==> (forall r :: r in desired ==> !BeingDeleted(before, r)) && shared == {}
  {
    hide BeingDeleted;
    if owned == desired {
      forall r | r in desired
        ensures !BeingDeleted(before, r)
      {
        assert r in owned;
      }
      assert forall r :: r in shared ==> r in owned;
    }
  }

  lemma SharedIsUndesired(w: World, targets: TargetMap)
    ensures Shared(w, targets) !! DesiredBy(w)
  {
    hide DesiredBy, HasForeignData;
  }

  // ---------- Safety, in every outcome ----------

  /** Whatever happens, a resource that is neither desired nor labelled for and controlled by the bundle
      keeps its exact state. */
  lemma OthersUntouched(w: World, before: TargetMap, after: TargetMap, tr: Trace,
                        patch: Option<BundleStatus>, err: bool, events: nat, r: Resource)
    requires Reconciled(w, before, after, tr, patch, err, events)
    requires r !in DesiredBy(w)
    requires r in before ==> !(before[r].owner == Some(w.bundle.meta.name)
                               && ControlledBy(before[r], w.bundle.meta.uid) && !before[r].deleting)
    ensures Lookup(after, r) == Lookup(before, r)
  {
    hide PemText, DesiredBy, ApplyResult, CleanupResult, NeedsApply;
    assert r !in tr.cleaned && r !in tr.applied;
  }

  /** Whatever happens, an entry that somebody else owns keeps its value and its other owners, unless it
      is one of the entries to be written into a desired target. */
  lemma ForeignDataSurvives(w: World, before: TargetMap, after: TargetMap, tr: Trace,
                            patch: Option<BundleStatus>, err: bool, events: nat, r: Resource, k: string)
    requires Reconciled(w, before, after, tr, patch, err, events)
    requires r in before && k in before[r].data && before[r].data[k].owners != {MANAGER}
    requires r in DesiredBy(w) && TemplateOf(w.bundle.spec.target, r.kind).Some? ==>
               k !in PlanFor(w, PemText(tr.pool), r.kind).keys
    ensures r in after && k in after[r].data
    ensures after[r].data[k].value == before[r].data[k].value
    ensures after[r].data[k].owners - {MANAGER} == before[r].data[k].owners - {MANAGER}
  {
    var pem := PemText(tr.pool);
    EffectAt(w, before, after, tr, patch, err, events, r);
    hide PemText, DesiredBy, NeedsApply, ApplyResult, CleanupResult, PlanFor, Reconciled;
    if r in tr.applied {
      ApplyKeepsForeign(w, pem, before, r, k);
    } else if r in tr.cleaned {
      CleanupKeepsForeign(w, before, r, k);
    }
  }

  /** What a reconcile did to one resource. */
  lemma EffectAt(w: World, before: TargetMap, after: TargetMap, tr: Trace,
                 patch: Option<BundleStatus>, err: bool, events: nat, r: Resource)
    requires Reconciled(w, before, after, tr, patch, err, events)
    ensures r in tr.cleaned ==> r in before
    ensures Lookup(after, r) == if r in tr.applied then ApplyResult(w, PemText(tr.pool), before, r)
                                else if r in tr.cleaned then CleanupResult(w, r, before[r])
                                else Lookup(before, r)
    ensures r in tr.applied ==>
              r in DesiredBy(w) && TemplateOf(w.bundle.spec.target, r.kind).Some?
              && ApplyResult(w, PemText(tr.pool), before, r).Some?
  {
    hide PemText, DesiredBy, ApplyResult, CleanupResult, NeedsUpdate;
  }

  predicate Keeps(before: TargetObject, after: Option<TargetObject>, k: string) {
    k in before.data && after.Some? && k in after.value.data
    && after.value.data[k].value == before.data[k].value
    && after.value.data[k].owners - {MANAGER} == before.data[k].owners - {MANAGER}
  }

  lemma ApplyKeepsForeign(w: World, pem: string, before: TargetMap, r: Resource, k: string)
    requires ApplyResult(w, pem, before, r).Some?
    requires r in before && k in before[r].data && before[r].data[k].owners != {MANAGER}
    requires TemplateOf(w.bundle.spec.target, r.kind).Some? && k !in PlanFor(w, pem, r.kind).keys
    ensures Keeps(before[r], ApplyResult(w, pem, before, r), k)
  {
    hide Render;
    ForeignFieldSurvives(before[r].data, RenderFor(w, pem, r.kind).value, k);
  }

  lemma CleanupKeepsForeign(w: World, before: TargetMap, r: Resource, k: string)
    requires r in before && k in before[r].data && before[r].data[k].owners != {MANAGER}
    ensures Keeps(before[r], CleanupResult(w, r, before[r]), k)
  {
    ForeignFieldSurvives(before[r].data, map[], k);
    assert k in Withdrawn(before[r], w.bundle.meta.name, w.bundle.meta.uid).data;
  }

  // ---------- Quiescence ----------

  /** The stored status after the patch of a reconcile has been applied. */
  ghost predicate StatusAfter(stored: StoredConditions, version: string, patch: Option<BundleStatus>,
                              stored': StoredConditions, version': string)
  {
    match patch
    case None => stored' == stored && version' == version
    case Some(p) => |p.conditions| == 1 && stored' == ApplyCondition(stored, p.conditions[0])
                    && version' == p.defaultCAPackageVersion
  }

  /** The same inputs at any other time: the status and the faults are those of then, and so are the clock of the
      conditions and the clock that judges expiry. */
  ghost predicate SameInputs(w: World, w': World) {
    w' == w.(bundle := w.bundle.(status := w'.bundle.status), faults := w'.faults, now := w'.now,
             env := At(w.env, w'.env.now))
  }

  ghost function ResolvedBy(w: World): set<Certificate> {
    Resolved(w.env, w.bundle.spec.sources)
  }

  /** There is nothing new to write: the same certificates are resolved, or some are and no target is desired. */
  ghost predicate NothingDue(w: World, w': World) {
    ResolvedBy(w') == ResolvedBy(w) || (DesiredBy(w) == {} && ResolvedBy(w') != {})
  }

  ghost predicate NoFaults(w: World) {
    && !w.faults.listNamespaces
    && CleanupWorks(w)
    && (forall k :: !w.faults.listTargets(k))
  }

  /** The pool of a reconcile is determined by its inputs. */
  lemma SamePool(w: World, w': World, tr: Trace, tr': Trace)
    requires SameInputs(w, w') && ResolvedInto(w, tr) && ResolvedInto(w', tr')
    requires NoCollision(w.env.crypto, ResolvedBy(w))
    ensures ResolvedBy(w') == ResolvedBy(w) ==> tr.pool == tr'.pool
    ensures tr.id == tr'.id
  {
    DefaultIDAt(w.env, w'.env.now, w.bundle.spec.sources);
    if ResolvedBy(w') == ResolvedBy(w) {
      HoldsUnique(w.env.crypto, tr.pool, tr'.pool, ResolvedBy(w));
    }
    hide Holds, Buildable, Resolved, DefaultID;
  }

  /** The status that a successful reconcile leaves behind reads as in sync. */
  lemma StatusIsKnown(w: World, tr: Trace, patch: Option<BundleStatus>,
                      stored: StoredConditions, stored': StoredConditions, version': string,
                      conditions: seq<Condition>)
    requires ReadAs(stored, Existing(w)) && ReadAs(stored', conditions)
    requires patch == if HasNews(w, tr) then Some(PatchWith(w, Success(w), tr.id)) else None
    requires StatusAfter(stored, w.bundle.status.defaultCAPackageVersion, patch, stored', version')
    ensures version' == tr.id && HasCondition(conditions, Success(w))
  {
    assert Find(conditions, SYNCED) == if SYNCED in stored' then Some(stored'[SYNCED].value) else None;
    assert Find(Existing(w), SYNCED) == if SYNCED in stored then Some(stored[SYNCED].value) else None;
  }

  /** The reason that a condition gives for where a reconcile ended. */
  function ReasonFor(stage: Stage): string {
    match stage
    case Synced => "Synced"
    case SourcesFailed(e) => if e == NotFoundError then "SourceNotFound" else "SourceBuildError"
    case SecretsDisabled => "SecretTargetsDisabled"
    case ApplyFailed(r) => if r.kind == SecretKind then "SyncSecretTargetFailed" else "SyncConfigMapTargetFailed"
    case _ => ""
  }

  /** A status patch lists one condition: it is true iff the reconcile succeeded, names the generation, the reason,
      and the time since when the status is that; the package version is the new one only then. */
  lemma ReportedCondition(w: World, before: TargetMap, after: TargetMap, tr: Trace, patch: Option<BundleStatus>,
                          err: bool, events: nat)
    requires Reconciled(w, before, after, tr, patch, err, events) && patch.Some? && UniqueKinds(Existing(w))
    ensures |patch.value.conditions| == 1
    ensures var c := patch.value.conditions[0];
            && c.kind == "Synced" && c.status == (tr.stage == Synced) && c.reason == ReasonFor(tr.stage) != ""
            && c.observedGeneration == w.bundle.meta.generation
            && (forall e :: e in Existing(w) && e.kind == c.kind && e.status == c.status ==>
                  c.lastTransitionTime == e.lastTransitionTime)
            && ((forall e :: e in Existing(w) && e.kind == c.kind ==> e.status != c.status) ==>
                  c.lastTransitionTime == w.now)
    ensures patch.value.defaultCAPackageVersion ==
            if tr.stage == Synced then tr.id else w.bundle.status.defaultCAPackageVersion
  {
    var message := SomePatch(w, before, after, tr, patch, err, events);
    hide Reconciled, PatchWith, SuccessMessage;
    var c := SyncedCondition(w, tr.stage == Synced, ReasonFor(tr.stage), message);
    var version := if tr.stage == Synced then tr.id else w.bundle.status.defaultCAPackageVersion;
    assert patch.value == PatchWith(w, c, version);
    PatchReports(w, c, version);
  }

  lemma PatchReports(w: World, c: Condition, version: string)
    requires UniqueKinds(Existing(w))
    ensures var patch := PatchWith(w, c, version);
            && |patch.conditions| == 1 && patch.defaultCAPackageVersion == version
            && var d := patch.conditions[0];
               && d == c.(lastTransitionTime := d.lastTransitionTime)
               && (forall e :: e in Existing(w) && e.kind == c.kind && e.status == c.status ==>
                     d.lastTransitionTime == e.lastTransitionTime)
               && ((forall e :: e in Existing(w) && e.kind == c.kind ==> e.status != c.status) ==>
                     d.lastTransitionTime == w.now)
  {
    FindAbsent(Existing(w), c.kind);
    forall e | e in Existing(w) && e.kind == c.kind
      ensures Find(Existing(w), c.kind) == Some(e)
    {
      var found := Find(Existing(w), c.kind).value;
      var i :| 0 <= i < |Existing(w)| && Existing(w)[i] == e;
      var j :| 0 <= j < |Existing(w)| && Existing(w)[j] == found;
    }
    hide Find, UniqueKinds;
  }

  lemma ApplyReason(w: World, r: Resource) returns (message: string)
    ensures ApplyStatus(w, r) == FailureStatus(w, ReasonFor(ApplyFailed(r)), message)
  {
    hide FailureStatus;
    assert "Sync" + KindName(r.kind) + "TargetFailed" == ReasonFor(ApplyFailed(r));
    message := "Failed to sync bundle " + KindName(r.kind) + " to namespace \"" + r.namespace + "\": " + w.failure;
  }

  lemma SomePatch(w: World, before: TargetMap, after: TargetMap, tr: Trace, patch: Option<BundleStatus>,
                  err: bool, events: nat) returns (message: string)
    requires Reconciled(w, before, after, tr, patch, err, events) && patch.Some?
    ensures tr.stage == Synced ==> patch.value == PatchWith(w, Success(w), tr.id) && message == SuccessMessage(w)
    ensures tr.stage != Synced ==> patch.value == FailureStatus(w, ReasonFor(tr.stage), message)
    ensures ReasonFor(tr.stage) != ""
  {
    PatchOfStage(w, before, after, tr, patch, err, events);
    hide Reconciled, FailureStatus, PatchWith, Success;
    match tr.stage
    case Synced => message := SuccessMessage(w);
    case SecretsDisabled => message := "Bundle has Secret targets but the feature is disabled";
    case SourcesFailed(e) =>
      message := (if e == NotFoundError then "Bundle source was not found: "
                  else "Failed to build bundle sources: ") + w.failure;
    case ApplyFailed(r) => message := ApplyReason(w, r);
  }

  lemma PatchOfStage(w: World, before: TargetMap, after: TargetMap, tr: Trace, patch: Option<BundleStatus>,
                     err: bool, events: nat)
    requires Reconciled(w, before, after, tr, patch, err, events) && patch.Some?
    ensures match tr.stage
            case Synced => patch.value == PatchWith(w, Success(w), tr.id)
            case SourcesFailed(e) => patch.value == SourcesStatus(w, e)
            case SecretsDisabled => patch.value == SecretsStatus(w)
            case ApplyFailed(r) => patch.value == ApplyStatus(w, r)
            case _ => false
  {
    hide PemText, Effect, ResolvedInto, Buildable, PassedChecks, HasUntyped, BuildFailsWith, DesiredBy, NeedsApply;
    hide Stale, StaleOf, PanicsFor, RenderFor, HasNews, SourcesStatus, SecretsStatus, ApplyStatus, PatchWith, Success;
  }

  /** From the state a successful reconcile left, a reconcile with the same inputs and no failing call, at any time
      when nothing is due, applies nothing, records no event, returns no status patch and changes no target.  It
      cleans up nothing either, unless stale targets hold data of other managers. */
  lemma Quiescence(w: World, t0: TargetMap, t1: TargetMap, tr: Trace, patch: Option<BundleStatus>,
                   err: bool, events: nat, stored: StoredConditions, stored': StoredConditions,
                   w': World, t2: TargetMap, tr': Trace, patch': Option<BundleStatus>, err': bool, events': nat)
    requires Reconciled(w, t0, t1, tr, patch, err, events) && tr.stage == Synced && CleanupWorks(w)
    requires NoCollision(w.env.crypto, ResolvedBy(w))
    requires SameInputs(w, w') && NoFaults(w') && NothingDue(w, w')
    requires ReadAs(stored, Existing(w)) && ReadAs(stored', Existing(w'))
    requires StatusAfter(stored, w.bundle.status.defaultCAPackageVersion, patch,
                         stored', w'.bundle.status.defaultCAPackageVersion)
    requires Reconciled(w', t1, t2, tr', patch', err', events')
    ensures tr'.stage == Synced && !err' && patch' == None && events' == 0
    ensures tr'.applied == {} && tr'.cleaned == Shared(w, t0)
    ensures t2 == t1
  {
    hide *;
    SyncedSays(w, t0, t1, tr, patch, err, events);
    StatusIsKnown(w, tr, patch, stored, stored', w'.bundle.status.defaultCAPackageVersion, Existing(w'));
    SecondStage(w, t0, t1, tr, patch, err, events, w', t2, tr', patch', err', events');
    SyncedSays(w', t1, t2, tr', patch', err', events');
    SamePool(w, w', tr, tr');
    SecondCleanup(w, t0, t1, tr, patch, err, events, w', t2, tr', patch', err', events');
    NoNews(w, tr, w', tr');
  }

  lemma SyncedSays(w: World, before: TargetMap, after: TargetMap, tr: Trace, patch: Option<BundleStatus>,
                   err: bool, events: nat)
    requires Reconciled(w, before, after, tr, patch, err, events) && tr.stage == Synced
    ensures ResolvedInto(w, tr) && !err && tr.cleaned == Stale(w, before)
    ensures w.options.secretTargetsEnabled || w.bundle.spec.target.secret.None?
    ensures SelectorValid(w.bundle.spec.target.namespaceSelector)
    ensures patch == if HasNews(w, tr) then Some(PatchWith(w, Success(w), tr.id)) else None
    ensures events == if HasNews(w, tr) then 1 else 0
  {
    hide PemText, Effect, Stale, HasNews, ResolvedInto, DesiredBy, NeedsApply, PatchWith, Success;
    hide Buildable, HasUntyped;
  }

  lemma NoNews(w: World, tr: Trace, w': World, tr': Trace)
    requires SameInputs(w, w') && tr'.applied == {} && tr'.id == tr.id
    requires w'.bundle.status.defaultCAPackageVersion == tr.id && HasCondition(Existing(w'), Success(w))
    ensures !HasNews(w', tr')
  {
    hide HasCondition;
  }

  /** The second reconcile finds every desired target current, so that it gets to the end. */
  lemma SecondStage(w: World, t0: TargetMap, t1: TargetMap, tr: Trace, patch: Option<BundleStatus>,
                    err: bool, events: nat,
                    w': World, t2: TargetMap, tr': Trace, patch': Option<BundleStatus>, err': bool, events': nat)
    requires Reconciled(w, t0, t1, tr, patch, err, events) && tr.stage == Synced
    requires NoCollision(w.env.crypto, ResolvedBy(w))
    requires SameInputs(w, w') && NoFaults(w') && NothingDue(w, w')
    requires Reconciled(w', t1, t2, tr', patch', err', events')
    ensures tr'.stage == Synced && tr'.applied == {}
  {
    hide *;
    SyncedSays(w, t0, t1, tr, patch, err, events);
    forall r | ResolvedInto(w', tr') && r in DesiredBy(w')
      ensures !NeedsApply(w', PemText(tr'.pool), t1, r)
    {
      SamePool(w, w', tr, tr');
      SameDesired(w, w');
      StaysCurrent(w, t0, t1, tr, patch, err, events, w', r);
      StaysDue(w, w', r);
    }
    SameNeeds(w, tr, w');
    NothingFails(w', t1, t2, tr', patch', err', events');
  }

  lemma SameDesired(w: World, w': World)
    requires SameInputs(w, w')
    ensures DesiredBy(w') == DesiredBy(w)
  {
  }

  lemma StaysDue(w: World, w': World, r: Resource)
    requires NothingDue(w, w') && r in DesiredBy(w)
    ensures ResolvedBy(w') == ResolvedBy(w)
  {
    hide ResolvedBy, DesiredBy;
  }

  lemma StaysCurrent(w: World, t0: TargetMap, t1: TargetMap, tr: Trace, patch: Option<BundleStatus>,
                     err: bool, events: nat, w': World, r: Resource)
    requires Reconciled(w, t0, t1, tr, patch, err, events) && tr.stage == Synced
    requires SameInputs(w, w') && r in DesiredBy(w')
    ensures !NeedsApply(w', PemText(tr.pool), t1, r)
  {
    assert r in DesiredBy(w) by {
      hide Reconciled;
    }
    DesiredAfterwards(w, t0, t1, tr, patch, err, events, r);
    hide PemText, DesiredBy, Reconciled, NeedsUpdate;
  }

  lemma SameNeeds(w: World, tr: Trace, w': World)
    requires SameInputs(w, w') && ResolvedInto(w, tr) && NothingDue(w, w')
    requires w.options.secretTargetsEnabled || w.bundle.spec.target.secret.None?
    requires SelectorValid(w.bundle.spec.target.namespaceSelector)
    ensures w'.options.secretTargetsEnabled || w'.bundle.spec.target.secret.None?
    ensures SelectorValid(w'.bundle.spec.target.namespaceSelector)
    ensures Buildable(w'.env, w'.bundle.spec.sources)
  {
    BuildableAt(w.env, w'.env.now, w.bundle.spec.sources);
    BuildsSomething(w);
    hide Buildable, Holds, Resolved, DefaultID, DesiredBy;
  }

  lemma BuildsSomething(w: World)
    ensures Buildable(w.env, w.bundle.spec.sources) ==> ResolvedBy(w) != {}
  {
    hide Resolved;
  }

  /** A reconcile whose sources build, whose target is allowed and current, and none of whose calls fails
      gets to the end without applying anything. */
  lemma NothingFails(w: World, before: TargetMap, after: TargetMap, tr: Trace, patch: Option<BundleStatus>,
                     err: bool, events: nat)
    requires Reconciled(w, before, after, tr, patch, err, events) && NoFaults(w)
    requires Buildable(w.env, w.bundle.spec.sources)
    requires w.options.secretTargetsEnabled || w.bundle.spec.target.secret.None?
    requires SelectorValid(w.bundle.spec.target.namespaceSelector)
    requires ResolvedInto(w, tr) ==>
               forall r :: r in DesiredBy(w) ==> !NeedsApply(w, PemText(tr.pool), before, r)
    ensures tr.stage == Synced && tr.applied == {}
  {
    StopsFor(w, before, after, tr, patch, err, events);
    hide PemText, DesiredBy, NeedsApply, ApplyResult, CleanupResult, Buildable, ResolvedInto, Reconciled;
    forall r
      ensures r !in tr.applied
    {
      AppliedNeeds(w, before, after, tr, patch, err, events, r);
    }
  }

  lemma AppliedNeeds(w: World, before: TargetMap, after: TargetMap, tr: Trace, patch: Option<BundleStatus>,
                     err: bool, events: nat, r: Resource)
    requires Reconciled(w, before, after, tr, patch, err, events)
    ensures r in tr.applied ==> r in DesiredBy(w) && NeedsApply(w, PemText(tr.pool), before, r) && ResolvedInto(w, tr)
  {
    hide PemText, DesiredBy, NeedsApply, ApplyResult, CleanupResult, Buildable, ResolvedInto, HasNews;
    hide BuildFailsWith, SourcesStatus, ApplyStatus, SecretsStatus, Stale, StaleOf, HasUntyped, RenderFor;
  }

  /** Why a reconcile stopped, in terms of its inputs. */
  lemma StopsFor(w: World, before: TargetMap, after: TargetMap, tr: Trace, patch: Option<BundleStatus>,
                 err: bool, events: nat)
    requires Reconciled(w, before, after, tr, patch, err, events)
    ensures tr.stage.SourcesFailed? || tr.stage.SourcesPanicked? <==> !Buildable(w.env, w.bundle.spec.sources)
    ensures Buildable(w.env, w.bundle.spec.sources) ==> ResolvedInto(w, tr)
    ensures tr.stage.SourcesPanicked? ==> HasUntyped(w.bundle.spec.sources)
    ensures tr.stage.SecretsDisabled? ==> !w.options.secretTargetsEnabled && w.bundle.spec.target.secret.Some?
    ensures tr.stage.SelectorInvalid? ==> !SelectorValid(w.bundle.spec.target.namespaceSelector)
    ensures tr.stage.NamespaceListFailed? ==> w.faults.listNamespaces
    ensures tr.stage.TargetListFailed? ==> w.faults.listTargets(tr.stage.kind)
    ensures tr.stage.ApplyPanicked? ==>
              tr.stage.resource in DesiredBy(w) && NeedsApply(w, PemText(tr.pool), before, tr.stage.resource)
              && PanicsFor(w, PemText(tr.pool))
    ensures tr.stage.ApplyFailed? ==>
              var r := tr.stage.resource;
              r in DesiredBy(w) && NeedsApply(w, PemText(tr.pool), before, r)
              && (w.faults.apply(r) || (TemplateOf(w.bundle.spec.target, r.kind).Some?
                                        && RenderFor(w, PemText(tr.pool), r.kind).None?))
  {
    hide PemText, DesiredBy, Effect, Buildable, HasNews, BuildFailsWith, SourcesStatus, ApplyStatus, SecretsStatus;
    hide SelectorValid, Stale, StaleOf, HasUntyped, RenderFor, PanicsFor;
    hide Holds, Resolved, DefaultID;
  }

  /** Where a reconcile stops is decided by the first check that fails: the sources, then Secret targets that are not
      enabled, then the selector, the list of namespaces and the lists of targets, ConfigMaps first. */
  lemma StopsExactly(w: World, before: TargetMap, after: TargetMap, tr: Trace, patch: Option<BundleStatus>,
                     err: bool, events: nat)
    requires Reconciled(w, before, after, tr, patch, err, events)
    ensures var built := Buildable(w.env, w.bundle.spec.sources);
            var allowed := built && (w.options.secretTargetsEnabled || w.bundle.spec.target.secret.None?);
            var selects := allowed && SelectorValid(w.bundle.spec.target.namespaceSelector);
            var listed := selects && !w.faults.listNamespaces;
            && (tr.stage.SourcesFailed? || tr.stage.SourcesPanicked? <==> !built)
            && (tr.stage.SecretsDisabled? <==> built && !allowed)
            && (tr.stage.SelectorInvalid? <==> allowed && !selects)
            && (tr.stage.NamespaceListFailed? <==> selects && !listed)
            && (tr.stage == TargetListFailed(ConfigMapKind) <==> listed && w.faults.listTargets(ConfigMapKind))
            && (tr.stage == TargetListFailed(SecretKind) <==>
                  listed && !w.faults.listTargets(ConfigMapKind)
                  && w.options.secretTargetsEnabled && w.faults.listTargets(SecretKind))
  {
    StopsFor(w, before, after, tr, patch, err, events);
    ChecksPassed(w, before, after, tr, patch, err, events);
    hide Reconciled, PemText, DesiredBy, NeedsApply, PanicsFor, RenderFor, Buildable, ResolvedInto, SelectorValid;
    hide HasUntyped;
  }

  lemma ChecksPassed(w: World, before: TargetMap, after: TargetMap, tr: Trace, patch: Option<BundleStatus>,
                     err: bool, events: nat)
    requires Reconciled(w, before, after, tr, patch, err, events)
    ensures PassedChecks(w, tr.stage)
  {
    hide PemText, Effect, ResolvedInto, Buildable, PassedChecks;
  }

  /** A reconcile ends with an error, and is tried again, unless it succeeded, waits for a missing source or found
      Secret targets that are not enabled; and it records one event, except after a panic or without news. */
  lemma RetriedExactly(w: World, before: TargetMap, after: TargetMap, tr: Trace, patch: Option<BundleStatus>,
                       err: bool, events: nat)
    requires Reconciled(w, before, after, tr, patch, err, events)
    ensures err <==> tr.stage !in {Synced, SecretsDisabled, SourcesFailed(NotFoundError)}
    ensures events == if tr.stage.SourcesPanicked? || tr.stage.ApplyPanicked? || (tr.stage.Synced? && patch.None?)
                      then 0 else 1
  {
    hide PemText, Effect, ResolvedInto, Buildable, PassedChecks, HasUntyped, BuildFailsWith, DesiredBy, NeedsApply;
    hide Stale, StaleOf, PanicsFor, RenderFor, HasNews, SourcesStatus, SecretsStatus, ApplyStatus, PatchWith, Success;
  }

  /** When no call fails and every format can be rendered, a reconcile gets to the end if and only if its
      sources build, its kinds of target are enabled and its namespace selector is valid. */
  lemma Progress(w: World, before: TargetMap, after: TargetMap, tr: Trace, patch: Option<BundleStatus>,
                 err: bool, events: nat)
    requires Reconciled(w, before, after, tr, patch, err, events) && NoFaults(w)
    requires forall r :: !w.faults.apply(r)
    requires forall kind, pem :: TemplateOf(w.bundle.spec.target, kind).Some? ==> RenderFor(w, pem, kind).Some?
    ensures tr.stage == Synced <==>
            && Buildable(w.env, w.bundle.spec.sources)
            && (w.options.secretTargetsEnabled || w.bundle.spec.target.secret.None?)
            && SelectorValid(w.bundle.spec.target.namespaceSelector)
  {
    StopsFor(w, before, after, tr, patch, err, events);
    if tr.stage.ApplyPanicked? {
      PanicsAreUnrendered(w, PemText(tr.pool), tr.stage.resource.kind);
    }
    if tr.stage == Synced {
      SyncedSays(w, before, after, tr, patch, err, events);
    }
    hide PemText, DesiredBy, NeedsApply, Buildable, ResolvedInto, Reconciled, RenderFor;
  }

  /** What is stale after a successful reconcile is what others share, and cleaning that changes nothing. */
  lemma SecondCleanup(w: World, t0: TargetMap, t1: TargetMap, tr: Trace, patch: Option<BundleStatus>,
                      err: bool, events: nat,
                      w': World, t2: TargetMap, tr': Trace, patch': Option<BundleStatus>, err': bool, events': nat)
    requires Reconciled(w, t0, t1, tr, patch, err, events) && tr.stage == Synced && CleanupWorks(w)
    requires SameInputs(w, w') && NoFaults(w')
    requires Reconciled(w', t1, t2, tr', patch', err', events') && tr'.stage == Synced && tr'.applied == {}
    ensures tr'.cleaned == Shared(w, t0) && t2 == t1
  {
    hide *;
    SyncedSays(w', t1, t2, tr', patch', err', events');
    forall r
      ensures r in Stale(w', t1) <==> r in Shared(w, t0)
      ensures Lookup(t2, r) == Lookup(t1, r)
    {
      StaleAgain(w, t0, t1, tr, patch, err, events, w', r);
      EffectAt(w', t1, t2, tr', patch', err', events', r);
    }
    SameTargets(t1, t2);
  }

  lemma StaleAgain(w: World, t0: TargetMap, t1: TargetMap, tr: Trace, patch: Option<BundleStatus>,
                   err: bool, events: nat, w': World, r: Resource)
    requires Reconciled(w, t0, t1, tr, patch, err, events) && tr.stage == Synced && CleanupWorks(w)
    requires SameInputs(w, w') && NoFaults(w')
    ensures r in Stale(w', t1) <==> r in Shared(w, t0)
    ensures r in Stale(w', t1) ==> CleanupResult(w', r, t1[r]) == Lookup(t1, r)
  {
    assert DesiredBy(w') == DesiredBy(w);
    hide PemText, DesiredBy, NeedsApply, ApplyResult, Reconciled;
    if r !in DesiredBy(w) {
      UndesiredAfterwards(w, t0, t1, tr, patch, err, events, r);
      if r in Shared(w, t0) {
        CleanedUp(t0[r], w.bundle.meta.name, w.bundle.meta.uid);
      }
    }
  }

  // ---------- Quiescence ends exactly when something is due ----------

  /** The hash tells two bundle texts apart for every kind of target. */
  ghost predicate HashTells(w: World, a: string, b: string) {
    forall kind :: TemplateOf(w.bundle.spec.target, kind).Some? ==>
      var rest := Fingerprint(w.bundle.spec.target, TemplateOf(w.bundle.spec.target, kind).value);
      w.encoders.sha256(a + rest) == w.encoders.sha256(b + rest) ==> a == b
  }

  lemma QuietIsSynced(w: World, before: TargetMap, after: TargetMap, tr: Trace, patch: Option<BundleStatus>,
                      err: bool, events: nat)
    requires Reconciled(w, before, after, tr, patch, err, events) && !err && patch == None
    ensures tr.stage == Synced
    ensures forall r :: r in DesiredBy(w) && NeedsApply(w, PemText(tr.pool), before, r) ==> r in tr.applied
  {
    hide PemText, DesiredBy, Effect, Buildable, HasNews, BuildFailsWith, SourcesStatus, ApplyStatus, SecretsStatus;
    hide SelectorValid, Stale, StaleOf, HasUntyped, RenderFor, PanicsFor, NeedsApply, ResolvedInto;
  }

  /** An object that is current for two bundle texts holds both hashes. */
  lemma CurrentForBoth(w: World, a: string, b: string, obj: TargetObject, kind: Kind)
    requires TemplateOf(w.bundle.spec.target, kind).Some? && HashTells(w, a, b)
    requires !NeedsUpdate(obj, PlanFor(w, a, kind)) && !NeedsUpdate(obj, PlanFor(w, b, kind))
    ensures a == b
  {
    hide Fingerprint, ExpectedKeys;
  }

  /** Two pools that print alike hold the same resolved certificates. */
  lemma SameTextSameCertificates(w: World, w': World, tr: Trace, tr': Trace)
    requires SameInputs(w, w') && ResolvedInto(w, tr) && ResolvedInto(w', tr')
    requires NoCollision(w.env.crypto, ResolvedBy(w) + ResolvedBy(w'))
    requires PemText(tr.pool) == PemText(tr'.pool)
    ensures ResolvedBy(w) == ResolvedBy(w')
  {
    hide Buildable, Resolved, DefaultID, PemText, Holds, Sound;
    ResolvedIsSound(w.env, w.bundle.spec.sources, tr.pool);
    ResolvedIsSound(w'.env, w.bundle.spec.sources, tr'.pool);
    PrintInjective(w.env.crypto, tr.pool, tr'.pool);
    HoldsTells(w.env.crypto, tr.pool, ResolvedBy(w), ResolvedBy(w'));
  }

  /** A second reconcile that does nothing and succeeds shows that nothing was due. */
  lemma QuietMeansNothingDue(w: World, t0: TargetMap, t1: TargetMap, tr: Trace, patch: Option<BundleStatus>,
                             err: bool, events: nat,
                             w': World, t2: TargetMap, tr': Trace, events': nat)
    requires Reconciled(w, t0, t1, tr, patch, err, events) && tr.stage == Synced
    requires NoCollision(w.env.crypto, ResolvedBy(w) + ResolvedBy(w'))
    requires SameInputs(w, w') && HashTells(w, PemText(tr.pool), PemText(tr'.pool))
    requires Reconciled(w', t1, t2, tr', None, false, events') && tr'.applied == {}
    ensures NothingDue(w, w')
  {
    hide *;
    QuietIsSynced(w', t1, t2, tr', None, false, events');
    SyncedSays(w, t0, t1, tr, patch, err, events);
    SyncedSays(w', t1, t2, tr', None, false, events');
    SomethingResolved(w', tr');
    SameDesired(w, w');
    if DesiredBy(w) != {} {
      var r :| r in DesiredBy(w);
      DesiredAfterwards(w, t0, t1, tr, patch, err, events, r);
      SecondCurrent(w, w', t1, tr', r);
      CurrentForBoth(w, PemText(tr.pool), PemText(tr'.pool), t1[r], r.kind);
      SameTextSameCertificates(w, w', tr, tr');
    }
    IsNothingDue(w, w');
  }

  lemma IsNothingDue(w: World, w': World)
    requires ResolvedBy(w') != {} && (DesiredBy(w) != {} ==> ResolvedBy(w) == ResolvedBy(w'))
    ensures NothingDue(w, w')
  {
    hide ResolvedBy, DesiredBy;
  }

  lemma SomethingResolved(w: World, tr: Trace)
    requires ResolvedInto(w, tr)
    ensures ResolvedBy(w) != {}
  {
    BuildsSomething(w);
    hide Buildable, Holds, Resolved, DefaultID;
  }

  lemma SecondCurrent(w: World, w': World, targets: TargetMap, tr': Trace, r: Resource)
    requires SameInputs(w, w') && r in targets && TemplateOf(w.bundle.spec.target, r.kind).Some?
    requires !NeedsApply(w', PemText(tr'.pool), targets, r)
    ensures !NeedsUpdate(targets[r], PlanFor(w, PemText(tr'.pool), r.kind))
  {
    hide PemText, NeedsUpdate;
  }

  /** Short of a collision, a second reconcile with the same inputs succeeds without applying anything and without
      a status patch if and only if nothing is due. */
  lemma QuietExactly(w: World, t0: TargetMap, t1: TargetMap, tr: Trace, patch: Option<BundleStatus>,
                     err: bool, events: nat, stored: StoredConditions, stored': StoredConditions,
                     w': World, t2: TargetMap, tr': Trace, patch': Option<BundleStatus>, err': bool, events': nat)
    requires Reconciled(w, t0, t1, tr, patch, err, events) && tr.stage == Synced && CleanupWorks(w)
    requires NoCollision(w.env.crypto, ResolvedBy(w) + ResolvedBy(w'))
    requires SameInputs(w, w') && NoFaults(w') && HashTells(w, PemText(tr.pool), PemText(tr'.pool))
    requires ReadAs(stored, Existing(w)) && ReadAs(stored', Existing(w'))
    requires StatusAfter(stored, w.bundle.status.defaultCAPackageVersion, patch,
                         stored', w'.bundle.status.defaultCAPackageVersion)
    requires Reconciled(w', t1, t2, tr', patch', err', events')
    ensures !err' && tr'.applied == {} && patch' == None <==> NothingDue(w, w')
  {
    hide *;
    if NothingDue(w, w') {
      FewerCollisions(w.env.crypto, ResolvedBy(w), ResolvedBy(w'));
      Quiescence(w, t0, t1, tr, patch, err, events, stored, stored', w', t2, tr', patch', err', events');
    } else if !err' && tr'.applied == {} && patch' == None {
      QuietMeansNothingDue(w, t0, t1, tr, patch, err, events, w', t2, tr', events');
    }
  }

  lemma FewerCollisions(x: Crypto, a: set<Certificate>, b: set<Certificate>)
    requires NoCollision(x, a + b)
    ensures NoCollision(x, a)
  {
  }

  /** At a later time nothing is due if and only if no resolved certificate has expired since, or no target is
      desired and some certificate is left; without the expiry filter, always. */
  lemma DueExactlyOnExpiry(w: World, w': World)
    requires SameInputs(w, w') && w.env.now <= w'.env.now && Buildable(w.env, w.bundle.spec.sources)
    ensures NothingDue(w, w') <==>
            || (forall c :: c in ResolvedBy(w) ==> Unexpired(w.env, c, w'.env.now))
            || (DesiredBy(w) == {} && exists c :: c in ResolvedBy(w) && Unexpired(w.env, c, w'.env.now))
    ensures !w.env.filterExpired ==> NothingDue(w, w')
  {
    ResolvedLater(w.env, w'.env.now, w.bundle.spec.sources);
    hide Resolved, DesiredBy, Unexpired;
    var left := ResolvedBy(w');
    assert left == set c | c in ResolvedBy(w) && Unexpired(w.env, c, w'.env.now);
    if c :| c in ResolvedBy(w) && Unexpired(w.env, c, w'.env.now) {
      assert c in left;
    }
    if left != {} {
      var c :| c in left;
      assert c in ResolvedBy(w) && Unexpired(w.env, c, w'.env.now);
    }
  }

  /** A later second reconcile with the same inputs does nothing exactly until a resolved certificate expires; and
      for a Bundle without targets, until all have. */
  lemma QuietUntilExpiry(w: World, t0: TargetMap, t1: TargetMap, tr: Trace, patch: Option<BundleStatus>,
                         err: bool, events: nat, stored: StoredConditions, stored': StoredConditions,
                         w': World, t2: TargetMap, tr': Trace, patch': Option<BundleStatus>, err': bool, events': nat)
    requires Reconciled(w, t0, t1, tr, patch, err, events) && tr.stage == Synced && CleanupWorks(w)
    requires NoCollision(w.env.crypto, ResolvedBy(w)) && w.env.now <= w'.env.now
    requires SameInputs(w, w') && NoFaults(w') && HashTells(w, PemText(tr.pool), PemText(tr'.pool))
    requires ReadAs(stored, Existing(w)) && ReadAs(stored', Existing(w'))
    requires StatusAfter(stored, w.bundle.status.defaultCAPackageVersion, patch,
                         stored', w'.bundle.status.defaultCAPackageVersion)
    requires Reconciled(w', t1, t2, tr', patch', err', events')
    ensures !err' && tr'.applied == {} && patch' == None <==>
            || (forall c :: c in ResolvedBy(w) ==> Unexpired(w.env, c, w'.env.now))
            || (DesiredBy(w) == {} && exists c :: c in ResolvedBy(w) && Unexpired(w.env, c, w'.env.now))
  {
    hide *;
    SyncedSays(w, t0, t1, tr, patch, err, events);
    ResolvedBuilds(w, tr);
    OnlyFewerLater(w, w');
    QuietExactly(w, t0, t1, tr, patch, err, events, stored, stored', w', t2, tr', patch', err', events');
    DueExactlyOnExpiry(w, w');
  }

  lemma ResolvedBuilds(w: World, tr: Trace)
    requires ResolvedInto(w, tr)
    ensures Buildable(w.env, w.bundle.spec.sources)
  {
    hide Buildable, Holds, Resolved, DefaultID;
  }

  lemma OnlyFewerLater(w: World, w': World)
    requires SameInputs(w, w') && w.env.now <= w'.env.now && NoCollision(w.env.crypto, ResolvedBy(w))
    ensures NoCollision(w.env.crypto, ResolvedBy(w) + ResolvedBy(w'))
  {
    ResolvedLater(w.env, w'.env.now, w.bundle.spec.sources);
    hide Resolved;
    assert ResolvedBy(w') <= ResolvedBy(w);
    assert ResolvedBy(w) + ResolvedBy(w') == ResolvedBy(w);
  }

  lemma SameTargets(a: TargetMap, b: TargetMap)
    requires forall r :: Lookup(a, r) == Lookup(b, r)
    ensures a == b
  {
    forall r | r in a || r in b
      ensures r in a && r in b && a[r] == b[r]
    {
      assert Lookup(a, r) == Lookup(b, r);
    }
  }
}
