/**
 The Bundle reconciler as a step over cluster state: it resolves the sources, cleans up stale
 targets, applies the desired ones and computes the status patch.

 Namespaces, lists and maps are visited in any order, and any API call may fail: which ones do is
 part of the input (`Faults`).
 */
module Reconciler {
  import opened Prelude
  import opened Digests
  import opened CertPools
  import opened PoolProperties
  import opened BundleApi
  import opened Sources
  import opened Status
  import opened Targets

  datatype Namespace = Namespace(labels: Labels, terminating: bool)

  datatype Options = Options(secretTargetsEnabled: bool, targetNamespaces: seq<string>)

  datatype CleanupFault = CleansUp | PatchFails | DeleteFails

  datatype Faults = Faults(listNamespaces: bool, listTargets: Kind -> bool,
                           apply: Resource -> bool, cleanup: Resource -> CleanupFault)

  /** Everything a reconcile reads, except the targets. */
  datatype World = World(bundle: Bundle, env: Env, namespaces: map<string, Namespace>,
                         options: Options, encoders: Encoders, faults: Faults,
                         describe: LabelSelector -> string, failure: string, now: int)

  datatype Stage =
    | SourcesPanicked
    | SourcesFailed(error: SourceError)
    | SecretsDisabled
    | SelectorInvalid
    | NamespaceListFailed
    | TargetListFailed(kind: Kind)
    | ApplyFailed(resource: Resource)
    | ApplyPanicked(resource: Resource)
    | Synced

  /** What one reconcile did. */
  datatype Trace = Trace(stage: Stage, pool: map<Digest, Certificate>, id: string,
                         cleaned: set<Resource>, applied: set<Resource>)

  type TargetMap = map<Resource, TargetObject>

  // ---------- What is desired, what is stale ----------

  predicate AllowedNamespace(options: Options, namespace: string) {
    |options.targetNamespaces| == 0 || namespace in options.targetNamespaces
  }

  predicate EnabledKind(options: Options, kind: Kind) {
    kind.ConfigMapKind? || options.secretTargetsEnabled
  }

  /** The target namespace selector: a missing one selects everything. */
  predicate SelectsNamespace(target: BundleTarget, labels: Labels) {
    target.namespaceSelector.None? || target.namespaceSelector.value.Matches(labels)
  }

  predicate WantsNamespace(target: BundleTarget, options: Options, name: string, ns: Namespace) {
    SelectsNamespace(target, ns.labels) && !ns.terminating && AllowedNamespace(options, name)
  }

  function TemplateOf(target: BundleTarget, kind: Kind): Option<TargetTemplate> {
    if kind.SecretKind? then target.secret else target.configMap
  }

  /** Every requested kind in every selected, non-terminating, allowed namespace. */
  function Desired(target: BundleTarget, name: string, options: Options,
                   namespaces: map<string, Namespace>): set<Resource>
  {
    set n, k | n in namespaces && k in {ConfigMapKind, SecretKind}
               && WantsNamespace(target, options, n, namespaces[n]) && TemplateOf(target, k).Some?
      :: Resource(k, n, name)
  }

  function DesiredBy(w: World): set<Resource> {
    Desired(w.bundle.spec.target, w.bundle.meta.name, w.options, w.namespaces)
  }

  function PlanFor(w: World, pem: string, kind: Kind): Plan
    requires TemplateOf(w.bundle.spec.target, kind).Some?
  {
    var target := w.bundle.spec.target;
    PlanOf(w.encoders, pem, target, TemplateOf(target, kind).value, w.bundle.meta.name, w.bundle.meta.uid)
  }

  function RenderFor(w: World, pem: string, kind: Kind): Option<map<string, string>>
    requires TemplateOf(w.bundle.spec.target, kind).Some?
  {
    Render(w.encoders, TemplateOf(w.bundle.spec.target, kind).value, w.bundle.spec.target, pem)
  }

  predicate PanicsFor(w: World, pem: string) {
    RenderPanics(w.encoders, w.bundle.spec.target, pem)
  }

  /** The target cache lists labelled objects in the allowed namespaces. */
  predicate Listed(w: World, r: Resource, obj: TargetObject) {
    obj.owner == Some(w.bundle.meta.name) && AllowedNamespace(w.options, r.namespace)
  }

  /** No longer desired, controlled by the bundle and not being deleted. */
  predicate IsStale(w: World, desired: set<Resource>, r: Resource, obj: TargetObject) {
    Listed(w, r, obj) && r !in desired && !obj.deleting && ControlledBy(obj, w.bundle.meta.uid)
  }

  function StaleOf(w: World, desired: set<Resource>, targets: TargetMap, kind: Kind): set<Resource> {
    set r | r in targets && r.kind == kind && IsStale(w, desired, r, targets[r])
  }

  function AllStale(w: World, desired: set<Resource>, targets: TargetMap): set<Resource> {
    set r | r in targets && EnabledKind(w.options, r.kind) && IsStale(w, desired, r, targets[r])
  }

  function Stale(w: World, targets: TargetMap): set<Resource> {
    AllStale(w, DesiredBy(w), targets)
  }

  predicate NeedsApply(w: World, pem: string, targets: TargetMap, r: Resource) {
    TemplateOf(w.bundle.spec.target, r.kind).Some?
    && (r in targets ==> NeedsUpdate(targets[r], PlanFor(w, pem, r.kind)))
  }

  // ---------- The effect on targets ----------

  function Lookup(targets: TargetMap, r: Resource): Option<TargetObject> {
    if r in targets then Some(targets[r]) else None
  }

  function Store(targets: TargetMap, r: Resource, obj: Option<TargetObject>): TargetMap {
    if obj.Some? then targets[r := obj.value] else targets - {r}
  }

  function CleanupResult(w: World, r: Resource, obj: TargetObject): Option<TargetObject> {
    match w.faults.cleanup(r)
    case PatchFails => Some(obj)
    case DeleteFails => Some(Withdrawn(obj, w.bundle.meta.name, w.bundle.meta.uid))
    case CleansUp => Cleaned(obj, w.bundle.meta.name, w.bundle.meta.uid)
  }

  /** The flag that a cleanup returns: the object was left without data, and it is a Secret. */
  function CleanupFlag(w: World, r: Resource, obj: TargetObject): bool {
    !w.faults.cleanup(r).PatchFails? && !HasForeignData(obj) && r.kind.SecretKind?
  }

  function ApplyResult(w: World, pem: string, targets: TargetMap, r: Resource): Option<TargetObject> {
    if TemplateOf(w.bundle.spec.target, r.kind).Some? && RenderFor(w, pem, r.kind).Some?
    then Some(Applied(Lookup(targets, r), PlanFor(w, pem, r.kind), RenderFor(w, pem, r.kind).value))
    else None
  }

  /** The targets after cleaning and applying exactly the given resources. */
  ghost predicate Effect(w: World, pem: string, before: TargetMap, after: TargetMap,
                         cleaned: set<Resource>, applied: set<Resource>)
  {
    && cleaned <= Stale(w, before)
    && (forall r :: r in applied ==> r in DesiredBy(w) && NeedsApply(w, pem, before, r)
                                     && ApplyResult(w, pem, before, r).Some?)
    && (forall r :: Lookup(after, r) ==
          if r in applied then ApplyResult(w, pem, before, r)
          else if r in cleaned then CleanupResult(w, r, before[r])
          else Lookup(before, r))
  }

  /** Exactly the given resources were cleaned up. */
  ghost predicate CleanedExactly(w: World, before: TargetMap, after: TargetMap, cleaned: set<Resource>) {
    && cleaned <= before.Keys
    && forall r :: Lookup(after, r) == if r in cleaned then CleanupResult(w, r, before[r]) else Lookup(before, r)
  }

  /** Exactly the given resources were applied. */
  ghost predicate AppliedExactly(w: World, pem: string, before: TargetMap, after: TargetMap, applied: set<Resource>) {
    && (forall r :: r in applied ==> NeedsApply(w, pem, before, r) && ApplyResult(w, pem, before, r).Some?)
    && forall r :: Lookup(after, r) == if r in applied then ApplyResult(w, pem, before, r) else Lookup(before, r)
  }

  // ---------- The status ----------

  function Existing(w: World): seq<Condition> {
    w.bundle.status.conditions
  }

  function SyncedCondition(w: World, status: bool, reason: string, message: string): Condition {
    Condition(SYNCED, status, reason, message, w.bundle.meta.generation, 0)
  }

  function SuccessMessage(w: World): string {
    var selector := w.bundle.spec.target.namespaceSelector;
    var everything := selector.None? || selector.value == EMPTY_SELECTOR;
    if |w.options.targetNamespaces| > 0 then
      if everything then "Successfully synced Bundle to all allowed namespaces"
      else "Successfully synced Bundle to allowed namespaces that match this label selector: " + w.describe(selector.value)
    else
      if everything then "Successfully synced Bundle to all namespaces"
      else "Successfully synced Bundle to namespaces that match this label selector: " + w.describe(selector.value)
  }

  function Success(w: World): Condition {
    SyncedCondition(w, true, "Synced", SuccessMessage(w))
  }

  /** The status patch that sets `c` now and reports `version`. */
  function PatchWith(w: World, c: Condition, version: string): BundleStatus {
    BundleStatus([c.(lastTransitionTime := TransitionTime(Existing(w), c, w.now))], version)
  }

  /** A failing reconcile reports a false condition and keeps the package version. */
  function FailureStatus(w: World, reason: string, message: string): BundleStatus {
    PatchWith(w, SyncedCondition(w, false, reason, message), w.bundle.status.defaultCAPackageVersion)
  }

  /** A missing source is told from every other error, and is not an error of the reconcile. */
  function SourcesStatus(w: World, e: SourceError): BundleStatus {
    if e.NotFoundError? then FailureStatus(w, "SourceNotFound", "Bundle source was not found: " + w.failure)
    else FailureStatus(w, "SourceBuildError", "Failed to build bundle sources: " + w.failure)
  }

  function SecretsStatus(w: World): BundleStatus {
    FailureStatus(w, "SecretTargetsDisabled", "Bundle has Secret targets but the feature is disabled")
  }

  function KindName(kind: Kind): string {
    if kind.SecretKind? then "Secret" else "ConfigMap"
  }

  function ApplyStatus(w: World, r: Resource): BundleStatus {
    FailureStatus(w, "Sync" + KindName(r.kind) + "TargetFailed",
                  "Failed to sync bundle " + KindName(r.kind) + " to namespace \"" + r.namespace + "\": " + w.failure)
  }

  /** A successful reconcile has news if it applied a target, if the package changed or if the
      existing condition differs. */
  predicate HasNews(w: World, tr: Trace) {
    tr.applied != {} || tr.id != w.bundle.status.defaultCAPackageVersion || !HasCondition(Existing(w), Success(w))
  }

  // ---------- One reconcile, specified ----------

  /** All sources were resolved: the traced pool and package are the ones the sources call for. */
  ghost predicate ResolvedInto(w: World, tr: Trace) {
    && Buildable(w.env, w.bundle.spec.sources)
    && Holds(w.env.crypto, tr.pool, Resolved(w.env, w.bundle.spec.sources))
    && tr.id == DefaultID(w.env, w.bundle.spec.sources)
  }

  /** The first kind of targets that cannot be listed. */
  function UnlistedKind(w: World): Option<Kind> {
    if w.faults.listTargets(ConfigMapKind) then Some(ConfigMapKind)
    else if w.options.secretTargetsEnabled && w.faults.listTargets(SecretKind) then Some(SecretKind)
    else None
  }

  /** The checks after the sources in their order: each stage is reached only through those before it. */
  predicate PassedChecks(w: World, stage: Stage) {
    var toTargets := stage.TargetListFailed? || stage.ApplyFailed? || stage.ApplyPanicked? || stage.Synced?;
    && (stage.SelectorInvalid? || stage.NamespaceListFailed? || toTargets ==>
          w.options.secretTargetsEnabled || w.bundle.spec.target.secret.None?)
    && (stage.NamespaceListFailed? || toTargets ==> SelectorValid(w.bundle.spec.target.namespaceSelector))
    && (toTargets ==> !w.faults.listNamespaces)
    && (if stage.TargetListFailed? then UnlistedKind(w) == Some(stage.kind) else toTargets ==> UnlistedKind(w).None?)
  }

  ghost predicate Reconciled(w: World, before: TargetMap, after: TargetMap, tr: Trace,
                             patch: Option<BundleStatus>, err: bool, events: nat)
  {
    var pem := PemText(tr.pool);
    && Effect(w, pem, before, after, tr.cleaned, tr.applied)
    && (tr.stage.SourcesFailed? || tr.stage.SourcesPanicked? ==>
          !Buildable(w.env, w.bundle.spec.sources))
    && (!tr.stage.SourcesFailed? && !tr.stage.SourcesPanicked? ==> ResolvedInto(w, tr))
    && PassedChecks(w, tr.stage)
    && (match tr.stage
        case SourcesPanicked =>
          patch == None && err && tr.cleaned == tr.applied == {} && events == 0 && HasUntyped(w.bundle.spec.sources)
        case SourcesFailed(e) =>
          patch == Some(SourcesStatus(w, e)) && err == !e.NotFoundError?
          && tr.cleaned == tr.applied == {} && events == 1
          && BuildFailsWith(w.env, w.bundle.spec.sources, e)
        case SecretsDisabled =>
          patch == Some(SecretsStatus(w)) && !err && tr.cleaned == tr.applied == {} && events == 1
          && !w.options.secretTargetsEnabled && w.bundle.spec.target.secret.Some?
        case SelectorInvalid =>
          patch == None && err && tr.cleaned == tr.applied == {} && events == 1
          && !SelectorValid(w.bundle.spec.target.namespaceSelector)
        case NamespaceListFailed =>
          patch == None && err && tr.cleaned == tr.applied == {} && events == 1 && w.faults.listNamespaces
        case TargetListFailed(kind) =>
          patch == None && err && tr.applied == {} && events == 1
          && tr.cleaned == if kind.ConfigMapKind? then {} else StaleOf(w, DesiredBy(w), before, ConfigMapKind)
        case ApplyFailed(r) =>
          patch == Some(ApplyStatus(w, r)) && err && tr.cleaned == Stale(w, before) && events == 1
          && r in DesiredBy(w) && NeedsApply(w, pem, before, r)
          && (w.faults.apply(r) || RenderFor(w, pem, r.kind).None?) && !PanicsFor(w, pem)
        case ApplyPanicked(r) =>
          patch == None && err && tr.cleaned == Stale(w, before) && events == 0
          && r in DesiredBy(w) && NeedsApply(w, pem, before, r) && PanicsFor(w, pem)
        case Synced =>
          && !err && tr.cleaned == Stale(w, before)
          && (forall r :: r in DesiredBy(w) && NeedsApply(w, pem, before, r) ==> r in tr.applied)
          && if HasNews(w, tr) then patch == Some(PatchWith(w, Success(w), tr.id)) && events == 1
             else patch == None && events == 0)
  }

  // ---------- The controller ----------

  /** How reading the Bundle of a request went. */
  datatype BundleRead = Found | Missing | ReadFails

  datatype ApplyOutcome = Unchanged | Changed | ApplyError | ApplyPanic

  class BundleController {
    var targets: TargetMap
    var events: nat

    constructor (targets: TargetMap)
      ensures this.targets == targets && events == 0
    {
      this.targets, events := targets, 0;
    }

    /** Applies one target unless it is up to date. */
    method ApplyTarget(w: World, pem: string, r: Resource) returns (outcome: ApplyOutcome)
      modifies this`targets
      ensures outcome.ApplyError? <==>
                TemplateOf(w.bundle.spec.target, r.kind).None?
                || (NeedsApply(w, pem, old(targets), r) && !PanicsFor(w, pem)
                    && (w.faults.apply(r) || RenderFor(w, pem, r.kind).None?))
      ensures outcome.ApplyPanic? <==> NeedsApply(w, pem, old(targets), r) && PanicsFor(w, pem)
      ensures outcome.Unchanged? ==> !NeedsApply(w, pem, old(targets), r)
      ensures outcome.Changed? ==>
                NeedsApply(w, pem, old(targets), r) && ApplyResult(w, pem, old(targets), r).Some?
                && targets == Store(old(targets), r, ApplyResult(w, pem, old(targets), r))
      ensures !outcome.Changed? ==> targets == old(targets)
    {
      var template := TemplateOf(w.bundle.spec.target, r.kind);
      if template.None? {
        return ApplyError;
      }
      if r in targets && !NeedsUpdate(targets[r], PlanFor(w, pem, r.kind)) {
        return Unchanged;
      }
      if PanicsFor(w, pem) {
        return ApplyPanic;
      }
      var data := RenderFor(w, pem, r.kind);
      if data.None? || w.faults.apply(r) {
        return ApplyError;
      }
      targets := targets[r := Applied(Lookup(targets, r), PlanFor(w, pem, r.kind), data.value)];
      return Changed;
    }

    /** Withdraws the manager's entries and deletes the object when nothing is left in it.  The result tells of
        a deletion for Secrets only, and there also of one that failed. */
    method CleanupTarget(w: World, r: Resource) returns (deleted: bool, err: bool)
      requires r in targets
      modifies this`targets
      ensures targets == Store(old(targets), r, CleanupResult(w, r, old(targets)[r]))
      ensures deleted == CleanupFlag(w, r, old(targets)[r])
      ensures var fault, empty := w.faults.cleanup(r), !HasForeignData(old(targets)[r]);
              err <==> fault.PatchFails? || (fault.DeleteFails? && empty)
    {
      CleanedUp(targets[r], w.bundle.meta.name, w.bundle.meta.uid);
      var fault := w.faults.cleanup(r);
      if fault.PatchFails? {
        return false, true;
      }
      var left := Withdrawn(targets[r], w.bundle.meta.name, w.bundle.meta.uid);
      targets := targets[r := left];
      if left.data == map[] {
        if fault.DeleteFails? {
          return r.kind.SecretKind?, true;
        }
        targets := targets - {r};
        return r.kind.SecretKind?, false;
      }
      return false, false;
    }

    /** Cleans up all stale targets of one kind. */
    method CleanupKind(w: World, kind: Kind, desired: set<Resource>) returns (err: bool)
      modifies this`targets
      ensures err == w.faults.listTargets(kind)
      ensures CleanedExactly(w, old(targets), targets, if err then {} else StaleOf(w, desired, old(targets), kind))
    {
      NothingCleaned(w, targets);
      hide CleanupResult, CleanedExactly, HasForeignData;
      if w.faults.listTargets(kind) {
        return true;
      }
      var listed := targets;
      var rest := set r | r in listed && r.kind == kind && Listed(w, r, listed[r]);
      ghost var stale := StaleOf(w, desired, listed, kind);
      assert stale - rest == {};
      while rest != {}
        invariant rest <= listed.Keys
        invariant forall r :: r in rest ==> r.kind == kind && Listed(w, r, listed[r])
        invariant CleanedExactly(w, listed, targets, stale - rest)
        decreases |rest|
      {
        var r :| r in rest;
        if r !in desired && !listed[r].deleting && ControlledBy(listed[r], w.bundle.meta.uid) {
          ghost var current := targets;
          CleanedMore(w, listed, current, stale - rest, r);
          var _, _ := CleanupTarget(w, r);
          assert stale - (rest - {r}) == stale - rest + {r};
        } else {
          assert stale - (rest - {r}) == stale - rest;
        }
        rest := rest - {r};
      }
      assert stale - rest == stale;
      err := false;
    }

    /** Applies the desired targets in any order, up to the first failure. */
    method ApplyTargets(w: World, pem: string, desired: set<Resource>)
      returns (failed: Option<Resource>, panicked: bool, changed: bool, ghost applied: set<Resource>)
      requires forall r :: r in desired ==> TemplateOf(w.bundle.spec.target, r.kind).Some?
      modifies this`targets
      ensures applied <= desired && changed == (applied != {})
      ensures AppliedExactly(w, pem, old(targets), targets, applied)
      ensures failed.None? ==> forall r :: r in desired && NeedsApply(w, pem, old(targets), r) ==> r in applied
      ensures failed.Some? ==> panicked == PanicsFor(w, pem)
      ensures failed.Some? ==>
                failed.value in desired && NeedsApply(w, pem, old(targets), failed.value)
                && (w.faults.apply(failed.value) || RenderFor(w, pem, failed.value.kind).None?)
    {
      NothingApplied(w, pem, targets);
      hide NeedsApply, ApplyResult, RenderFor, AppliedExactly, PanicsFor;
      ghost var before := targets;
      changed, applied := false, {};
      var rest := desired;
      while rest != {}
        invariant rest <= desired && applied <= desired - rest
        invariant forall r :: r in desired - rest && NeedsApply(w, pem, before, r) ==> r in applied
        invariant changed == (applied != {})
        invariant AppliedExactly(w, pem, before, targets, applied)
        decreases |rest|
      {
        var r :| r in rest;
        AppliedMore(w, pem, before, targets, applied, r);
        var outcome := ApplyTarget(w, pem, r);
        if outcome.ApplyError? || outcome.ApplyPanic? {
          PanicsAreUnrendered(w, pem, r.kind);
          return Some(r), outcome.ApplyPanic?, changed, applied;
        }
        if outcome.Changed? {
          changed, applied := true, applied + {r};
        }
        rest := rest - {r};
      }
      failed, panicked := None, false;
    }

    /** Cleans up the stale targets of every enabled kind, up to the first failing list call. */
    method CleanupAll(w: World, desired: set<Resource>)
      returns (failed: Option<Kind>, ghost cleaned: set<Resource>)
      modifies this`targets
      ensures CleanedExactly(w, old(targets), targets, cleaned) && cleaned <= AllStale(w, desired, old(targets))
      ensures failed == UnlistedKind(w)
      ensures failed.None? ==> cleaned == AllStale(w, desired, old(targets))
      ensures failed.Some? ==>
                cleaned == if failed.value.ConfigMapKind? then {} else StaleOf(w, desired, old(targets), ConfigMapKind)
    {
      hide CleanupResult, CleanedExactly, AllStale, StaleOf;
      ghost var t0 := targets;
      var err := CleanupKind(w, ConfigMapKind, desired);
      if err {
        return Some(ConfigMapKind), {};
      }
      ghost var t1 := targets;
      cleaned := StaleOf(w, desired, t0, ConfigMapKind);
      StaleKinds(w, desired, t0, t1);
      if w.options.secretTargetsEnabled {
        err := CleanupKind(w, SecretKind, desired);
        CleanedBoth(w, t0, t1, targets, cleaned, if err then {} else StaleOf(w, desired, t1, SecretKind));
        if err {
          assert cleaned + {} == cleaned;
          return Some(SecretKind), cleaned;
        }
        cleaned := cleaned + StaleOf(w, desired, t1, SecretKind);
      }
      failed := None;
    }

    /** Cleans up, applies and reports, once the sources are resolved and the selector is valid. */
    method SyncTargets(w: World, pem: string, id: string, ghost start: Trace)
      returns (patch: Option<BundleStatus>, err: bool, ghost tr: Trace)
      requires UniqueKinds(Existing(w))
      requires ResolvedInto(w, start) && pem == PemText(start.pool) && id == start.id
      requires w.options.secretTargetsEnabled || w.bundle.spec.target.secret.None?
      requires SelectorValid(w.bundle.spec.target.namespaceSelector) && !w.faults.listNamespaces
      modifies this
      ensures events >= old(events)
      ensures Reconciled(w, old(targets), targets, tr, patch, err, events - old(events))
    {
      hide PemText, Buildable, Holds, Resolved, DefaultID, Effect, CleanedExactly, AppliedExactly, NeedsApply;
      hide AllStale, StaleOf, PanicsFor, ApplyStatus;
      hide HasCondition, Success, PatchWith;
      ghost var t0 := targets;
      var desired := FindDesired(w);
      DesiredHaveTemplates(w);
      hide DesiredBy;
      var failed;
      ghost var cleaned, applied;
      failed, cleaned := CleanupAll(w, desired);
      tr := start.(cleaned := cleaned, applied := {}, stage := Synced);
      if failed.Some? {
        events := events + 1;
        CleanedEffect(w, pem, t0, targets, cleaned);
        return None, true, tr.(stage := TargetListFailed(failed.value));
      }
      ghost var t1 := targets;
      var unapplied, panicked, changed;
      unapplied, panicked, changed, applied := ApplyTargets(w, pem, desired);
      CleanedThenApplied(w, pem, t0, t1, targets, cleaned, applied);
      tr := tr.(applied := applied);
      if unapplied.Some? && panicked {
        return None, true, tr.(stage := ApplyPanicked(unapplied.value));
      }
      if unapplied.Some? {
        patch := FailApply(w, unapplied.value);
        return patch, true, tr.(stage := ApplyFailed(unapplied.value));
      }
      patch := Finish(w, changed, id);
      err := false;
    }

    method ReconcileBundle(w: World)
      returns (patch: Option<BundleStatus>, err: bool, ghost tr: Trace)
      requires UniqueKinds(Existing(w))
      modifies this
      ensures events >= old(events)
      ensures Reconciled(w, old(targets), targets, tr, patch, err, events - old(events))
    {
      hide PemText, Holds, Buildable, Resolved, DefaultID, Effect, FailureStatus, BuildFailsWith, SelectorValid;
      hide UnlistedKind, HasUntyped, DesiredBy, NeedsApply, Stale, StaleOf;
      var target := w.bundle.spec.target;
      tr := Trace(SourcesPanicked, map[], "", {}, {});
      NoEffect(w, PemText(tr.pool), targets);
      var build := BuildBundle(w.env, w.bundle.spec.sources);
      if build.Panicked? {
        return None, true, tr;
      }
      if build.Failed? {
        tr := tr.(stage := SourcesFailed(build.error));
        if build.error.NotFoundError? {
          patch := FailWith(w, "SourceNotFound", "Bundle source was not found: " + w.failure);
          return patch, false, tr;
        }
        patch := FailWith(w, "SourceBuildError", "Failed to build bundle sources: " + w.failure);
        return patch, true, tr;
      }
      tr := Trace(SecretsDisabled, build.pool.certificates, build.defaultCAID, {}, {});
      NoEffect(w, PemText(tr.pool), targets);
      if !w.options.secretTargetsEnabled && target.secret.Some? {
        patch := FailWith(w, "SecretTargetsDisabled", "Bundle has Secret targets but the feature is disabled");
        return patch, false, tr;
      }
      if !SelectorValid(target.namespaceSelector) {
        events := events + 1;
        return None, true, tr.(stage := SelectorInvalid);
      }
      if w.faults.listNamespaces {
        events := events + 1;
        return None, true, tr.(stage := NamespaceListFailed);
      }
      var pem := build.pool.PEM();
      patch, err, tr := SyncTargets(w, pem, build.defaultCAID, tr);
    }

    /** Serves a request: a Bundle that is gone is no error, and a status patch that cannot be stored is one.
        `written` is the status patch that was stored. */
    method Reconcile(read: BundleRead, w: World, patchFails: bool)
      returns (written: Option<BundleStatus>, err: bool, ghost tr: Trace, ghost patch: Option<BundleStatus>,
               ghost failed: bool)
      requires UniqueKinds(Existing(w))
      modifies this
      ensures !read.Found? ==>
                targets == old(targets) && events == old(events) && written == None && err == read.ReadFails?
      ensures read.Found? ==>
                && events >= old(events)
                && Reconciled(w, old(targets), targets, tr, patch, failed, events - old(events))
                && written == (if patchFails then None else patch)
                && err == (failed || (patch.Some? && patchFails))
    {
      hide Reconciled;
      tr, patch, failed := Trace(SourcesPanicked, map[], "", {}, {}), None, false;
      if read.Missing? {
        return None, false, tr, patch, failed;
      }
      if read.ReadFails? {
        return None, true, tr, patch, failed;
      }
      var statusPatch, resultErr;
      statusPatch, resultErr, tr := ReconcileBundle(w);
      patch, failed := statusPatch, resultErr;
      if statusPatch.Some? {
        if patchFails {
          return None, true, tr, patch, failed;
        }
        return statusPatch, resultErr, tr, patch, failed;
      }
      return None, resultErr, tr, patch, failed;
    }

    method FailApply(w: World, r: Resource) returns (patch: Option<BundleStatus>)
      requires UniqueKinds(Existing(w))
      modifies this`events
      ensures events == old(events) + 1
      ensures patch == Some(ApplyStatus(w, r))
    {
      hide FailureStatus;
      var kind := if r.kind.SecretKind? then "Secret" else "ConfigMap";
      patch := FailWith(w, "Sync" + kind + "TargetFailed",
                        "Failed to sync bundle " + kind + " to namespace \"" + r.namespace + "\": " + w.failure);
    }

    /** The status patch of a reconcile that applied everything, or nothing when there is no news. */
    method Finish(w: World, changed: bool, id: string) returns (patch: Option<BundleStatus>)
      requires UniqueKinds(Existing(w))
      modifies this`events
      ensures var news := changed || id != w.bundle.status.defaultCAPackageVersion
                          || !HasCondition(Existing(w), Success(w));
              patch == (if news then Some(PatchWith(w, Success(w), id)) else None)
              && events == old(events) + if news then 1 else 0
    {
      var version, versionChanged := SetDefaultCAVersion(w.bundle.status.defaultCAPackageVersion, id);
      var needsUpdate := changed || versionChanged;
      var known := BundleHasCondition(Existing(w), Success(w));
      if !needsUpdate && known {
        return None;
      }
      var conditions := SetBundleCondition(Existing(w), [], Success(w), w.now);
      events := events + 1;
      return Some(BundleStatus(conditions, version));
    }

    /** Records a warning and reports a false condition. */
    method FailWith(w: World, reason: string, message: string) returns (patch: Option<BundleStatus>)
      requires UniqueKinds(Existing(w))
      modifies this`events
      ensures events == old(events) + 1
      ensures patch == Some(FailureStatus(w, reason, message))
    {
      var conditions := SetBundleCondition(Existing(w), [], SyncedCondition(w, false, reason, message), w.now);
      events := events + 1;
      patch := Some(BundleStatus(conditions, w.bundle.status.defaultCAPackageVersion));
    }

    method FindDesired(w: World) returns (desired: set<Resource>)
      ensures desired == DesiredBy(w)
    {
      var target := w.bundle.spec.target;
      desired := {};
      var rest := w.namespaces.Keys;
      while rest != {}
        invariant rest <= w.namespaces.Keys
        invariant desired == set r | r in DesiredBy(w) && r.namespace !in rest
        decreases |rest|
      {
        var n :| n in rest;
        rest := rest - {n};
        if !SelectsNamespace(target, w.namespaces[n].labels) || w.namespaces[n].terminating {
          continue;
        }
        if |w.options.targetNamespaces| > 0 && n !in w.options.targetNamespaces {
          continue;
        }
        if target.secret.Some? {
          desired := desired + {Resource(SecretKind, n, w.bundle.meta.name)};
        }
        if target.configMap.Some? {
          desired := desired + {Resource(ConfigMapKind, n, w.bundle.meta.name)};
        }
      }
    }
  }

  // ---------- Composing the phases ----------

  lemma NoEffect(w: World, pem: string, targets: TargetMap)
    ensures Effect(w, pem, targets, targets, {}, {})
  {
  }

  lemma DesiredHaveTemplates(w: World)
    ensures forall r :: r in DesiredBy(w) ==> TemplateOf(w.bundle.spec.target, r.kind).Some?
  {
  }

  /** The flag tells whether the object is gone if and only if there was nothing to delete, or a Secret was deleted,
      or deleting a ConfigMap failed: it misses every deleted ConfigMap and claims every Secret whose deletion
      failed. */
  lemma FlagTellsDeletion(w: World, r: Resource, obj: TargetObject)
    ensures CleanupFlag(w, r, obj) == CleanupResult(w, r, obj).None? <==>
            || w.faults.cleanup(r).PatchFails? || HasForeignData(obj)
            || (r.kind.SecretKind? <==> w.faults.cleanup(r).CleansUp?)
  {
    CleanedUp(obj, w.bundle.meta.name, w.bundle.meta.uid);
  }

  lemma PanicsAreUnrendered(w: World, pem: string, kind: Kind)
    requires TemplateOf(w.bundle.spec.target, kind).Some?
    ensures PanicsFor(w, pem) ==> RenderFor(w, pem, kind).None?
  {
  }

  lemma SameLookup(w: World, pem: string, a: TargetMap, b: TargetMap, r: Resource)
    requires Lookup(a, r) == Lookup(b, r)
    ensures NeedsApply(w, pem, a, r) == NeedsApply(w, pem, b, r)
    ensures ApplyResult(w, pem, a, r) == ApplyResult(w, pem, b, r)
  {
  }

  lemma NothingCleaned(w: World, targets: TargetMap)
    ensures CleanedExactly(w, targets, targets, {})
  {
  }

  lemma NothingApplied(w: World, pem: string, targets: TargetMap)
    ensures AppliedExactly(w, pem, targets, targets, {})
  {
  }

  lemma CleanedMore(w: World, t0: TargetMap, t1: TargetMap, cleaned: set<Resource>, r: Resource)
    requires CleanedExactly(w, t0, t1, cleaned) && r !in cleaned && r in t0
    ensures r in t1 && t1[r] == t0[r]
    ensures CleanedExactly(w, t0, Store(t1, r, CleanupResult(w, r, t0[r])), cleaned + {r})
  {
    hide CleanupResult;
    assert Lookup(t1, r) == Lookup(t0, r);
  }

  lemma AppliedMore(w: World, pem: string, t0: TargetMap, t1: TargetMap, applied: set<Resource>, r: Resource)
    requires AppliedExactly(w, pem, t0, t1, applied) && r !in applied
    ensures NeedsApply(w, pem, t1, r) == NeedsApply(w, pem, t0, r)
    ensures ApplyResult(w, pem, t1, r) == ApplyResult(w, pem, t0, r)
    ensures NeedsApply(w, pem, t0, r) && ApplyResult(w, pem, t0, r).Some? ==>
              AppliedExactly(w, pem, t0, Store(t1, r, ApplyResult(w, pem, t0, r)), applied + {r})
  {
    assert Lookup(t1, r) == Lookup(t0, r);
    SameLookup(w, pem, t0, t1, r);
    hide NeedsApply, ApplyResult;
  }

  /** Cleaning up one kind does not disturb the other. */
  lemma StaleKinds(w: World, desired: set<Resource>, t0: TargetMap, t1: TargetMap)
    requires CleanedExactly(w, t0, t1, StaleOf(w, desired, t0, ConfigMapKind))
    ensures StaleOf(w, desired, t1, SecretKind) == StaleOf(w, desired, t0, SecretKind)
    ensures StaleOf(w, desired, t0, ConfigMapKind) !! StaleOf(w, desired, t0, SecretKind)
    ensures AllStale(w, desired, t0) == StaleOf(w, desired, t0, ConfigMapKind)
              + if w.options.secretTargetsEnabled then StaleOf(w, desired, t0, SecretKind) else {}
  {
    hide CleanupResult;
    forall r: Resource | r.kind == SecretKind
      ensures Lookup(t1, r) == Lookup(t0, r)
    {
    }
    assert forall r :: r in t0 && r.kind == SecretKind ==> r in t1 && t1[r] == t0[r] by {
      assert forall r :: r in t0 ==> Lookup(t0, r) == Some(t0[r]);
    }
    assert forall r :: r in t1 && r.kind == SecretKind ==> r in t0 by {
      assert forall r :: r in t1 ==> Lookup(t1, r) == Some(t1[r]);
    }
  }

  lemma CleanedBoth(w: World, t0: TargetMap, t1: TargetMap, t2: TargetMap, a: set<Resource>, b: set<Resource>)
    requires CleanedExactly(w, t0, t1, a) && CleanedExactly(w, t1, t2, b)
    requires a !! b
    ensures CleanedExactly(w, t0, t2, a + b)
  {
    hide CleanupResult;
    forall r | r in b
      ensures r in t0 && t0[r] == t1[r]
    {
      assert Lookup(t1, r) == Lookup(t0, r);
    }
  }

  lemma CleanedEffect(w: World, pem: string, t0: TargetMap, t1: TargetMap, cleaned: set<Resource>)
    requires CleanedExactly(w, t0, t1, cleaned) && cleaned <= Stale(w, t0)
    ensures Effect(w, pem, t0, t1, cleaned, {})
  {
    hide CleanupResult, Stale;
  }

  lemma CleanedThenApplied(w: World, pem: string, t0: TargetMap, t1: TargetMap, t2: TargetMap,
                           cleaned: set<Resource>, applied: set<Resource>)
    requires CleanedExactly(w, t0, t1, cleaned) && cleaned <= Stale(w, t0)
    requires AppliedExactly(w, pem, t1, t2, applied) && applied <= DesiredBy(w)
    ensures Effect(w, pem, t0, t2, cleaned, applied)
    ensures forall r :: r in DesiredBy(w) ==> (NeedsApply(w, pem, t0, r) <==> NeedsApply(w, pem, t1, r))
  {
    assert cleaned !! DesiredBy(w);
    hide DesiredBy, CleanupResult, NeedsApply, ApplyResult, Stale;
    forall r | r in DesiredBy(w)
      ensures NeedsApply(w, pem, t0, r) == NeedsApply(w, pem, t1, r)
      ensures ApplyResult(w, pem, t0, r) == ApplyResult(w, pem, t1, r)
    {
      assert r !in cleaned;
      assert Lookup(t1, r) == Lookup(t0, r);
      SameLookup(w, pem, t0, t1, r);
    }
  }
}
