/**
 Where targets are placed, told from the cluster alone: the namespaces, their labels and the options decide in
 which of them a target has to exist, and in every other one nothing may be created or rewritten.
 */
module Placement {
  import opened Prelude
  import opened CertPools
  import opened BundleApi
  import Selectors
  import opened Sources
  import opened ServerSideApply
  import opened Targets
  import opened Reconciler
  import opened ReconcileProperties

  // ---------- Where a target belongs ----------

  /** The namespace exists, is not terminating, is in the list of target namespaces if there is one, and has labels
      that satisfy the selector if there is one. */
  ghost predicate IsTargetNamespace(w: World, n: string) {
    var selector := w.bundle.spec.target.namespaceSelector;
    && n in w.namespaces && !w.namespaces[n].terminating
    && (w.options.targetNamespaces != [] ==> n in w.options.targetNamespaces)
    && (selector.Some? ==> Selectors.Satisfies(w.namespaces[n].labels, selector.value))
  }

  predicate IsRequestedKind(target: BundleTarget, kind: Kind) {
    match kind
    case ConfigMapKind => target.configMap.Some?
    case SecretKind => target.secret.Some?
  }

  /** The object of the Bundle's name, of a requested kind, in a target namespace. */
  ghost predicate Belongs(w: World, r: Resource) {
    r.name == w.bundle.meta.name && IsRequestedKind(w.bundle.spec.target, r.kind) && IsTargetNamespace(w, r.namespace)
  }

  /** Labelled for the Bundle and controlled by it, not being deleted, and in the reach of the controller: of an
      enabled kind, in a listed namespace if there is a list. */
  predicate InCharge(w: World, r: Resource, obj: TargetObject) {
    && obj.owner == Some(w.bundle.meta.name) && obj.controller == Some(w.bundle.meta.uid) && !obj.deleting
    && (r.kind == SecretKind ==> w.options.secretTargetsEnabled)
    && (w.options.targetNamespaces != [] ==> r.namespace in w.options.targetNamespaces)
  }

  /** Entries that a field manager besides the controller owns, or nobody. */
  predicate IsForeign(entry: Owned<string>) {
    entry.owners != {"trust-manager"}
  }

  // ---------- What the controller takes to belong ----------

  lemma DesiredBelongs(w: World, r: Resource)
    requires SelectorValid(w.bundle.spec.target.namespaceSelector)
    ensures r in DesiredBy(w) <==> Belongs(w, r)
  {
    var selector := w.bundle.spec.target.namespaceSelector;
    if selector.Some? && r.namespace in w.namespaces {
      Selectors.SelectorMeans(selector.value, w.namespaces[r.namespace].labels);
    }
    hide Selectors.Satisfies;
  }

  lemma OwnedIsInCharge(w: World, targets: TargetMap, r: Resource)
    ensures r in ReconcileProperties.Owned(w, targets) <==> r in targets && InCharge(w, r, targets[r])
  {
  }

  lemma StaleIsMisplaced(w: World, targets: TargetMap, r: Resource)
    requires SelectorValid(w.bundle.spec.target.namespaceSelector)
    ensures r in Stale(w, targets) <==> r in targets && InCharge(w, r, targets[r]) && !Belongs(w, r)
  {
    DesiredBelongs(w, r);
    hide DesiredBy;
  }

  // ---------- After success ----------

  /** After a successful reconcile every target that belongs exists, is current for the certificates that were
      resolved, and is in the charge of the Bundle unless its deletion had begun. */
  lemma PlacedWhereItBelongs(w: World, before: TargetMap, after: TargetMap, tr: Trace, patch: Option<BundleStatus>,
                             err: bool, events: nat, r: Resource)
    requires Reconciled(w, before, after, tr, patch, err, events) && tr.stage == Synced && Belongs(w, r)
    ensures r in after && TemplateOf(w.bundle.spec.target, r.kind).Some?
    ensures !NeedsUpdate(after[r], PlanFor(w, PemText(tr.pool), r.kind))
    ensures InCharge(w, r, after[r]) <==> !(r in before && before[r].deleting)
  {
    SyncedSays(w, before, after, tr, patch, err, events);
    DesiredBelongs(w, r);
    DesiredAfterwards(w, before, after, tr, patch, err, events, r);
    OwnedIsInCharge(w, after, r);
    hide *;
    assert BeingDeleted(before, r) <==> r in before && before[r].deleting by { DeletionBegun(before, r); }
  }

  lemma DeletionBegun(before: TargetMap, r: Resource)
    ensures BeingDeleted(before, r) <==> r in before && before[r].deleting
  {
  }

  /** After a successful reconcile whose cleanups work, the Bundle is in charge of exactly the targets that belong
      and whose deletion had not begun, and of misplaced ones in which others have entries. */
  lemma InChargeExactly(w: World, before: TargetMap, after: TargetMap, tr: Trace, patch: Option<BundleStatus>,
                        err: bool, events: nat, r: Resource)
    requires Reconciled(w, before, after, tr, patch, err, events) && tr.stage == Synced && CleanupWorks(w)
    ensures r in after && InCharge(w, r, after[r]) <==>
            if Belongs(w, r) then !(r in before && before[r].deleting)
            else r in before && InCharge(w, r, before[r])
                 && exists k :: k in before[r].data && IsForeign(before[r].data[k])
  {
    SyncedSays(w, before, after, tr, patch, err, events);
    Convergence(w, before, after, tr, patch, err, events);
    DesiredBelongs(w, r);
    OwnedIsInCharge(w, after, r);
    StaleIsMisplaced(w, before, r);
    hide Reconciled, DesiredBy, Belongs, InCharge, Stale, ReconcileProperties.Owned, CleanupWorks, PemText;
  }

  /** A target that was missing holds exactly the rendered entries afterwards, all of them the controller's. */
  lemma CreatedAsRendered(w: World, before: TargetMap, after: TargetMap, tr: Trace, patch: Option<BundleStatus>,
                          err: bool, events: nat, r: Resource)
    requires Reconciled(w, before, after, tr, patch, err, events) && tr.stage == Synced && Belongs(w, r)
    requires r !in before
    ensures r in after && TemplateOf(w.bundle.spec.target, r.kind).Some?
    ensures Some(ServerSideApply.Values(after[r].data)) == RenderFor(w, PemText(tr.pool), r.kind)
    ensures forall k :: k in after[r].data ==> after[r].data[k].owners == {"trust-manager"}
  {
    SyncedSays(w, before, after, tr, patch, err, events);
    DesiredBelongs(w, r);
    DesiredAfterwards(w, before, after, tr, patch, err, events, r);
    EffectAt(w, before, after, tr, patch, err, events, r);
    hide Reconciled, PemText, DesiredBy, Belongs, Render;
    assert r in tr.applied;
    CreatedData(w, PemText(tr.pool), before, r);
  }

  lemma CreatedData(w: World, pem: string, before: TargetMap, r: Resource)
    requires r !in before && ApplyResult(w, pem, before, r).Some?
    ensures var data := ApplyResult(w, pem, before, r).value.data;
            && Some(ServerSideApply.Values(data)) == RenderFor(w, pem, r.kind)
            && forall k :: k in data ==> data[k].owners == {"trust-manager"}
  {
    hide Render;
    var patch := RenderFor(w, pem, r.kind).value;
    assert ServerSideApply.Values(Apply(map[], patch)) == patch;
  }

  // ---------- In every outcome ----------

  /** What may have happened to an object that does not belong: nothing, or its entries were withdrawn. */
  predicate OnlyWithdrawn(before: Option<TargetObject>, after: Option<TargetObject>) {
    || after == before
    || (before.Some? && after.None?)
    || (before.Some? && after.Some? && after.value.hash.None?
        && forall k :: k in after.value.data ==>
             && k in before.value.data && IsForeign(before.value.data[k])
             && after.value.data[k].value == before.value.data[k].value
             && "trust-manager" !in after.value.data[k].owners)
  }

  /** Whatever happens, nothing is created or rewritten where it does not belong, in a terminating, an unlisted or an
      unselected namespace for instance: only what the Bundle is in charge of there is withdrawn or deleted. */
  lemma NothingMisplaced(w: World, before: TargetMap, after: TargetMap, tr: Trace, patch: Option<BundleStatus>,
                         err: bool, events: nat, r: Resource)
    requires Reconciled(w, before, after, tr, patch, err, events) && !Belongs(w, r)
    ensures OnlyWithdrawn(Lookup(before, r), Lookup(after, r))
    ensures (r in before && InCharge(w, r, before[r])) || Lookup(after, r) == Lookup(before, r)
  {
    EffectAt(w, before, after, tr, patch, err, events, r);
    TouchedOnlyIfValid(w, before, after, tr, patch, err, events);
    hide Reconciled, PemText, ApplyResult, CleanupResult, Belongs, Stale, DesiredBy, OnlyWithdrawn, InCharge;
    if tr.cleaned != {} || tr.applied != {} {
      DesiredBelongs(w, r);
      StaleIsMisplaced(w, before, r);
      if r in tr.cleaned {
        WithdrawnOnly(w, before, r);
      }
    }
    SameIsOnlyWithdrawn(Lookup(before, r));
  }

  lemma SameIsOnlyWithdrawn(obj: Option<TargetObject>)
    ensures OnlyWithdrawn(obj, obj)
  {
  }

  lemma WithdrawnOnly(w: World, before: TargetMap, r: Resource)
    requires r in before
    ensures OnlyWithdrawn(Lookup(before, r), CleanupResult(w, r, before[r]))
  {
  }

  lemma TouchedOnlyIfValid(w: World, before: TargetMap, after: TargetMap, tr: Trace, patch: Option<BundleStatus>,
                           err: bool, events: nat)
    requires Reconciled(w, before, after, tr, patch, err, events)
    ensures tr.cleaned != {} || tr.applied != {} ==> SelectorValid(w.bundle.spec.target.namespaceSelector)
    ensures tr.cleaned <= Stale(w, before) && tr.applied <= DesiredBy(w)
  {
    hide PemText, ResolvedInto, Buildable, HasUntyped, Stale, StaleOf, DesiredBy, NeedsApply, ApplyResult;
    hide CleanupResult, HasNews, PatchWith, Success, SelectorValid;
  }

  /** A misplaced target in the charge of the Bundle is withdrawn by every successful reconcile whose cleanups work:
      it is gone, or holds entries of others only. */
  lemma MisplacedIsWithdrawn(w: World, before: TargetMap, after: TargetMap, tr: Trace, patch: Option<BundleStatus>,
                             err: bool, events: nat, r: Resource)
    requires Reconciled(w, before, after, tr, patch, err, events) && tr.stage == Synced && CleanupWorks(w)
    requires r in before && InCharge(w, r, before[r]) && !Belongs(w, r)
    ensures r in after <==> exists k :: k in before[r].data && IsForeign(before[r].data[k])
    ensures r in after ==> forall k :: k in after[r].data ==> "trust-manager" !in after[r].data[k].owners
  {
    SyncedSays(w, before, after, tr, patch, err, events);
    DesiredBelongs(w, r);
    StaleIsMisplaced(w, before, r);
    UndesiredAfterwards(w, before, after, tr, patch, err, events, r);
    CleanedUp(before[r], w.bundle.meta.name, w.bundle.meta.uid);
    hide Reconciled, DesiredBy, Belongs, InCharge, Stale, CleanupWorks, PemText, Cleaned, Shared;
    hide ReconcileProperties.Owned;
    if r in after {
      assert forall k :: k in after[r].data ==> k !in ManagedKeys(after[r]);
    }
  }
}
