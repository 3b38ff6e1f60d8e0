/**
 The watch predicates: which Bundles an event on a ConfigMap, a Secret or a Namespace wakes up, and
 that no event that could change a result is missed.
 */
module Watches {
  import opened Prelude
  import opened BundleApi
  import opened CertPools
  import opened Sources
  import opened Targets
  import opened Reconciler

  // ---------- The predicates ----------

  predicate LabelsMatchSelector(labels: Labels, selector: Option<LabelSelector>) {
    SelectorValid(selector) && SelectorMatches(selector, labels)
  }

  predicate SourceSelectsObject(ref: Option<SourceObjectKeySelector>, name: string, labels: Labels) {
    ref.Some? && (LabelsMatchSelector(labels, ref.value.selector) || ref.value.name == name)
  }

  function RefOfKind(s: BundleSource, kind: Kind): Option<SourceObjectKeySelector> {
    if kind.ConfigMapKind? then s.configMap else s.secret
  }

  /** Whether an event on an object of `kind` wakes up a Bundle with these sources. */
  predicate SourceEventWakes(sources: seq<BundleSource>, kind: Kind, name: string, labels: Labels) {
    exists i :: 0 <= i < |sources| && SourceSelectsObject(RefOfKind(sources[i], kind), name, labels)
  }

  /** Whether an event on a namespace wakes up a Bundle with this target. */
  predicate NamespaceEventWakes(target: BundleTarget, labels: Labels) {
    SelectorValid(target.namespaceSelector) && SelectsNamespace(target, labels)
  }

  method AnySourceSelects(sources: seq<BundleSource>, kind: Kind, name: string, labels: Labels)
    returns (wakes: bool)
    ensures wakes == SourceEventWakes(sources, kind, name, labels)
  {
    var i := 0;
    while i < |sources|
      invariant 0 <= i <= |sources|
      invariant forall j :: 0 <= j < i ==> !SourceSelectsObject(RefOfKind(sources[j], kind), name, labels)
    {
      if SourceSelectsObject(RefOfKind(sources[i], kind), name, labels) {
        return true;
      }
      i := i + 1;
    }
    wakes := false;
  }

  /** The requests for an event on one object: the names of exactly the Bundles that it wakes up. */
  method EnqueueRequests(bundles: seq<Bundle>, kind: Kind, name: string, labels: Labels)
    returns (requests: seq<string>)
    ensures forall n :: n in requests <==>
              exists b :: b in bundles && b.meta.name == n && SourceEventWakes(b.spec.sources, kind, name, labels)
  {
    requests := [];
    var i := 0;
    while i < |bundles|
      invariant 0 <= i <= |bundles|
      invariant forall n :: n in requests <==>
                  exists b :: b in bundles[..i] && b.meta.name == n
                              && SourceEventWakes(b.spec.sources, kind, name, labels)
    {
      assert bundles[..i + 1] == bundles[..i] + [bundles[i]];
      var wakes := AnySourceSelects(bundles[i].spec.sources, kind, name, labels);
      if wakes {
        requests := requests + [bundles[i].meta.name];
      }
      i := i + 1;
    }
    assert bundles[..i] == bundles;
  }

  // ---------- No missed source event ----------

  function ObjectsOf(env: Env, kind: Kind): map<string, SourceObject> {
    if kind.ConfigMapKind? then env.configMaps else env.secrets
  }

  /** The two environments differ at most in the object of that kind and name. */
  ghost predicate DifferAt(env: Env, env': Env, kind: Kind, name: string) {
    && env' == env.(configMaps := env'.configMaps, secrets := env'.secrets)
    && (if kind.ConfigMapKind? then env'.secrets == env.secrets else env'.configMaps == env.configMaps)
    && ObjectsOf(env', kind) - {name} == ObjectsOf(env, kind) - {name}
  }

  /** The event carries the labels of the old or of the new object. */
  ghost predicate Woken(env: Env, sources: seq<BundleSource>, kind: Kind, name: string) {
    && name in ObjectsOf(env, kind)
    && SourceEventWakes(sources, kind, name, ObjectsOf(env, kind)[name].labels)
  }

  lemma UnselectedObject(before: map<string, SourceObject>, after: map<string, SourceObject>,
                         ref: SourceObjectKeySelector, name: string)
    requires before - {name} == after - {name}
    requires name in before ==> !SourceSelectsObject(Some(ref), name, before[name].labels)
    requires name in after ==> !SourceSelectsObject(Some(ref), name, after[name].labels)
    ensures RefTexts(before, ref) == RefTexts(after, ref)
  {
    assert forall n :: n != name ==> (n in before <==> n in before - {name}) && (n in after <==> n in after - {name});
    assert forall n :: n != name && n in before ==> n in after && before[n] == (before - {name})[n] == after[n];
    var a, b := RefNames(before, ref), RefNames(after, ref);
    if a.Some? && b.Some? {
      assert a.value == b.value;
    }
    assert a == b;
    if a.Some? {
      assert name !in a.value;
      hide ObjectTexts;
      assert NamedTexts(before, ref, a.value) == NamedTexts(after, ref, a.value);
    }
  }

  /** If changing, creating or deleting one object changes what a Bundle resolves to, whether it
      resolves or which package it reports, the event wakes that Bundle up, through the old or through
      the new object. */
  lemma NoMissedSourceEvent(env: Env, env': Env, sources: seq<BundleSource>, kind: Kind, name: string)
    requires DifferAt(env, env', kind, name)
    requires Buildable(env, sources) != Buildable(env', sources)
             || Resolved(env, sources) != Resolved(env', sources)
             || DefaultID(env, sources) != DefaultID(env', sources)
    ensures Woken(env, sources, kind, name) || Woken(env', sources, kind, name)
  {
    if !Woken(env, sources, kind, name) && !Woken(env', sources, kind, name) {
      forall s | s in sources
        ensures SourceTexts(env, s) == SourceTexts(env', s)
      {
        SourceUnaffected(env, env', sources, kind, name, s);
      }
      SameTextsSameBuild(env, env', sources);
    }
  }

  lemma SourceUnaffected(env: Env, env': Env, sources: seq<BundleSource>, kind: Kind, name: string,
                         s: BundleSource)
    requires DifferAt(env, env', kind, name) && s in sources
    requires !Woken(env, sources, kind, name) && !Woken(env', sources, kind, name)
    ensures SourceTexts(env, s) == SourceTexts(env', s)
  {
    hide RefTexts, SourceSelectsObject;
    var i :| 0 <= i < |sources| && sources[i] == s;
    var ref := RefOfKind(sources[i], kind);
    if ref.Some? {
      UnselectedObject(ObjectsOf(env, kind), ObjectsOf(env', kind), ref.value, name);
    }
  }

  lemma SameTextsSameBuild(env: Env, env': Env, sources: seq<BundleSource>)
    requires env' == env.(configMaps := env'.configMaps, secrets := env'.secrets)
    requires forall s :: s in sources ==> SourceTexts(env, s) == SourceTexts(env', s)
    ensures Buildable(env, sources) == Buildable(env', sources)
    ensures Resolved(env, sources) == Resolved(env', sources)
    ensures DefaultID(env, sources) == DefaultID(env', sources)
  {
    hide SourceTexts, AcceptsText;
    forall texts
      ensures Contributions(env, texts) == Contributions(env', texts)
    {
      assert forall t :: Contribution(env, t) == Contribution(env', t);
    }
    hide Contributions;
    assert Resolved(env, sources) == Resolved(env', sources);
  }

  // ---------- No missed namespace event ----------

  /** If a change of one namespace changes the desired targets of a Bundle with a valid selector, the
      event wakes that Bundle up, through the old or through the new namespace. */
  lemma NoMissedNamespaceEvent(target: BundleTarget, bundle: string, options: Options,
                               before: map<string, Namespace>, after: map<string, Namespace>, n: string)
    requires SelectorValid(target.namespaceSelector)
    requires before - {n} == after - {n}
    requires Desired(target, bundle, options, before) != Desired(target, bundle, options, after)
    ensures (n in before && NamespaceEventWakes(target, before[n].labels))
            || (n in after && NamespaceEventWakes(target, after[n].labels))
  {
    if !(n in before && NamespaceEventWakes(target, before[n].labels))
       && !(n in after && NamespaceEventWakes(target, after[n].labels)) {
      UnselectedNamespace(target, bundle, options, before, after, n);
    }
  }

  lemma UnselectedNamespace(target: BundleTarget, bundle: string, options: Options,
                            before: map<string, Namespace>, after: map<string, Namespace>, n: string)
    requires before - {n} == after - {n}
    requires n in before ==> !SelectsNamespace(target, before[n].labels)
    requires n in after ==> !SelectsNamespace(target, after[n].labels)
    ensures Desired(target, bundle, options, before) == Desired(target, bundle, options, after)
  {
    assert forall m :: m != n ==> (m in before <==> m in before - {n}) && (m in after <==> m in after - {n});
    assert forall m :: m != n && m in before ==> m in after && before[m] == (before - {n})[m] == after[m];
  }
}
