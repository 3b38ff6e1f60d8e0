/**
 What admission means: the rules of the webhook told reference by reference and target by target, and what they
 are good for.  An admitted reference is woken for exactly the objects that it reads, and no entry of an admitted
 target overwrites another.
 */
module AdmissionMeaning {
  import opened Prelude
  import opened BundleApi
  import Selectors
  import opened Sources
  import opened BuildMeaning
  import opened Targets
  import opened TargetProperties
  import opened Reconciler
  import opened Watches
  import opened Webhook
  import opened HubMeaning

  // ---------- What the webhook demands ----------

  predicate Refers(s: BundleSource, kind: Kind, ref: SourceObjectKeySelector) {
    match kind
    case ConfigMapKind => s.configMap == Some(ref)
    case SecretKind => s.secret == Some(ref)
  }

  /** A name or a selector that can be used, and a key or all keys: one of each and not both. */
  ghost predicate SensibleReference(syntax: Syntax, ref: SourceObjectKeySelector) {
    && (match ref.selector
        case None => ref.name != ""
        case Some(selector) => ref.name == "" && Selectors.Usable(selector) && syntax.selector(selector))
    && (if ref.includeAllKeys == Some(true) then ref.key == "" else ref.key != "")
  }

  /** The reference names the object and the key under which the Bundle writes its certificates. */
  predicate NamesOwnEntry(b: Bundle, kind: Kind, ref: SourceObjectKeySelector) {
    var template := TemplateOf(b.spec.target, kind);
    template.Some? && ref.name == b.meta.name && ref.key == template.value.key
  }

  function KindsOf(s: BundleSource): set<string> {
    (if s.configMap.Some? then {"configMap"} else {}) + (if s.secret.Some? then {"secret"} else {})
    + (if s.inLine != "" then {"inLine"} else {}) + (if s.useDefaultCAs.Some? then {"useDefaultCAs"} else {})
  }

  ghost predicate SensibleMetadata(syntax: Syntax, m: TargetMetadata) {
    && syntax.labels(m.labels) && syntax.annotations(m.annotations)
    && forall k :: k in m.labels || k in m.annotations ==>
         !HasPrefix(k, "trust.cert-manager.io/") && !HasPrefix(k, "trust-manager.io/")
  }

  /** One kind, and references that are sensible and do not name the Bundle's own entry. */
  ghost predicate SensibleSource(syntax: Syntax, b: Bundle, s: BundleSource) {
    |KindsOf(s)| == 1
    && forall kind, ref :: Refers(s, kind, ref) ==> SensibleReference(syntax, ref) && !NamesOwnEntry(b, kind, ref)
  }

  /** Something is asked for, default CAs are mentioned once at most, each source is sensible, every output has a key of
      its own, and metadata and selector are in order. */
  ghost predicate Sensible(syntax: Syntax, b: Bundle) {
    var sources, t := b.spec.sources, b.spec.target;
    && (exists s :: s in sources
                    && (s.configMap.Some? || s.secret.Some? || s.inLine != "" || s.useDefaultCAs == Some(true)))
    && (forall i, j :: 0 <= i < |sources| && 0 <= j < |sources| && i != j ==>
          !(sources[i].useDefaultCAs.Some? && sources[j].useDefaultCAs.Some?))
    && (forall s :: s in sources ==> SensibleSource(syntax, b, s))
    && (forall kind :: TemplateOf(t, kind).Some? ==>
          OwnKeys(TemplateOf(t, kind).value, t) && SensibleMetadata(syntax, TemplateOf(t, kind).value.metadata))
    && (t.JksFormat().Some? && t.Pkcs12Format().Some? ==> t.JksFormat().value.key != t.Pkcs12Format().value.key)
    && (t.namespaceSelector.Some? ==>
          Selectors.Usable(t.namespaceSelector.value) && syntax.selector(t.namespaceSelector.value))
  }

  lemma ReferenceRules(syntax: Syntax, ref: SourceObjectKeySelector)
    ensures AdmittedReference(ref) && SelectorSyntax(syntax, Some(ref)) <==> SensibleReference(syntax, ref)
  {
    if ref.selector.Some? {
      Selectors.SelectorMeans(ref.selector.value, map[]);
    }
    hide Selectors.Usable, Selectors.Satisfies;
  }

  lemma KindsAreCounted(s: BundleSource)
    ensures Types(s) == |KindsOf(s)|
    ensures !Counts(s) <==> KindsOf(s) <= {"useDefaultCAs"} && s.useDefaultCAs != Some(true)
  {
    var a := if s.configMap.Some? then {"configMap"} else {};
    var b := a + if s.secret.Some? then {"secret"} else {};
    var c := b + if s.inLine != "" then {"inLine"} else {};
    assert |b| == |a| + if s.secret.Some? then 1 else 0;
    assert |c| == |b| + if s.inLine != "" then 1 else 0;
    assert |KindsOf(s)| == |c| + if s.useDefaultCAs.Some? then 1 else 0;
    assert s.configMap.Some? ==> "configMap" in KindsOf(s);
    assert s.secret.Some? ==> "secret" in KindsOf(s);
    assert s.inLine != "" ==> "inLine" in KindsOf(s);
  }

  lemma OneKind(s: BundleSource)
    ensures OneType(s) <==> |KindsOf(s)| == 1
  {
    KindsAreCounted(s);
    hide KindsOf;
  }

  lemma SourceRules(syntax: Syntax, b: Bundle, s: BundleSource)
    ensures SensibleSource(syntax, b, s) <==>
            SourceFine(syntax, s) && !ReadsTarget(s.configMap, b.meta.name, b.spec.target.configMap)
            && !ReadsTarget(s.secret, b.meta.name, b.spec.target.secret)
  {
    OneKind(s);
    if s.configMap.Some? {
      ReferenceRules(syntax, s.configMap.value);
      assert Refers(s, ConfigMapKind, s.configMap.value);
    }
    if s.secret.Some? {
      ReferenceRules(syntax, s.secret.value);
      assert Refers(s, SecretKind, s.secret.value);
    }
    hide AdmittedReference, SensibleReference, KindsOf, OneType;
  }

  lemma AllFine(syntax: Syntax, sources: seq<BundleSource>)
    ensures (forall s :: s in sources ==> SourceFine(syntax, s)) <==>
            (forall i :: 0 <= i < |sources| ==> AdmittedSource(sources[i])) && SourceSyntax(syntax, sources)
  {
    hide AdmittedSource, SelectorSyntax;
    assert forall i :: 0 <= i < |sources| ==> sources[i] in sources;
    if forall s :: s in sources ==> SourceFine(syntax, s) {
      forall i | 0 <= i < |sources|
        ensures SourceFine(syntax, sources[i])
      {
      }
    }
  }

  lemma CountsAndDefaults(sources: seq<BundleSource>)
    ensures (exists i :: 0 <= i < |sources| && Counts(sources[i])) <==>
            exists s :: s in sources
                        && (s.configMap.Some? || s.secret.Some? || s.inLine != "" || s.useDefaultCAs == Some(true))
    ensures (forall i, j :: 0 <= i < j < |sources| ==> sources[i].useDefaultCAs.None? || sources[j].useDefaultCAs.None?)
            <==>
            forall i, j :: 0 <= i < |sources| && 0 <= j < |sources| && i != j ==>
              !(sources[i].useDefaultCAs.Some? && sources[j].useDefaultCAs.Some?)
  {
  }

  lemma SourcesRules(syntax: Syntax, b: Bundle)
    ensures var sources := b.spec.sources;
            AdmittedSources(sources) && SourceSyntax(syntax, sources) && AvoidsOwnTarget(b) <==>
            && (exists s :: s in sources
                    && (s.configMap.Some? || s.secret.Some? || s.inLine != "" || s.useDefaultCAs == Some(true)))
            && (forall i, j :: 0 <= i < |sources| && 0 <= j < |sources| && i != j ==>
                  !(sources[i].useDefaultCAs.Some? && sources[j].useDefaultCAs.Some?))
            && (forall s :: s in sources ==> SensibleSource(syntax, b, s))
  {
    var sources := b.spec.sources;
    AllFine(syntax, sources);
    CountsAndDefaults(sources);
    forall s | s in sources
      ensures SensibleSource(syntax, b, s) <==>
              SourceFine(syntax, s) && !ReadsTarget(s.configMap, b.meta.name, b.spec.target.configMap)
              && !ReadsTarget(s.secret, b.meta.name, b.spec.target.secret)
    {
      SourceRules(syntax, b, s);
    }
    hide SensibleSource, ReadsTarget, SourceFine, AdmittedSource, SourceSyntax, Counts;
  }

  lemma MetadataRules(syntax: Syntax, m: TargetMetadata)
    ensures AdmittedMetadata(syntax, m) <==> SensibleMetadata(syntax, m)
  {
    hide HasPrefix;
  }

  lemma TargetRules(syntax: Syntax, t: BundleTarget)
    ensures AdmittedTarget(syntax, t) <==>
            && (forall kind :: TemplateOf(t, kind).Some? ==>
                  OwnKeys(TemplateOf(t, kind).value, t)
                  && SensibleMetadata(syntax, TemplateOf(t, kind).value.metadata))
            && (t.JksFormat().Some? && t.Pkcs12Format().Some? ==>
                  t.JksFormat().value.key != t.Pkcs12Format().value.key)
            && (t.namespaceSelector.Some? ==>
                  Selectors.Usable(t.namespaceSelector.value) && syntax.selector(t.namespaceSelector.value))
  {
    if t.namespaceSelector.Some? {
      Selectors.SelectorMeans(t.namespaceSelector.value, map[]);
    }
    if t.configMap.Some? {
      MetadataRules(syntax, t.configMap.value.metadata);
      assert TemplateOf(t, ConfigMapKind) == t.configMap;
    }
    if t.secret.Some? {
      MetadataRules(syntax, t.secret.value.metadata);
      assert TemplateOf(t, SecretKind) == t.secret;
    }
    hide Selectors.Usable, Selectors.Satisfies, AdmittedMetadata, SensibleMetadata;
  }

  /** The webhook admits exactly the sensible Bundles. */
  lemma AdmitsExactly(syntax: Syntax, b: Bundle)
    ensures Admits(syntax, b) <==> Sensible(syntax, b)
  {
    SourcesRules(syntax, b);
    TargetRules(syntax, b.spec.target);
    hide AdmittedSources, SourceSyntax, AvoidsOwnTarget, AdmittedTarget, OwnKeys, SensibleMetadata;
    hide SensibleSource, Selectors.Usable;
  }

  // ---------- What is reported ----------

  function DefaultSources(sources: seq<BundleSource>): set<int> {
    set i | 0 <= i < |sources| && sources[i].useDefaultCAs.Some?
  }

  predicate AboutReference(v: Violation) {
    v.NoNameAndNoSelector? || v.NameAndSelector? || v.NoKey? || v.KeyAndAllKeys? || v.InvalidSelector?
  }

  /** The reference breaks the rule of the violation. */
  ghost predicate BreaksRule(syntax: Syntax, ref: SourceObjectKeySelector, v: Violation) {
    match v
    case NoNameAndNoSelector(_, _) => ref.name == "" && ref.selector == None
    case NameAndSelector(_, _) => ref.name != "" && ref.selector != None
    case NoKey(_, _) => RequestOf(ref).wish == NoEntry
    case KeyAndAllKeys(_, _) => ref.key != "" && ref.includeAllKeys == Some(true)
    case InvalidSelector(_, _) =>
      ref.selector.Some? && !(Selectors.Usable(ref.selector.value) && syntax.selector(ref.selector.value))
    case _ => false
  }

  /** The rule of the violation is broken at the place that it names. */
  ghost predicate IsBroken(syntax: Syntax, b: Bundle, v: Violation) {
    var sources, t := b.spec.sources, b.spec.target;
    if AboutReference(v) then
      v.source < |sources| && exists ref :: Refers(sources[v.source], v.kind, ref) && BreaksRule(syntax, ref, v)
    else match v
    case NotOneType(i, count) => i < |sources| && count == |KindsOf(sources[i])| != 1
    case NoSource => forall s :: s in sources ==> KindsOf(s) <= {"useDefaultCAs"} && s.useDefaultCAs != Some(true)
    case ManyDefaults(count) => count == |DefaultSources(sources)| > 1
    case SourceIsTarget(i, kind) =>
      i < |sources| && exists ref :: Refers(sources[i], kind, ref) && NamesOwnEntry(b, kind, ref)
    case DuplicateJksKey =>
      t.JksFormat().Some?
      && exists kind :: TemplateOf(t, kind).Some? && TemplateOf(t, kind).value.key == t.JksFormat().value.key
    case DuplicatePkcs12Key =>
      t.Pkcs12Format().Some?
      && ((t.JksFormat().Some? && t.JksFormat().value.key == t.Pkcs12Format().value.key)
          || exists kind :: TemplateOf(t, kind).Some? && TemplateOf(t, kind).value.key == t.Pkcs12Format().value.key)
    case ReservedAnnotation(kind, key) =>
      TemplateOf(t, kind).Some? && key in TemplateOf(t, kind).value.metadata.annotations
      && (HasPrefix(key, "trust.cert-manager.io/") || HasPrefix(key, "trust-manager.io/"))
    case ReservedLabel(kind, key) =>
      TemplateOf(t, kind).Some? && key in TemplateOf(t, kind).value.metadata.labels
      && (HasPrefix(key, "trust.cert-manager.io/") || HasPrefix(key, "trust-manager.io/"))
    case InvalidAnnotations(kind) =>
      TemplateOf(t, kind).Some? && !syntax.annotations(TemplateOf(t, kind).value.metadata.annotations)
    case InvalidLabels(kind) =>
      TemplateOf(t, kind).Some? && !syntax.labels(TemplateOf(t, kind).value.metadata.labels)
    case InvalidNamespaceSelector =>
      t.namespaceSelector.Some?
      && !(Selectors.Usable(t.namespaceSelector.value) && syntax.selector(t.namespaceSelector.value))
    case _ => false
  }

  lemma {:induction false} DefaultsAreCounted(sources: seq<BundleSource>)
    ensures Defaults(sources) == |DefaultSources(sources)|
  {
    if sources != [] {
      var n := |sources| - 1;
      DefaultsAreCounted(sources[..n]);
      var before := DefaultSources(sources[..n]);
      assert DefaultSources(sources) == before + if sources[n].useDefaultCAs.Some? then {n} else {};
    }
  }

  predicate AboutSource(v: Violation) {
    AboutReference(v) || v.NotOneType?
  }

  lemma SourceReports(syntax: Syntax, b: Bundle, v: Violation)
    requires AboutSource(v)
    ensures Violates(syntax, b, v) <==>
            v.source < |b.spec.sources| && SourceViolates(syntax, v.source, b.spec.sources[v.source], v)
  {
    var sources := b.spec.sources;
    forall i | 0 <= i < |sources|
      ensures SourceViolates(syntax, i, sources[i], v) ==> v.source == i
    {
    }
    hide SourceViolates, Defaults, MetadataViolates;
  }

  lemma RuleBroken(syntax: Syntax, ref: SourceObjectKeySelector, v: Violation)
    requires AboutReference(v)
    ensures ReferenceViolates(syntax, v.source, v.kind, ref, v) <==> BreaksRule(syntax, ref, v)
    ensures forall kind :: kind != v.kind ==> !ReferenceViolates(syntax, v.source, kind, ref, v)
  {
    if ref.selector.Some? {
      Selectors.SelectorMeans(ref.selector.value, map[]);
    }
    hide Selectors.Usable, Selectors.Satisfies;
  }

  lemma ReferenceReports(syntax: Syntax, b: Bundle, v: Violation)
    requires AboutReference(v)
    ensures Violates(syntax, b, v) <==> IsBroken(syntax, b, v)
  {
    SourceReports(syntax, b, v);
    hide Violates;
    if v.source < |b.spec.sources| {
      var s := b.spec.sources[v.source];
      if s.configMap.Some? {
        RuleBroken(syntax, s.configMap.value, v);
        assert Refers(s, ConfigMapKind, s.configMap.value);
      }
      if s.secret.Some? {
        RuleBroken(syntax, s.secret.value, v);
        assert Refers(s, SecretKind, s.secret.value);
      }
      hide ReferenceViolates, BreaksRule, Types, KindsOf;
    }
  }

  lemma TypeReports(syntax: Syntax, b: Bundle, v: Violation)
    requires v.NotOneType?
    ensures Violates(syntax, b, v) <==> IsBroken(syntax, b, v)
  {
    hide Violates, KindsOf, Types, SourceViolates;
    SourceReports(syntax, b, v);
    if v.source < |b.spec.sources| {
      TypeRule(syntax, b.spec.sources[v.source], v);
      KindsAreCounted(b.spec.sources[v.source]);
    }
  }

  lemma TypeRule(syntax: Syntax, s: BundleSource, v: Violation)
    requires v.NotOneType?
    ensures SourceViolates(syntax, v.source, s, v) <==> v.count == Types(s) != 1
  {
    hide Types;
  }

  lemma CountReports(syntax: Syntax, b: Bundle, v: Violation)
    requires v.NoSource? || v.ManyDefaults?
    ensures Violates(syntax, b, v) <==>
            if v.NoSource? then forall s :: s in b.spec.sources ==> !Counts(s)
            else v.count == Defaults(b.spec.sources) > 1
  {
    var sources := b.spec.sources;
    assert forall i :: 0 <= i < |sources| ==> !SourceViolates(syntax, i, sources[i], v);
    assert forall i :: 0 <= i < |sources| ==> sources[i] in sources;
    hide SourceViolates, Defaults, MetadataViolates, Counts;
  }

  lemma NoSourceReports(syntax: Syntax, b: Bundle)
    ensures Violates(syntax, b, NoSource) <==> IsBroken(syntax, b, NoSource)
  {
    CountReports(syntax, b, NoSource);
    hide Violates, Counts, KindsOf;
    forall s
      ensures !Counts(s) <==> KindsOf(s) <= {"useDefaultCAs"} && s.useDefaultCAs != Some(true)
    {
      KindsAreCounted(s);
    }
  }

  lemma DefaultReports(syntax: Syntax, b: Bundle, v: Violation)
    requires v.ManyDefaults?
    ensures Violates(syntax, b, v) <==> IsBroken(syntax, b, v)
  {
    CountReports(syntax, b, v);
    DefaultsAreCounted(b.spec.sources);
    hide Violates, DefaultSources, Defaults;
  }

  lemma NotAboutSources(syntax: Syntax, b: Bundle, v: Violation)
    requires !AboutSource(v) && !v.NoSource? && !v.ManyDefaults?
    ensures Violates(syntax, b, v) <==> OwnTargetViolates(b, v) || TargetViolates(syntax, b.spec.target, v)
  {
    var sources := b.spec.sources;
    assert forall i :: 0 <= i < |sources| ==> !SourceViolates(syntax, i, sources[i], v);
    hide SourceViolates, Defaults, OwnTargetViolates, TargetViolates;
  }

  lemma OwnTargetReports(syntax: Syntax, b: Bundle, v: Violation)
    requires v.SourceIsTarget?
    ensures OwnTargetViolates(b, v) || TargetViolates(syntax, b.spec.target, v) <==> IsBroken(syntax, b, v)
  {
    if v.source < |b.spec.sources| {
      var s := b.spec.sources[v.source];
      assert s.configMap.Some? ==> Refers(s, ConfigMapKind, s.configMap.value);
      assert s.secret.Some? ==> Refers(s, SecretKind, s.secret.value);
    }
  }

  lemma FormatReports(syntax: Syntax, b: Bundle, v: Violation)
    requires v.DuplicateJksKey? || v.DuplicatePkcs12Key?
    ensures OwnTargetViolates(b, v) || TargetViolates(syntax, b.spec.target, v) <==> IsBroken(syntax, b, v)
  {
    var t := b.spec.target;
    assert TemplateOf(t, ConfigMapKind) == t.configMap && TemplateOf(t, SecretKind) == t.secret;
    assert forall key :: key in TemplateKeys(t) <==>
             exists kind :: TemplateOf(t, kind).Some? && TemplateOf(t, kind).value.key == key;
    assert forall kind, m :: !MetadataViolates(syntax, kind, m, v);
    hide TemplateKeys, TemplateOf, MetadataViolates, AdmittedSelector;
  }

  lemma MetadataReports(syntax: Syntax, b: Bundle, v: Violation)
    requires v.ReservedAnnotation? || v.ReservedLabel? || v.InvalidAnnotations? || v.InvalidLabels?
    ensures OwnTargetViolates(b, v) || TargetViolates(syntax, b.spec.target, v) <==> IsBroken(syntax, b, v)
  {
    hide HasPrefix;
  }

  lemma SelectorReports(syntax: Syntax, b: Bundle)
    ensures var v := InvalidNamespaceSelector;
            OwnTargetViolates(b, v) || TargetViolates(syntax, b.spec.target, v) <==> IsBroken(syntax, b, v)
  {
    var t := b.spec.target;
    if t.namespaceSelector.Some? {
      Selectors.SelectorMeans(t.namespaceSelector.value, map[]);
    }
    hide Selectors.Usable, Selectors.Satisfies;
  }

  /** The webhook reports a violation if and only if the rule is broken at the place that the violation names. */
  lemma ReportsExactly(syntax: Syntax, b: Bundle, v: Violation)
    ensures Violates(syntax, b, v) <==> IsBroken(syntax, b, v)
  {
    hide Violates, IsBroken, OwnTargetViolates, TargetViolates;
    if v.NoSource? {
      NoSourceReports(syntax, b);
    } else if v.ManyDefaults? {
      DefaultReports(syntax, b, v);
    } else if AboutReference(v) {
      ReferenceReports(syntax, b, v);
    } else if v.NotOneType? {
      TypeReports(syntax, b, v);
    } else {
      NotAboutSources(syntax, b, v);
      match v
      case SourceIsTarget(_, _) => OwnTargetReports(syntax, b, v);
      case DuplicateJksKey => FormatReports(syntax, b, v);
      case DuplicatePkcs12Key => FormatReports(syntax, b, v);
      case InvalidNamespaceSelector => SelectorReports(syntax, b);
      case _ => MetadataReports(syntax, b, v);
    }
  }

  // ---------- What the rules are good for ----------

  /** An event on an object wakes a Bundle with an admitted reference if and only if the reference reads the object. */
  lemma WakesExactly(ref: SourceObjectKeySelector, objects: map<string, SourceObject>, n: string)
    requires AdmittedReference(ref) && n in objects && n != ""
    ensures SourceSelectsObject(Some(ref), n, objects[n].labels) <==> Finds(objects, RequestOf(ref), n)
  {
    if ref.selector.Some? {
      Selectors.SelectorMeans(ref.selector.value, objects[n].labels);
    }
    hide Selectors.Usable, Selectors.Satisfies;
  }

  /** An event on a namespace wakes a Bundle iff its labels satisfy a usable selector, or there is none. */
  lemma NamespaceWakesExactly(target: BundleTarget, labels: Labels)
    ensures NamespaceEventWakes(target, labels) <==>
            (target.namespaceSelector.Some? ==>
               Selectors.Usable(target.namespaceSelector.value)
               && Selectors.Satisfies(labels, target.namespaceSelector.value))
  {
    if target.namespaceSelector.Some? {
      Selectors.SelectorMeans(target.namespaceSelector.value, labels);
    }
    hide Selectors.Usable, Selectors.Satisfies;
  }

  /** Sources of which none asks for anything never build. */
  lemma NothingAskedNothingBuilt(env: Env, sources: seq<BundleSource>)
    requires forall s :: s in sources ==> !Counts(s)
    ensures !Buildable(env, sources)
  {
    BuildsExactly(env, sources);
    hide Buildable, Fails, StandsIn;
    assert forall s, t :: s in sources ==> !Picks(env, s, t);
  }

  /** No format repeats a key if and only if, whatever the encoders give, each entry of a rendered target is the one
      that is meant to be under its key; provided the target is ever rendered. */
  lemma OwnKeysExactly(template: TargetTemplate, t: BundleTarget)
    requires !NeverRenders(t)
    ensures OwnKeys(template, t) <==>
            forall enc, pem, data :: Render(enc, template, t, pem) == Some(data) ==>
                                     Rendered(enc, template, t, pem, data)
  {
    if OwnKeys(template, t) {
      forall enc, pem, data | Render(enc, template, t, pem) == Some(data)
        ensures Rendered(enc, template, t, pem, data)
      {
        RenderedExactly(enc, template, t, pem, data);
      }
    } else {
      var enc := Marking(false);
      MarkingRenders(template, t, false);
      var data := Render(enc, template, t, "").value;
      hide Render;
      if t.JksFormat().Some? && t.Pkcs12Format().Some? {
        DistinctMarks(t.JksFormat().value.password, t.Pkcs12Format().value.password.value);
      }
      assert !Rendered(enc, template, t, "", data);
    }
  }

  lemma DistinctMarks(a: string, b: string)
    ensures "J" + a != "P" + b
  {
    assert ("J" + a)[0] != ("P" + b)[0];
  }
}
