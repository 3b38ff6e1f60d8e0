/**
 The validating webhook: which violations it reports for a Bundle, and which Bundles it admits.  The syntax
 of labels and annotations is a parameter.
 */
module Webhook {
  import opened Prelude
  import opened BundleApi
  import opened Targets

  const RESERVED_PREFIXES := ["trust.cert-manager.io/", "trust-manager.io/"]

  /** Whether the API machinery accepts the keys and values of labels, annotations or a selector. */
  datatype Syntax = Syntax(labels: map<string, string> -> bool, annotations: map<string, string> -> bool,
                           selector: LabelSelector -> bool)

  datatype Violation =
    | NoNameAndNoSelector(source: nat, kind: Kind)
    | NameAndSelector(source: nat, kind: Kind)
    | NoKey(source: nat, kind: Kind)
    | KeyAndAllKeys(source: nat, kind: Kind)
    | InvalidSelector(source: nat, kind: Kind)
    | NotOneType(source: nat, count: nat)
    | NoSource
    | ManyDefaults(count: nat)
    | SourceIsTarget(source: nat, kind: Kind)
    | DuplicateJksKey
    | DuplicatePkcs12Key
    | ReservedAnnotation(kind: Kind, key: string)
    | ReservedLabel(kind: Kind, key: string)
    | InvalidAnnotations(kind: Kind)
    | InvalidLabels(kind: Kind)
    | InvalidNamespaceSelector

  // ---------- What is admitted ----------

  /** Every operator has the values it needs, and the syntax is right. */
  predicate AdmittedSelector(syntax: Syntax, selector: Option<LabelSelector>) {
    SelectorValid(selector) && (selector.Some? ==> syntax.selector(selector.value))
  }

  /** A name or a selector, a key or all keys: one of each, and a selector that can be used. */
  predicate AdmittedReference(ref: SourceObjectKeySelector) {
    && (ref.name != "" <==> ref.selector.None?)
    && (ref.key != "" <==> !ref.AllKeys())
    && SelectorValid(ref.selector)
  }

  predicate OneType(s: BundleSource) {
    || (s.configMap.Some? && s.secret.None? && s.inLine == "" && s.useDefaultCAs.None?)
    || (s.configMap.None? && s.secret.Some? && s.inLine == "" && s.useDefaultCAs.None?)
    || (s.configMap.None? && s.secret.None? && s.inLine != "" && s.useDefaultCAs.None?)
    || (s.configMap.None? && s.secret.None? && s.inLine == "" && s.useDefaultCAs.Some?)
  }

  predicate AdmittedSource(s: BundleSource) {
    && (s.configMap.Some? ==> AdmittedReference(s.configMap.value))
    && (s.secret.Some? ==> AdmittedReference(s.secret.value))
    && OneType(s)
  }

  /** A source that asks for something: a default-CA source with `false` does not. */
  predicate Counts(s: BundleSource) {
    s.configMap.Some? || s.secret.Some? || s.inLine != "" || s.useDefaultCAs == Some(true)
  }

  /** The object with the bundle's name and the target's key: the bundle's own target. */
  predicate ReadsTarget(ref: Option<SourceObjectKeySelector>, name: string, target: Option<TargetTemplate>) {
    target.Some? && ref.Some? && ref.value.name == name && ref.value.key == target.value.key
  }

  function TemplateKeys(t: BundleTarget): set<string> {
    (if t.configMap.Some? then {t.configMap.value.key} else {})
    + (if t.secret.Some? then {t.secret.value.key} else {})
  }

  predicate DistinctKeys(t: BundleTarget) {
    && (t.JksFormat().Some? ==> t.JksFormat().value.key !in TemplateKeys(t))
    && (t.Pkcs12Format().Some? ==>
          t.Pkcs12Format().value.key !in TemplateKeys(t)
          && (t.JksFormat().Some? ==> t.JksFormat().value.key != t.Pkcs12Format().value.key))
  }

  predicate Reserved(key: string) {
    HasPrefix(key, RESERVED_PREFIXES[0]) || HasPrefix(key, RESERVED_PREFIXES[1])
  }

  predicate AdmittedKeys(m: map<string, string>) {
    forall k :: k in m ==> !Reserved(k)
  }

  predicate AdmittedMetadata(syntax: Syntax, m: TargetMetadata) {
    && AdmittedKeys(m.annotations) && syntax.annotations(m.annotations)
    && AdmittedKeys(m.labels) && syntax.labels(m.labels)
  }

  predicate AdmittedSources(sources: seq<BundleSource>) {
    && (forall i :: 0 <= i < |sources| ==> AdmittedSource(sources[i]))
    && (exists i :: 0 <= i < |sources| && Counts(sources[i]))
    && (forall i, j :: 0 <= i < j < |sources| ==> sources[i].useDefaultCAs.None? || sources[j].useDefaultCAs.None?)
  }

  predicate SelectorSyntax(syntax: Syntax, ref: Option<SourceObjectKeySelector>) {
    ref.Some? && ref.value.selector.Some? ==> syntax.selector(ref.value.selector.value)
  }

  predicate SourceSyntax(syntax: Syntax, sources: seq<BundleSource>) {
    forall i :: 0 <= i < |sources| ==>
      SelectorSyntax(syntax, sources[i].configMap) && SelectorSyntax(syntax, sources[i].secret)
  }

  predicate AdmittedTarget(syntax: Syntax, t: BundleTarget) {
    && DistinctKeys(t)
    && (t.configMap.Some? ==> AdmittedMetadata(syntax, t.configMap.value.metadata))
    && (t.secret.Some? ==> AdmittedMetadata(syntax, t.secret.value.metadata))
    && AdmittedSelector(syntax, t.namespaceSelector)
  }

  predicate AvoidsOwnTarget(b: Bundle) {
    forall s :: s in b.spec.sources ==>
      !ReadsTarget(s.configMap, b.meta.name, b.spec.target.configMap)
      && !ReadsTarget(s.secret, b.meta.name, b.spec.target.secret)
  }

  predicate Admits(syntax: Syntax, b: Bundle) {
    && AdmittedSources(b.spec.sources) && SourceSyntax(syntax, b.spec.sources)
    && AdmittedTarget(syntax, b.spec.target) && AvoidsOwnTarget(b)
  }

  // ---------- What is reported ----------

  predicate ReferenceViolates(syntax: Syntax, i: nat, kind: Kind, ref: SourceObjectKeySelector, v: Violation) {
    || (v == NoNameAndNoSelector(i, kind) && ref.name == "" && ref.selector.None?)
    || (v == NameAndSelector(i, kind) && ref.name != "" && ref.selector.Some?)
    || (v == NoKey(i, kind) && ref.key == "" && !ref.AllKeys())
    || (v == KeyAndAllKeys(i, kind) && ref.key != "" && ref.AllKeys())
    || (v == InvalidSelector(i, kind) && !AdmittedSelector(syntax, ref.selector))
  }

  /** How many types a source has. */
  function Types(s: BundleSource): nat {
    (if s.configMap.Some? then 1 else 0) + (if s.secret.Some? then 1 else 0)
    + (if s.inLine != "" then 1 else 0) + (if s.useDefaultCAs.Some? then 1 else 0)
  }

  predicate SourceViolates(syntax: Syntax, i: nat, s: BundleSource, v: Violation) {
    || (s.configMap.Some? && ReferenceViolates(syntax, i, ConfigMapKind, s.configMap.value, v))
    || (s.secret.Some? && ReferenceViolates(syntax, i, SecretKind, s.secret.value, v))
    || (v == NotOneType(i, Types(s)) && Types(s) != 1)
  }

  /** How many sources mention default CAs. */
  function Defaults(sources: seq<BundleSource>): nat {
    if sources == [] then 0
    else Defaults(sources[..|sources| - 1]) + if sources[|sources| - 1].useDefaultCAs.Some? then 1 else 0
  }

  predicate SourcesViolate(syntax: Syntax, sources: seq<BundleSource>, v: Violation) {
    || (exists i :: 0 <= i < |sources| && SourceViolates(syntax, i, sources[i], v))
    || (v == NoSource && forall i :: 0 <= i < |sources| ==> !Counts(sources[i]))
    || (v == ManyDefaults(Defaults(sources)) && Defaults(sources) > 1)
  }

  predicate OwnTargetViolates(b: Bundle, v: Violation) {
    v.SourceIsTarget? && v.source < |b.spec.sources|
    && if v.kind.ConfigMapKind?
       then ReadsTarget(b.spec.sources[v.source].configMap, b.meta.name, b.spec.target.configMap)
       else ReadsTarget(b.spec.sources[v.source].secret, b.meta.name, b.spec.target.secret)
  }

  predicate FormatsViolate(t: BundleTarget, v: Violation) {
    || (v == DuplicateJksKey && t.JksFormat().Some? && t.JksFormat().value.key in TemplateKeys(t))
    || (v == DuplicatePkcs12Key && t.Pkcs12Format().Some?
        && (t.Pkcs12Format().value.key in TemplateKeys(t)
            || (t.JksFormat().Some? && t.JksFormat().value.key == t.Pkcs12Format().value.key)))
  }

  predicate MetadataViolates(syntax: Syntax, kind: Kind, m: TargetMetadata, v: Violation) {
    || (v.ReservedAnnotation? && v.kind == kind && v.key in m.annotations && Reserved(v.key))
    || (v == InvalidAnnotations(kind) && !syntax.annotations(m.annotations))
    || (v.ReservedLabel? && v.kind == kind && v.key in m.labels && Reserved(v.key))
    || (v == InvalidLabels(kind) && !syntax.labels(m.labels))
  }

  predicate TargetViolates(syntax: Syntax, t: BundleTarget, v: Violation) {
    || FormatsViolate(t, v)
    || (t.configMap.Some? && MetadataViolates(syntax, ConfigMapKind, t.configMap.value.metadata, v))
    || (t.secret.Some? && MetadataViolates(syntax, SecretKind, t.secret.value.metadata, v))
    || (v == InvalidNamespaceSelector && !AdmittedSelector(syntax, t.namespaceSelector))
  }

  predicate Violates(syntax: Syntax, b: Bundle, v: Violation) {
    SourcesViolate(syntax, b.spec.sources, v) || OwnTargetViolates(b, v) || TargetViolates(syntax, b.spec.target, v)
  }

  // ---------- No violation is admission ----------

  lemma ReferenceAdmitted(syntax: Syntax, i: nat, kind: Kind, ref: SourceObjectKeySelector)
    ensures (exists v :: ReferenceViolates(syntax, i, kind, ref, v)) <==>
            !(AdmittedReference(ref) && SelectorSyntax(syntax, Some(ref)))
  {
    var all := [NoNameAndNoSelector(i, kind), NameAndSelector(i, kind), NoKey(i, kind), KeyAndAllKeys(i, kind),
                InvalidSelector(i, kind)];
    if !(AdmittedReference(ref) && SelectorSyntax(syntax, Some(ref))) {
      assert exists j :: 0 <= j < 5 && ReferenceViolates(syntax, i, kind, ref, all[j]) by {
        assert ReferenceViolates(syntax, i, kind, ref, all[0]) || ReferenceViolates(syntax, i, kind, ref, all[1])
               || ReferenceViolates(syntax, i, kind, ref, all[2]) || ReferenceViolates(syntax, i, kind, ref, all[3])
               || ReferenceViolates(syntax, i, kind, ref, all[4]);
      }
    }
  }

  predicate SourceFine(syntax: Syntax, s: BundleSource) {
    AdmittedSource(s) && SelectorSyntax(syntax, s.configMap) && SelectorSyntax(syntax, s.secret)
  }

  lemma SourceAdmitted(syntax: Syntax, i: nat, s: BundleSource)
    ensures (exists v :: SourceViolates(syntax, i, s, v)) <==> !SourceFine(syntax, s)
  {
    hide ReferenceViolates, AdmittedReference;
    assert OneType(s) <==> Types(s) == 1;
    if s.configMap.Some? {
      ReferenceAdmitted(syntax, i, ConfigMapKind, s.configMap.value);
      if v :| ReferenceViolates(syntax, i, ConfigMapKind, s.configMap.value, v) {
        assert SourceViolates(syntax, i, s, v);
      }
    }
    if s.secret.Some? {
      ReferenceAdmitted(syntax, i, SecretKind, s.secret.value);
      if v :| ReferenceViolates(syntax, i, SecretKind, s.secret.value, v) {
        assert SourceViolates(syntax, i, s, v);
      }
    }
    if Types(s) != 1 {
      assert SourceViolates(syntax, i, s, NotOneType(i, Types(s)));
    }
  }

  lemma {:induction false} DefaultsCounted(sources: seq<BundleSource>)
    ensures Defaults(sources) == 0 <==> forall i :: 0 <= i < |sources| ==> sources[i].useDefaultCAs.None?
    ensures Defaults(sources) <= 1 <==>
            forall i, j :: 0 <= i < j < |sources| ==> sources[i].useDefaultCAs.None? || sources[j].useDefaultCAs.None?
  {
    if sources != [] {
      var n := |sources| - 1;
      var front := sources[..n];
      DefaultsCounted(front);
      assert forall i :: 0 <= i < n ==> front[i] == sources[i];
    }
  }

  lemma SourcesAdmitted(syntax: Syntax, sources: seq<BundleSource>)
    ensures (exists v :: SourcesViolate(syntax, sources, v)) <==>
            !(AdmittedSources(sources) && SourceSyntax(syntax, sources))
  {
    hide SourceViolates, Counts, AdmittedSource, SelectorSyntax;
    DefaultsCounted(sources);
    forall i | 0 <= i < |sources|
      ensures (exists v :: SourceViolates(syntax, i, sources[i], v)) <==> !SourceFine(syntax, sources[i])
    {
      SourceAdmitted(syntax, i, sources[i]);
    }
    if i: int :| 0 <= i < |sources| && !SourceFine(syntax, sources[i]) {
      var v :| SourceViolates(syntax, i, sources[i], v);
      assert SourcesViolate(syntax, sources, v);
    }
    assert SourcesViolate(syntax, sources, NoSource) || exists i :: 0 <= i < |sources| && Counts(sources[i]);
    assert SourcesViolate(syntax, sources, ManyDefaults(Defaults(sources))) || Defaults(sources) <= 1;
  }

  lemma OwnTargetAdmitted(b: Bundle)
    ensures (exists v :: OwnTargetViolates(b, v)) <==> !AvoidsOwnTarget(b)
  {
    hide ReadsTarget;
    forall i | 0 <= i < |b.spec.sources|
      ensures b.spec.sources[i] in b.spec.sources
    {
    }
    if !AvoidsOwnTarget(b) {
      var s :| s in b.spec.sources && (ReadsTarget(s.configMap, b.meta.name, b.spec.target.configMap)
                                       || ReadsTarget(s.secret, b.meta.name, b.spec.target.secret));
      var i :| 0 <= i < |b.spec.sources| && b.spec.sources[i] == s;
      assert OwnTargetViolates(b, SourceIsTarget(i, ConfigMapKind))
             || OwnTargetViolates(b, SourceIsTarget(i, SecretKind));
    }
  }

  lemma MetadataAdmitted(syntax: Syntax, kind: Kind, m: TargetMetadata)
    ensures (exists v :: MetadataViolates(syntax, kind, m, v)) <==> !AdmittedMetadata(syntax, m)
  {
    hide Reserved;
    assert MetadataViolates(syntax, kind, m, InvalidAnnotations(kind)) || syntax.annotations(m.annotations);
    assert MetadataViolates(syntax, kind, m, InvalidLabels(kind)) || syntax.labels(m.labels);
    if k :| k in m.annotations && Reserved(k) {
      assert MetadataViolates(syntax, kind, m, ReservedAnnotation(kind, k));
    }
    if k :| k in m.labels && Reserved(k) {
      assert MetadataViolates(syntax, kind, m, ReservedLabel(kind, k));
    }
  }

  lemma TargetAdmitted(syntax: Syntax, t: BundleTarget)
    ensures (exists v :: TargetViolates(syntax, t, v)) <==> !AdmittedTarget(syntax, t)
  {
    hide MetadataViolates, AdmittedMetadata, AdmittedSelector;
    assert TargetViolates(syntax, t, DuplicateJksKey) || !FormatsViolate(t, DuplicateJksKey);
    assert TargetViolates(syntax, t, DuplicatePkcs12Key) || !FormatsViolate(t, DuplicatePkcs12Key);
    assert TargetViolates(syntax, t, InvalidNamespaceSelector) || AdmittedSelector(syntax, t.namespaceSelector);
    if t.configMap.Some? {
      MetadataAdmitted(syntax, ConfigMapKind, t.configMap.value.metadata);
      if v :| MetadataViolates(syntax, ConfigMapKind, t.configMap.value.metadata, v) {
        assert TargetViolates(syntax, t, v);
      }
    }
    if t.secret.Some? {
      MetadataAdmitted(syntax, SecretKind, t.secret.value.metadata);
      if v :| MetadataViolates(syntax, SecretKind, t.secret.value.metadata, v) {
        assert TargetViolates(syntax, t, v);
      }
    }
  }

  /** A Bundle without violations is admitted, and conversely. */
  lemma NoViolationIsAdmission(syntax: Syntax, b: Bundle)
    ensures (exists v :: Violates(syntax, b, v)) <==> !Admits(syntax, b)
  {
    SourcesAdmitted(syntax, b.spec.sources);
    OwnTargetAdmitted(b);
    TargetAdmitted(syntax, b.spec.target);
    hide SourcesViolate, OwnTargetViolates, TargetViolates;
    hide AdmittedSources, SourceSyntax, AdmittedTarget, AvoidsOwnTarget;
    if v :| SourcesViolate(syntax, b.spec.sources, v) {
      assert Violates(syntax, b, v);
    }
    if v :| OwnTargetViolates(b, v) {
      assert Violates(syntax, b, v);
    }
    if v :| TargetViolates(syntax, b.spec.target, v) {
      assert Violates(syntax, b, v);
    }
  }

  // ---------- Validation ----------

  method ValidateReference(syntax: Syntax, i: nat, kind: Kind, ref: SourceObjectKeySelector)
    returns (errors: seq<Violation>)
    ensures forall v :: v in errors <==> ReferenceViolates(syntax, i, kind, ref, v)
  {
    errors := [];
    if |ref.name| == 0 && ref.selector.None? {
      errors := errors + [NoNameAndNoSelector(i, kind)];
    }
    if |ref.name| > 0 && ref.selector.Some? {
      errors := errors + [NameAndSelector(i, kind)];
    }
    if |ref.key| == 0 && !ref.AllKeys() {
      errors := errors + [NoKey(i, kind)];
    }
    if |ref.key| > 0 && ref.AllKeys() {
      errors := errors + [KeyAndAllKeys(i, kind)];
    }
    if !AdmittedSelector(syntax, ref.selector) {
      errors := errors + [InvalidSelector(i, kind)];
    }
  }

  /** One source: its violations, and what it adds to the two counts. */
  method ValidateSource(syntax: Syntax, i: nat, s: BundleSource)
    returns (errors: seq<Violation>, sourceCount: nat, defaultCAsCount: nat)
    ensures forall v :: v in errors <==> SourceViolates(syntax, i, s, v)
    ensures sourceCount > 0 <==> Counts(s)
    ensures defaultCAsCount == if s.useDefaultCAs.Some? then 1 else 0
  {
    hide ReferenceViolates;
    errors, sourceCount, defaultCAsCount := [], 0, 0;
    var unionCount := 0;
    if s.configMap.Some? {
      sourceCount, unionCount := sourceCount + 1, unionCount + 1;
      var more := ValidateReference(syntax, i, ConfigMapKind, s.configMap.value);
      errors := errors + more;
    }
    if s.secret.Some? {
      sourceCount, unionCount := sourceCount + 1, unionCount + 1;
      var more := ValidateReference(syntax, i, SecretKind, s.secret.value);
      errors := errors + more;
    }
    if s.inLine != "" {
      sourceCount, unionCount := sourceCount + 1, unionCount + 1;
    }
    if s.useDefaultCAs.Some? {
      defaultCAsCount, unionCount := defaultCAsCount + 1, unionCount + 1;
      if s.useDefaultCAs.value {
        sourceCount := sourceCount + 1;
      }
    }
    if unionCount != 1 {
      errors := errors + [NotOneType(i, unionCount)];
    }
  }

  method ValidateSources(syntax: Syntax, sources: seq<BundleSource>) returns (errors: seq<Violation>)
    ensures forall v :: v in errors <==> SourcesViolate(syntax, sources, v)
  {
    hide SourceViolates, Counts;
    errors := [];
    var sourceCount, defaultCAsCount, i := 0, 0, 0;
    while i < |sources|
      invariant 0 <= i <= |sources|
      invariant forall v :: v in errors <==> exists j :: 0 <= j < i && SourceViolates(syntax, j, sources[j], v)
      invariant sourceCount >= 0 && (sourceCount > 0 <==> exists j :: 0 <= j < i && Counts(sources[j]))
      invariant defaultCAsCount == Defaults(sources[..i])
    {
      assert sources[..i + 1][..i] == sources[..i];
      var more, sourceMore, defaultMore := ValidateSource(syntax, i, sources[i]);
      errors := errors + more;
      sourceCount, defaultCAsCount := sourceCount + sourceMore, defaultCAsCount + defaultMore;
      i := i + 1;
    }
    assert sources[..i] == sources;
    if sourceCount == 0 {
      errors := errors + [NoSource];
    }
    if defaultCAsCount > 1 {
      errors := errors + [ManyDefaults(defaultCAsCount)];
    }
  }

  method ValidateOwnTarget(b: Bundle) returns (errors: seq<Violation>)
    ensures forall v :: v in errors <==> OwnTargetViolates(b, v)
  {
    errors := [];
    var i := 0;
    if b.spec.target.configMap.Some? {
      while i < |b.spec.sources|
        invariant 0 <= i <= |b.spec.sources|
        invariant forall v :: v in errors <==> OwnTargetViolates(b, v) && v.kind.ConfigMapKind? && v.source < i
      {
        if ReadsTarget(b.spec.sources[i].configMap, b.meta.name, b.spec.target.configMap) {
          errors := errors + [SourceIsTarget(i, ConfigMapKind)];
        }
        i := i + 1;
      }
    }
    assert forall v :: v in errors <==> OwnTargetViolates(b, v) && v.kind.ConfigMapKind?;
    i := 0;
    if b.spec.target.secret.Some? {
      while i < |b.spec.sources|
        invariant 0 <= i <= |b.spec.sources|
        invariant forall v :: v in errors <==> OwnTargetViolates(b, v) && (v.kind.ConfigMapKind? || v.source < i)
      {
        if ReadsTarget(b.spec.sources[i].secret, b.meta.name, b.spec.target.secret) {
          errors := errors + [SourceIsTarget(i, SecretKind)];
        }
        i := i + 1;
      }
    }
  }

  /** The loop visits the formats with the keys seen so far. */
  method ValidateFormats(t: BundleTarget) returns (errors: seq<Violation>)
    ensures forall v :: v in errors <==> FormatsViolate(t, v)
  {
    errors := [];
    if t.additionalFormats.None? {
      return;
    }
    var targetKeys: set<string> := {};
    if t.configMap.Some? {
      targetKeys := targetKeys + {t.configMap.value.key};
    }
    if t.secret.Some? {
      targetKeys := targetKeys + {t.secret.value.key};
    }
    var formats := ListFormats(t);
    hide FormatsViolate, TemplateKeys;
    var i := 0;
    while i < |formats|
      invariant 0 <= i <= |formats|
      invariant targetKeys == TemplateKeys(t) + set j | 0 <= j < i :: formats[j].1
      invariant forall v :: v in errors <==> exists j :: 0 <= j < i && v == formats[j].0 && Repeats(t, formats, j)
    {
      if formats[i].1 in targetKeys {
        errors := errors + [formats[i].0];
      }
      targetKeys := targetKeys + {formats[i].1};
      i := i + 1;
    }
    RepeatsViolate(t, formats);
  }

  method ListFormats(t: BundleTarget) returns (formats: seq<(Violation, string)>)
    ensures formats == (if t.JksFormat().Some? then [(DuplicateJksKey, t.JksFormat().value.key)] else [])
                       + (if t.Pkcs12Format().Some? then [(DuplicatePkcs12Key, t.Pkcs12Format().value.key)] else [])
  {
    formats := [];
    if t.JksFormat().Some? {
      formats := formats + [(DuplicateJksKey, t.JksFormat().value.key)];
    }
    if t.Pkcs12Format().Some? {
      formats := formats + [(DuplicatePkcs12Key, t.Pkcs12Format().value.key)];
    }
  }

  predicate Repeats(t: BundleTarget, formats: seq<(Violation, string)>, j: int)
    requires 0 <= j < |formats|
  {
    formats[j].1 in TemplateKeys(t) || exists k :: 0 <= k < j && formats[k].1 == formats[j].1
  }

  lemma RepeatsViolate(t: BundleTarget, formats: seq<(Violation, string)>)
    requires formats == (if t.JksFormat().Some? then [(DuplicateJksKey, t.JksFormat().value.key)] else [])
                        + (if t.Pkcs12Format().Some? then [(DuplicatePkcs12Key, t.Pkcs12Format().value.key)] else [])
    ensures forall v :: FormatsViolate(t, v) <==>
              exists j :: 0 <= j < |formats| && v == formats[j].0 && Repeats(t, formats, j)
  {
    hide TemplateKeys;
    var last := |formats| - 1;
    if t.JksFormat().Some? {
      assert formats[0] == (DuplicateJksKey, t.JksFormat().value.key);
    }
    if t.Pkcs12Format().Some? {
      assert formats[last] == (DuplicatePkcs12Key, t.Pkcs12Format().value.key);
      assert last == if t.JksFormat().Some? then 1 else 0;
    }
  }

  /** The reserved keys of a map, in any order. */
  method ReservedKeys(m: map<string, string>) returns (keys: seq<string>)
    ensures forall k :: k in keys <==> k in m && Reserved(k)
  {
    keys := [];
    var rest := m.Keys;
    while rest != {}
      invariant rest <= m.Keys
      invariant forall k :: k in keys <==> k in m && k !in rest && Reserved(k)
      decreases |rest|
    {
      var k :| k in rest;
      if HasPrefix(k, RESERVED_PREFIXES[0]) {
        keys := keys + [k];
      }
      if HasPrefix(k, RESERVED_PREFIXES[1]) {
        keys := keys + [k];
      }
      rest := rest - {k};
    }
  }

  method ValidateMetadata(syntax: Syntax, kind: Kind, m: TargetMetadata) returns (errors: seq<Violation>)
    ensures forall v :: v in errors <==> MetadataViolates(syntax, kind, m, v)
  {
    hide Reserved;
    var annotations := ReservedKeys(m.annotations);
    errors := seq(|annotations|, i requires 0 <= i < |annotations| => ReservedAnnotation(kind, annotations[i]));
    assert forall v :: v in errors <==> v.ReservedAnnotation? && v.kind == kind && v.key in annotations by {
      forall k | k in annotations
        ensures ReservedAnnotation(kind, k) in errors
      {
        var i :| 0 <= i < |annotations| && annotations[i] == k;
        assert errors[i] == ReservedAnnotation(kind, k);
      }
    }
    if !syntax.annotations(m.annotations) {
      errors := errors + [InvalidAnnotations(kind)];
    }
    var labels := ReservedKeys(m.labels);
    var more := seq(|labels|, i requires 0 <= i < |labels| => ReservedLabel(kind, labels[i]));
    assert forall v :: v in more <==> v.ReservedLabel? && v.kind == kind && v.key in labels by {
      forall k | k in labels
        ensures ReservedLabel(kind, k) in more
      {
        var i :| 0 <= i < |labels| && labels[i] == k;
        assert more[i] == ReservedLabel(kind, k);
      }
    }
    errors := errors + more;
    if !syntax.labels(m.labels) {
      errors := errors + [InvalidLabels(kind)];
    }
  }

  /** The webhook reports exactly the violations of a Bundle, and none exactly for the admitted ones. */
  method Validate(syntax: Syntax, b: Bundle) returns (errors: seq<Violation>)
    ensures forall v :: v in errors <==> Violates(syntax, b, v)
    ensures errors == [] <==> Admits(syntax, b)
  {
    hide SourcesViolate, OwnTargetViolates, FormatsViolate, MetadataViolates, AdmittedSelector, Admits;
    errors := ValidateSources(syntax, b.spec.sources);
    var more := ValidateOwnTarget(b);
    errors := errors + more;
    more := ValidateFormats(b.spec.target);
    errors := errors + more;
    if b.spec.target.configMap.Some? {
      more := ValidateMetadata(syntax, ConfigMapKind, b.spec.target.configMap.value.metadata);
      errors := errors + more;
    }
    if b.spec.target.secret.Some? {
      more := ValidateMetadata(syntax, SecretKind, b.spec.target.secret.value.metadata);
      errors := errors + more;
    }
    if !AdmittedSelector(syntax, b.spec.target.namespaceSelector) {
      errors := errors + [InvalidNamespaceSelector];
    }
    NoViolationIsAdmission(syntax, b);
    assert errors != [] ==> errors[0] in errors;
  }
}
