/**
 The hand-over from a Bundle to its ClusterBundle: the Bundle controller keeps a converted ClusterBundle
 under Server-Side Apply until a user marks it as migrated, and then withdraws from it.
 */
module Handover {
  import opened Prelude
  import opened BundleApi
  import opened ClusterBundleApi
  import opened Conversion
  import opened ServerSideApply
  import opened Status
  import opened Targets

  const DEPRECATED := "Deprecated"
  const MIGRATED := "Migrated"

  /** The fields of a ClusterBundle as ownership is tracked for them.  Lists of references and selectors
      are owned as a whole, entries of target data by key. */
  datatype Path =
    | Annotation(name: string)
    | ControllerReference(uid: string)
    | SourceRefsField
    | DefaultCAsField
    | InLineCAsField
    | NamespaceSelectorField
    | DataEntry(kind: Kind, key: string)
    | TargetAnnotation(kind: Kind, name: string)
    | TargetLabel(kind: Kind, name: string)

  datatype FieldValue =
    | TextValue(text: string)
    | RefsValue(refs: seq<BundleSourceRef>)
    | SelectorValue(selector: LabelSelector)
    | EntryValue(entry: TargetKeyValue)

  type Fields = map<Path, Owned<FieldValue>>

  type Patch = map<Path, FieldValue>

  // ---------- What the controller applies ----------

  function TextField(path: Path, text: string): Patch {
    if text == "" then map[] else map[path := TextValue(text)]
  }

  function AnnotationFields(kind: Kind, texts: map<string, string>): Patch {
    map k | k in texts :: TargetAnnotation(kind, k) := TextValue(texts[k])
  }

  function LabelFields(kind: Kind, texts: map<string, string>): Patch {
    map k | k in texts :: TargetLabel(kind, k) := TextValue(texts[k])
  }

  function DataFields(kind: Kind, data: seq<TargetKeyValue>): Patch {
    if data == [] then map[]
    else DataFields(kind, data[..|data| - 1])[DataEntry(kind, data[|data| - 1].key) := EntryValue(data[|data| - 1])]
  }

  function TargetFields(kind: Kind, t: Option<KeyValueTarget>): Patch {
    if t.None? then map[]
    else DataFields(kind, t.value.data)
         + AnnotationFields(kind, t.value.metadata.annotations)
         + LabelFields(kind, t.value.metadata.labels)
  }

  function SpecFields(spec: HubSpec): Patch {
    (if spec.sourceRefs == [] then map[] else map[SourceRefsField := RefsValue(spec.sourceRefs)])
    + TextField(DefaultCAsField, spec.defaultCAs)
    + TextField(InLineCAsField, spec.inLineCAs)
    + TargetFields(ConfigMapKind, spec.target.configMap)
    + TargetFields(SecretKind, spec.target.secret)
    + (if spec.target.namespaceSelector.None? then map[]
       else map[NamespaceSelectorField := SelectorValue(spec.target.namespaceSelector.value)])
  }

  /** The converted ClusterBundle as a patch: of all annotations only the JKS key is carried over. */
  function PatchFor(b: Bundle): Patch {
    var h := ToHub(b);
    SpecFields(h.spec)
    + (if JksKey(h.meta.annotations).Some?
       then map[Annotation(JKS_KEY_ANNOTATION) := TextValue(JksKey(h.meta.annotations).value)] else map[])
    + map[ControllerReference(b.meta.uid) := TextValue(b.meta.name)]
  }

  predicate DuplicateKeys(t: Option<KeyValueTarget>) {
    t.Some? && exists i, j :: 0 <= i < j < |t.value.data| && t.value.data[i].key == t.value.data[j].key
  }

  /** The API server refuses a patch that lists two entries under one key. */
  predicate Refused(b: Bundle) {
    DuplicateKeys(ToHub(b).spec.target.configMap) || DuplicateKeys(ToHub(b).spec.target.secret)
  }

  // ---------- What a patch says about a ClusterBundle ----------

  function TargetOf(h: ClusterBundle, kind: Kind): Option<KeyValueTarget> {
    match kind
    case ConfigMapKind => h.spec.target.configMap
    case SecretKind => h.spec.target.secret
  }

  predicate IsText(texts: map<string, string>, name: string, v: FieldValue) {
    name in texts && v == TextValue(texts[name])
  }

  /** The field of a ClusterBundle has the value: every field of its spec that is set, each data entry by its key,
      of its annotations the JKS key only, and the controlling reference to the Bundle it is converted from. */
  ghost predicate Has(h: ClusterBundle, bundle: ObjectMeta, path: Path, v: FieldValue) {
    match path
    case Annotation(name) => name == "internal.trust-manager.io/jks-key" && IsText(h.meta.annotations, name, v)
    case ControllerReference(uid) => uid == bundle.uid && v == TextValue(bundle.name)
    case SourceRefsField => h.spec.sourceRefs != [] && v == RefsValue(h.spec.sourceRefs)
    case DefaultCAsField => h.spec.defaultCAs != "" && v == TextValue(h.spec.defaultCAs)
    case InLineCAsField => h.spec.inLineCAs != "" && v == TextValue(h.spec.inLineCAs)
    case NamespaceSelectorField =>
      h.spec.target.namespaceSelector.Some? && v == SelectorValue(h.spec.target.namespaceSelector.value)
    case DataEntry(kind, key) =>
      TargetOf(h, kind).Some?
      && exists kv :: kv in TargetOf(h, kind).value.data && kv.key == key && v == EntryValue(kv)
    case TargetAnnotation(kind, name) =>
      TargetOf(h, kind).Some? && IsText(TargetOf(h, kind).value.metadata.annotations, name, v)
    case TargetLabel(kind, name) =>
      TargetOf(h, kind).Some? && IsText(TargetOf(h, kind).value.metadata.labels, name, v)
  }

  predicate Lists(patch: Patch, path: Path, v: FieldValue) {
    path in patch && patch[path] == v
  }

  lemma {:induction false} ListsEntries(kind: Kind, data: seq<TargetKeyValue>, path: Path, v: FieldValue)
    requires forall i, j :: 0 <= i < j < |data| ==> data[i].key != data[j].key
    ensures Lists(DataFields(kind, data), path, v) <==>
            path.DataEntry? && path.kind == kind && exists kv :: kv in data && kv.key == path.key && v == EntryValue(kv)
  {
    if data != [] {
      var n := |data| - 1;
      ListsEntries(kind, data[..n], path, v);
      assert data == data[..n] + [data[n]];
      assert forall kv :: kv in data[..n] ==> kv.key != data[n].key;
    }
  }

  /** Whether a path is one of a target of the kind, and the target has the value there. */
  ghost predicate TargetHas(kind: Kind, t: Option<KeyValueTarget>, path: Path, v: FieldValue) {
    t.Some?
    && match path
       case DataEntry(k, key) =>
         k == kind && exists kv :: kv in t.value.data && kv.key == key && v == EntryValue(kv)
       case TargetAnnotation(k, name) => k == kind && IsText(t.value.metadata.annotations, name, v)
       case TargetLabel(k, name) => k == kind && IsText(t.value.metadata.labels, name, v)
       case _ => false
  }

  lemma ListsMetadata(kind: Kind, m: TargetMetadata, path: Path, v: FieldValue)
    ensures Lists(AnnotationFields(kind, m.annotations), path, v) <==>
            path.TargetAnnotation? && path.kind == kind && IsText(m.annotations, path.name, v)
    ensures Lists(LabelFields(kind, m.labels), path, v) <==>
            path.TargetLabel? && path.kind == kind && IsText(m.labels, path.name, v)
  {
  }

  /** A path in a sum of maps has its value from the last map that has it. */
  lemma ListsSum(a: Patch, b: Patch, path: Path, v: FieldValue)
    ensures Lists(a + b, path, v) <==> Lists(b, path, v) || (path !in b && Lists(a, path, v))
  {
  }

  lemma ListsTarget(kind: Kind, t: Option<KeyValueTarget>, path: Path, v: FieldValue)
    requires !DuplicateKeys(t)
    ensures Lists(TargetFields(kind, t), path, v) <==> TargetHas(kind, t, path, v)
    ensures path in TargetFields(kind, t) ==> path.DataEntry? || path.TargetAnnotation? || path.TargetLabel?
  {
    if t.Some? {
      var data, m := DataFields(kind, t.value.data), t.value.metadata;
      var annotations, labels := AnnotationFields(kind, m.annotations), LabelFields(kind, m.labels);
      ListsEntries(kind, t.value.data, path, v);
      ListsMetadata(kind, m, path, v);
      FieldPaths(kind, t.value, path);
      assert TargetFields(kind, t) == data + annotations + labels;
      hide DataFields, AnnotationFields, LabelFields, IsText, Lists, TargetFields;
      ListsSum(data, annotations, path, v);
      ListsSum(data + annotations, labels, path, v);
    }
  }

  lemma FieldPaths(kind: Kind, t: KeyValueTarget, path: Path)
    requires !DuplicateKeys(Some(t))
    ensures path in DataFields(kind, t.data) ==> path.DataEntry?
    ensures path in AnnotationFields(kind, t.metadata.annotations) ==> path.TargetAnnotation?
    ensures path in LabelFields(kind, t.metadata.labels) ==> path.TargetLabel?
  {
    if path in DataFields(kind, t.data) {
      ListsEntries(kind, t.data, path, DataFields(kind, t.data)[path]);
    }
    hide DataFields;
  }

  lemma ListsText(field: Path, text: string, path: Path, v: FieldValue)
    ensures Lists(TextField(field, text), path, v) <==> path == field && text != "" && v == TextValue(text)
    ensures path in TextField(field, text) ==> path == field
  {
  }

  lemma ListsSpec(spec: HubSpec, path: Path, v: FieldValue)
    requires !DuplicateKeys(spec.target.configMap) && !DuplicateKeys(spec.target.secret)
    ensures Lists(SpecFields(spec), path, v) <==>
            || (path == SourceRefsField && spec.sourceRefs != [] && v == RefsValue(spec.sourceRefs))
            || (path == DefaultCAsField && spec.defaultCAs != "" && v == TextValue(spec.defaultCAs))
            || (path == InLineCAsField && spec.inLineCAs != "" && v == TextValue(spec.inLineCAs))
            || TargetHas(ConfigMapKind, spec.target.configMap, path, v)
            || TargetHas(SecretKind, spec.target.secret, path, v)
            || (path == NamespaceSelectorField && spec.target.namespaceSelector.Some?
                && v == SelectorValue(spec.target.namespaceSelector.value))
    ensures path in SpecFields(spec) ==> !path.Annotation? && !path.ControllerReference?
  {
    ListsTarget(ConfigMapKind, spec.target.configMap, path, v);
    ListsTarget(SecretKind, spec.target.secret, path, v);
    ListsText(DefaultCAsField, spec.defaultCAs, path, v);
    ListsText(InLineCAsField, spec.inLineCAs, path, v);
    TargetPaths(ConfigMapKind, spec.target.configMap, path, v);
    TargetPaths(SecretKind, spec.target.secret, path, v);
    ListsSecond(spec.target.configMap, spec.target.secret, path, v);
    hide TargetFields, TextField, TargetHas, DuplicateKeys;
    var refs := if spec.sourceRefs == [] then map[] else map[SourceRefsField := RefsValue(spec.sourceRefs)];
    var selector := if spec.target.namespaceSelector.None? then map[]
                    else map[NamespaceSelectorField := SelectorValue(spec.target.namespaceSelector.value)];
    assert Lists(refs, path, v) <==>
           path == SourceRefsField && spec.sourceRefs != [] && v == RefsValue(spec.sourceRefs);
    assert Lists(selector, path, v) <==>
           path == NamespaceSelectorField && spec.target.namespaceSelector.Some?
           && v == SelectorValue(spec.target.namespaceSelector.value);
    assert (path in refs ==> path == SourceRefsField) && (path in selector ==> path == NamespaceSelectorField);
    var p1 := refs + TextField(DefaultCAsField, spec.defaultCAs);
    var p2 := p1 + TextField(InLineCAsField, spec.inLineCAs);
    var p3 := p2 + TargetFields(ConfigMapKind, spec.target.configMap);
    var p4 := p3 + TargetFields(SecretKind, spec.target.secret);
    assert SpecFields(spec) == p4 + selector;
    hide SpecFields, Lists;
    ListsSum(refs, TextField(DefaultCAsField, spec.defaultCAs), path, v);
    ListsSum(p1, TextField(InLineCAsField, spec.inLineCAs), path, v);
    ListsSum(p2, TargetFields(ConfigMapKind, spec.target.configMap), path, v);
    ListsSum(p3, TargetFields(SecretKind, spec.target.secret), path, v);
    ListsSum(p4, selector, path, v);
  }

  lemma TargetPaths(kind: Kind, t: Option<KeyValueTarget>, path: Path, v: FieldValue)
    ensures TargetHas(kind, t, path, v) ==> path.DataEntry? || path.TargetAnnotation? || path.TargetLabel?
  {
  }

  /** The fields of the Secret do not hide those of the ConfigMap. */
  lemma ListsSecond(configMap: Option<KeyValueTarget>, secret: Option<KeyValueTarget>, path: Path, v: FieldValue)
    requires !DuplicateKeys(secret)
    ensures path in TargetFields(SecretKind, secret) ==> !TargetHas(ConfigMapKind, configMap, path, v)
  {
    if path in TargetFields(SecretKind, secret) {
      ListsTarget(SecretKind, secret, path, TargetFields(SecretKind, secret)[path]);
    }
    hide TargetFields, IsText, DuplicateKeys;
  }

  /** A patch that is not refused lists exactly the fields that the converted ClusterBundle has, with their values,
      and no others. */
  lemma PatchListsExactly(b: Bundle, path: Path, v: FieldValue)
    requires !Refused(b)
    ensures Lists(PatchFor(b), path, v) <==> Has(ToHub(b), b.meta, path, v)
  {
    var h := ToHub(b);
    ListsSpec(h.spec, path, v);
    if !path.Annotation? && !path.ControllerReference? {
      SpecHas(h, b.meta, path, v);
      hide SpecFields, ToHub, TargetHas, Has;
    } else {
      hide SpecFields, ToHub, TargetHas;
    }
  }

  /** All fields but the annotation and the owner reference are fields of the spec. */
  lemma SpecHas(h: ClusterBundle, bundle: ObjectMeta, path: Path, v: FieldValue)
    requires !path.Annotation? && !path.ControllerReference?
    ensures Has(h, bundle, path, v) <==>
            || (path == SourceRefsField && h.spec.sourceRefs != [] && v == RefsValue(h.spec.sourceRefs))
            || (path == DefaultCAsField && h.spec.defaultCAs != "" && v == TextValue(h.spec.defaultCAs))
            || (path == InLineCAsField && h.spec.inLineCAs != "" && v == TextValue(h.spec.inLineCAs))
            || TargetHas(ConfigMapKind, h.spec.target.configMap, path, v)
            || TargetHas(SecretKind, h.spec.target.secret, path, v)
            || (path == NamespaceSelectorField && h.spec.target.namespaceSelector.Some?
                && v == SelectorValue(h.spec.target.namespaceSelector.value))
  {
    hide IsText;
  }

  // ---------- One reconcile ----------

  /** The ClusterBundle, if there is one, and the conditions of the Bundle. */
  datatype State = State(cluster: Option<Fields>, stored: StoredConditions)

  /** Which API calls fail. */
  datatype CallFaults = CallFaults(get: bool, patch: bool, status: bool)

  predicate UserManaged(cluster: Option<Fields>) {
    cluster.Some? && Annotation(MIGRATED_ANNOTATION) in cluster.value
  }

  function MigratedCondition(b: Bundle): Condition {
    Condition(MIGRATED, true, "MigrationDetected",
              "Bundle is migrated to ClusterBundle by user; this resource can be safely deleted.", b.meta.generation, 0)
  }

  function DeprecatedCondition(b: Bundle): Condition {
    Condition(DEPRECATED, true, "MigrationRequired",
              "Bundle is deprecated; please migrate to ClusterBundle.", b.meta.generation, 0)
  }

  /** The status after applying a condition as the only one listed. */
  function WithCondition(stored: StoredConditions, b: Bundle, c: Condition, now: int): StoredConditions {
    ApplyCondition(stored, c.(lastTransitionTime := TransitionTime(b.status.conditions, c, now)))
  }

  /** The ClusterBundle after its patch; `None` when the call fails. */
  function Patched(cluster: Option<Fields>, b: Bundle, faults: CallFaults): Option<Fields> {
    if faults.get || faults.patch then None
    else if UserManaged(cluster) then Some(Apply(cluster.value, map[]))
    else if Refused(b) then None
    else Some(Apply(if cluster.Some? then cluster.value else map[], PatchFor(b)))
  }

  /** One reconcile of a Bundle, and whether it completes. */
  function Reconciled(s: State, b: Bundle, faults: CallFaults, now: int): (State, bool) {
    match Patched(s.cluster, b, faults)
    case None => (s, false)
    case Some(fields) =>
      if faults.status then (s.(cluster := Some(fields)), false)
      else
        var c := if UserManaged(s.cluster) then MigratedCondition(b) else DeprecatedCondition(b);
        (State(Some(fields), WithCondition(s.stored, b, c, now)), true)
  }

  /** Converts a Bundle into what is applied: its name and owner, its converted spec and the JKS key. */
  method ConvertToPatch(b: Bundle) returns (patch: Option<Patch>)
    ensures patch == if Refused(b) then None else Some(PatchFor(b))
    ensures patch.Some? ==> forall path, v :: Lists(patch.value, path, v) <==> Has(ToHub(b), b.meta, path, v)
  {
    var h := ConvertTo(b);
    forall path, v | !Refused(b)
      ensures Lists(PatchFor(b), path, v) <==> Has(ToHub(b), b.meta, path, v)
    {
      PatchListsExactly(b, path, v);
    }
    assert Refused(b) == (DuplicateKeys(h.spec.target.configMap) || DuplicateKeys(h.spec.target.secret));
    hide ToHub, SpecFields, Refused, DuplicateKeys, Has, Lists;
    if DuplicateKeys(h.spec.target.configMap) || DuplicateKeys(h.spec.target.secret) {
      return None;
    }
    var annotations: Patch := map[];
    if JKS_KEY_ANNOTATION in h.meta.annotations {
      annotations := map[Annotation(JKS_KEY_ANNOTATION) := TextValue(h.meta.annotations[JKS_KEY_ANNOTATION])];
    }
    patch := Some(SpecFields(h.spec) + annotations + map[ControllerReference(b.meta.uid) := TextValue(b.meta.name)]);
  }

  class BundleReconciler {
    var cluster: Option<Fields>
    var stored: StoredConditions

    constructor (cluster: Option<Fields>, stored: StoredConditions)
      ensures this.cluster == cluster && this.stored == stored
    {
      this.cluster, this.stored := cluster, stored;
    }

    method Reconcile(b: Bundle, faults: CallFaults, now: int) returns (completed: bool)
      requires UniqueKinds(b.status.conditions)
      modifies this
      ensures (State(cluster, stored), completed) == Reconciled(State(old(cluster), old(stored)), b, faults, now)
    {
      hide PatchFor, Refused, Apply;
      if faults.get {
        return false;
      }
      if cluster.Some? && Annotation(MIGRATED_ANNOTATION) in cluster.value {
        var unmanaged := UnmanageClusterBundle(faults);
        if !unmanaged {
          return false;
        }
        completed := ApplyBundleCondition(b, MigratedCondition(b), faults, now);
        return;
      }
      var applied := ApplyClusterBundle(b, faults);
      if !applied {
        return false;
      }
      completed := ApplyBundleCondition(b, DeprecatedCondition(b), faults, now);
    }

    /** Force-applies the converted Bundle. */
    method ApplyClusterBundle(b: Bundle, faults: CallFaults) returns (ok: bool)
      modifies this`cluster
      ensures ok <==> !faults.patch && !Refused(b)
      ensures cluster == if ok then Some(Apply(if old(cluster).Some? then old(cluster).value else map[], PatchFor(b)))
                         else old(cluster)
    {
      hide *;
      var patch := ConvertToPatch(b);
      if faults.patch || patch.None? {
        return false;
      }
      cluster := Some(Apply(if cluster.Some? then cluster.value else map[], patch.value));
      ok := true;
    }

    /** Applies an empty ClusterBundle without force, which is never a conflict. */
    method UnmanageClusterBundle(faults: CallFaults) returns (ok: bool)
      requires cluster.Some?
      modifies this`cluster
      ensures ok <==> !faults.patch
      ensures cluster == if ok then Some(Apply(old(cluster).value, map[])) else old(cluster)
    {
      var patch: Patch := map[];
      WithdrawalKeepsContent(cluster.value);
      if faults.patch || Conflicts(cluster.value, patch) {
        return false;
      }
      cluster := Some(Apply(cluster.value, patch));
      ok := true;
    }

    method ApplyBundleCondition(b: Bundle, c: Condition, faults: CallFaults, now: int) returns (ok: bool)
      requires UniqueKinds(b.status.conditions)
      modifies this`stored
      ensures ok <==> !faults.status
      ensures stored == if ok then WithCondition(old(stored), b, c, now) else old(stored)
    {
      var time := FindTransitionTime(b.status.conditions, c, now);
      if faults.status {
        return false;
      }
      stored := ApplyCondition(stored, c.(lastTransitionTime := time));
      ok := true;
    }
  }
}
