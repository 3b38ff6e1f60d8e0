/**
 The v1alpha1 Bundle and the Kubernetes values it is made of.
 A nil map or slice and an empty one are the same value here.
 */
module BundleApi {
  import opened Prelude

  // ---------- Kubernetes metadata ----------

  type Labels = map<string, string>

  datatype ObjectMeta = ObjectMeta(name: string, uid: string, generation: int, annotations: map<string, string>)

  datatype Requirement = Requirement(key: string, operator: string, values: seq<string>) {

    predicate Valid() {
      if operator == "In" || operator == "NotIn" then values != []
      else (operator == "Exists" || operator == "DoesNotExist") && values == []
    }

    predicate Matches(labels: Labels) {
      if operator == "In" then key in labels && labels[key] in values
      else if operator == "NotIn" then key !in labels || labels[key] !in values
      else if operator == "Exists" then key in labels
      else key !in labels
    }
  }

  datatype LabelSelector = LabelSelector(matchLabels: Labels, matchExpressions: seq<Requirement>) {

    predicate Valid() {
      forall i :: 0 <= i < |matchExpressions| ==> matchExpressions[i].Valid()
    }

    predicate Matches(labels: Labels) {
      && (forall k :: k in matchLabels ==> k in labels && labels[k] == matchLabels[k])
      && (forall i :: 0 <= i < |matchExpressions| ==> matchExpressions[i].Matches(labels))
    }
  }

  const EMPTY_SELECTOR := LabelSelector(map[], [])

  /** Whether a selector field can be used at all: a missing selector selects nothing. */
  predicate SelectorValid(selector: Option<LabelSelector>) {
    selector.None? || selector.value.Valid()
  }

  predicate SelectorMatches(selector: Option<LabelSelector>, labels: Labels) {
    selector.Some? && selector.value.Matches(labels)
  }

  datatype Condition = Condition(kind: string, status: bool, reason: string, message: string,
                                 observedGeneration: int, lastTransitionTime: int)

  datatype BundleStatus = BundleStatus(conditions: seq<Condition>, defaultCAPackageVersion: string)

  // ---------- Sources ----------

  datatype SourceObjectKeySelector = SourceObjectKeySelector(
    name: string, selector: Option<LabelSelector>, key: string, includeAllKeys: Option<bool>)
  {
    predicate AllKeys() {
      includeAllKeys == Some(true)
    }
  }

  datatype BundleSource = BundleSource(
    configMap: Option<SourceObjectKeySelector>, secret: Option<SourceObjectKeySelector>,
    inLine: string, useDefaultCAs: Option<bool>)

  // ---------- Targets ----------

  const LEGACY_RC2 := "LegacyRC2"
  const LEGACY_DES := "LegacyDES"

  datatype TargetMetadata = TargetMetadata(annotations: map<string, string>, labels: map<string, string>)

  datatype TargetTemplate = TargetTemplate(key: string, metadata: TargetMetadata)

  datatype JKS = JKS(key: string, password: string)

  datatype PKCS12 = PKCS12(key: string, password: Option<string>, profile: string)

  datatype AdditionalFormats = AdditionalFormats(jks: Option<JKS>, pkcs12: Option<PKCS12>)

  datatype BundleTarget = BundleTarget(
    configMap: Option<TargetTemplate>, secret: Option<TargetTemplate>,
    additionalFormats: Option<AdditionalFormats>, namespaceSelector: Option<LabelSelector>)
  {
    function JksFormat(): Option<JKS> {
      if additionalFormats.Some? then additionalFormats.value.jks else None
    }

    function Pkcs12Format(): Option<PKCS12> {
      if additionalFormats.Some? then additionalFormats.value.pkcs12 else None
    }
  }

  datatype BundleSpec = BundleSpec(sources: seq<BundleSource>, target: BundleTarget)

  datatype Bundle = Bundle(meta: ObjectMeta, spec: BundleSpec, status: BundleStatus)
}
