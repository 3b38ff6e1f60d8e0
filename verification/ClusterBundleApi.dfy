/**
 The v1alpha2 ClusterBundle, the hub that v1alpha1 Bundles are converted to and from.
 */
module ClusterBundleApi {
  import opened Prelude
  import opened BundleApi

  const CONFIG_MAP := "ConfigMap"
  const SECRET := "Secret"
  const PROVIDER_SYSTEM := "System"
  const PROVIDER_DISABLED := "Disabled"
  const FORMAT_PEM := "PEM"
  const FORMAT_PKCS12 := "PKCS12"
  const ALL_KEYS := "*"
  const MIGRATED_ANNOTATION := "trust-manager.io/migrated"
  const JKS_KEY_ANNOTATION := "internal.trust-manager.io/jks-key"

  datatype BundleSourceRef = BundleSourceRef(kind: string, name: string, selector: Option<LabelSelector>, key: string)

  const NO_REF := BundleSourceRef("", "", None, "")

  datatype TargetKeyValue = TargetKeyValue(key: string, format: string, password: Option<string>, profile: string)

  datatype KeyValueTarget = KeyValueTarget(data: seq<TargetKeyValue>, metadata: TargetMetadata)

  datatype HubTarget = HubTarget(configMap: Option<KeyValueTarget>, secret: Option<KeyValueTarget>,
                                 namespaceSelector: Option<LabelSelector>)

  const NO_TARGET := HubTarget(None, None, None)

  datatype HubSpec = HubSpec(sourceRefs: seq<BundleSourceRef>, defaultCAs: string, inLineCAs: string, target: HubTarget)

  datatype ClusterBundle = ClusterBundle(meta: ObjectMeta, spec: HubSpec, status: BundleStatus)
}
