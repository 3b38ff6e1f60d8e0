/**
 Conversion between v1alpha1 Bundles and v1alpha2 ClusterBundles.

 The functions say what each direction computes; the methods do it as the controller does, filling a
 destination and a shared conversion context step by step.
 */
module Conversion {
  import opened Prelude
  import opened Pem
  import opened BundleApi
  import opened ClusterBundleApi

  // ---------- Bundle to ClusterBundle ----------

  predicate IsReference(s: BundleSource) {
    s.configMap.Some? || s.secret.Some?
  }

  /** A Secret reference takes precedence over a ConfigMap reference in the same source. */
  function ReferenceTo(s: BundleSource): BundleSourceRef {
    if s.secret.Some? then HubRef(SECRET, s.secret.value)
    else if s.configMap.Some? then HubRef(CONFIG_MAP, s.configMap.value)
    else NO_REF
  }

  function HubRef(kind: string, ref: SourceObjectKeySelector): BundleSourceRef {
    BundleSourceRef(kind, ref.name, ref.selector, if ref.AllKeys() then ALL_KEYS else ref.key)
  }

  function SourceRefs(sources: seq<BundleSource>): seq<BundleSourceRef> {
    if sources == [] then []
    else
      var last := sources[|sources| - 1];
      SourceRefs(sources[..|sources| - 1]) + if IsReference(last) then [ReferenceTo(last)] else []
  }

  function InlineTexts(sources: seq<BundleSource>): seq<string> {
    seq(|sources|, i requires 0 <= i < |sources| => sources[i].inLine)
  }

  /** The last source that says anything about default CAs decides. */
  function Provider(sources: seq<BundleSource>): string {
    if sources == [] then ""
    else match sources[|sources| - 1].useDefaultCAs
      case None => Provider(sources[..|sources| - 1])
      case Some(use) => if use then PROVIDER_SYSTEM else PROVIDER_DISABLED
  }

  function JksEntry(jks: JKS): TargetKeyValue {
    TargetKeyValue(jks.key, FORMAT_PKCS12, Some(jks.password), "")
  }

  function Pkcs12Entry(p: PKCS12): TargetKeyValue {
    TargetKeyValue(p.key, FORMAT_PKCS12, p.password, if p.profile == "" then LEGACY_RC2 else p.profile)
  }

  function FormatEntries(t: BundleTarget): seq<TargetKeyValue> {
    (if t.JksFormat().Some? then [JksEntry(t.JksFormat().value)] else [])
    + (if t.Pkcs12Format().Some? then [Pkcs12Entry(t.Pkcs12Format().value)] else [])
  }

  function TemplateData(template: TargetTemplate, formats: seq<TargetKeyValue>): KeyValueTarget {
    KeyValueTarget([TargetKeyValue(template.key, "", None, "")] + formats, template.metadata)
  }

  predicate HasTarget(t: BundleTarget) {
    t.configMap.Some? || t.secret.Some?
  }

  /** No target and no selector: nothing at all is converted, not even the additional formats. */
  predicate IsEmptyTarget(t: BundleTarget) {
    !HasTarget(t) && t.namespaceSelector.None?
  }

  function TargetTo(t: BundleTarget): HubTarget {
    if IsEmptyTarget(t) then NO_TARGET
    else HubTarget(
      if t.configMap.Some? then Some(TemplateData(t.configMap.value, FormatEntries(t))) else None,
      if t.secret.Some? then Some(TemplateData(t.secret.value, FormatEntries(t))) else None,
      if t.namespaceSelector.None? then Some(EMPTY_SELECTOR) else t.namespaceSelector)
  }

  function AnnotationsTo(annotations: map<string, string>, t: BundleTarget): map<string, string> {
    if !IsEmptyTarget(t) && t.JksFormat().Some?
    then annotations[JKS_KEY_ANNOTATION := t.JksFormat().value.key]
    else annotations
  }

  function ToHub(b: Bundle): ClusterBundle {
    ClusterBundle(
      b.meta.(annotations := AnnotationsTo(b.meta.annotations, b.spec.target)),
      HubSpec(SourceRefs(b.spec.sources), Provider(b.spec.sources), FoldTexts(InlineTexts(b.spec.sources)),
              TargetTo(b.spec.target)),
      b.status)
  }

  // ---------- ClusterBundle to Bundle ----------

  function SourceFrom(ref: BundleSourceRef): BundleSource {
    var selector := if ref.key == ALL_KEYS
      then SourceObjectKeySelector(ref.name, ref.selector, "", Some(true))
      else SourceObjectKeySelector(ref.name, ref.selector, ref.key, None);
    if ref.kind == CONFIG_MAP then BundleSource(Some(selector), None, "", None)
    else if ref.kind == SECRET then BundleSource(None, Some(selector), "", None)
    else BundleSource(None, None, "", None)
  }

  function InlineSource(text: string): BundleSource {
    BundleSource(None, None, text, None)
  }

  function DefaultSource(use: bool): BundleSource {
    BundleSource(None, None, "", Some(use))
  }

  function SourcesFromRefs(refs: seq<BundleSourceRef>): seq<BundleSource> {
    seq(|refs|, i requires 0 <= i < |refs| => SourceFrom(refs[i]))
  }

  function SourcesFrom(spec: HubSpec): seq<BundleSource> {
    SourcesFromRefs(spec.sourceRefs)
    + (if spec.inLineCAs != "" then [InlineSource(spec.inLineCAs)] else [])
    + (if spec.defaultCAs != "" then [DefaultSource(spec.defaultCAs == PROVIDER_SYSTEM)] else [])
  }

  predicate IsPemEntry(kv: TargetKeyValue) {
    kv.format == "" || kv.format == FORMAT_PEM
  }

  function PemKey(data: seq<TargetKeyValue>): string {
    if data == [] then "" else if IsPemEntry(data[0]) then data[0].key else PemKey(data[1..])
  }

  function TemplateFrom(t: KeyValueTarget): TargetTemplate {
    TargetTemplate(PemKey(t.data), t.metadata)
  }

  function Pkcs12From(kv: TargetKeyValue): PKCS12 {
    PKCS12(kv.key, kv.password, if kv.profile == "" then LEGACY_DES else kv.profile)
  }

  /** Looks for one JKS and one PKCS#12 entry and stops when it has both; `None` stands for the
      conversion panicking on a JKS entry without a password. */
  function ScanFormats(entries: seq<TargetKeyValue>, jksKey: Option<string>,
                       found: AdditionalFormats): Option<AdditionalFormats>
  {
    if entries == [] || (found.jks.Some? && found.pkcs12.Some?) then Some(found)
    else
      var kv := entries[0];
      if kv.format != FORMAT_PKCS12 then ScanFormats(entries[1..], jksKey, found)
      else if jksKey != Some(kv.key) then ScanFormats(entries[1..], jksKey, found.(pkcs12 := Some(Pkcs12From(kv))))
      else if kv.password.None? then None
      else ScanFormats(entries[1..], jksKey, found.(jks := Some(JKS(kv.key, kv.password.value))))
  }

  lemma ScanOne(kv: TargetKeyValue, rest: seq<TargetKeyValue>, jksKey: Option<string>, found: AdditionalFormats)
    requires found.jks.None? || found.pkcs12.None?
    ensures ScanFormats([kv] + rest, jksKey, found)
         == if kv.format != FORMAT_PKCS12 then ScanFormats(rest, jksKey, found)
            else if jksKey != Some(kv.key) then ScanFormats(rest, jksKey, found.(pkcs12 := Some(Pkcs12From(kv))))
            else if kv.password.None? then None
            else ScanFormats(rest, jksKey, found.(jks := Some(JKS(kv.key, kv.password.value))))
  {
    assert ([kv] + rest)[1..] == rest;
  }

  lemma ScanDone(entries: seq<TargetKeyValue>, jksKey: Option<string>, found: AdditionalFormats)
    requires entries == [] || (found.jks.Some? && found.pkcs12.Some?)
    ensures ScanFormats(entries, jksKey, found) == Some(found)
  {
  }

  function Entries(t: HubTarget): seq<TargetKeyValue> {
    (if t.secret.Some? then t.secret.value.data else [])
    + (if t.configMap.Some? then t.configMap.value.data else [])
  }

  function JksKey(annotations: map<string, string>): Option<string> {
    if JKS_KEY_ANNOTATION in annotations then Some(annotations[JKS_KEY_ANNOTATION]) else None
  }

  const NO_FORMATS := AdditionalFormats(None, None)

  function FormatsFrom(t: HubTarget, annotations: map<string, string>): Option<AdditionalFormats> {
    ScanFormats(Entries(t), JksKey(annotations), NO_FORMATS)
  }

  function TargetFrom(t: HubTarget, formats: AdditionalFormats): BundleTarget {
    BundleTarget(
      if t.configMap.Some? then Some(TemplateFrom(t.configMap.value)) else None,
      if t.secret.Some? then Some(TemplateFrom(t.secret.value)) else None,
      if formats == NO_FORMATS then None else Some(formats),
      t.namespaceSelector)
  }

  /** `None` stands for a panic. */
  function FromHub(h: ClusterBundle): Option<Bundle> {
    match FormatsFrom(h.spec.target, h.meta.annotations)
    case None => None
    case Some(formats) =>
      Some(Bundle(h.meta.(annotations := h.meta.annotations - {JKS_KEY_ANNOTATION}),
                  BundleSpec(SourcesFrom(h.spec), TargetFrom(h.spec.target, formats)), h.status))
  }

  // ---------- The conversion context ----------

  /** The destination object that the conversions of the parts of a Bundle write into. */
  class HubContext {
    var annotations: map<string, string>
    var inLineCAs: string
    var provider: string

    constructor (annotations: map<string, string>)
      ensures this.annotations == annotations && inLineCAs == "" && provider == ""
    {
      this.annotations, inLineCAs, provider := annotations, "", "";
    }

    /** Converts one source.  Inline text and default CAs go to the context: text is appended, the
        provider overwritten. */
    method ConvertSource(s: BundleSource) returns (ref: BundleSourceRef)
      modifies this`inLineCAs, this`provider
      ensures ref == ReferenceTo(s)
      ensures inLineCAs == if s.inLine == "" then old(inLineCAs)
                           else if old(inLineCAs) == "" then s.inLine
                           else JoinTexts(old(inLineCAs), s.inLine)
      ensures provider == match s.useDefaultCAs
                          case None => old(provider)
                          case Some(use) => if use then PROVIDER_SYSTEM else PROVIDER_DISABLED
    {
      ref := NO_REF;
      var selector: Option<SourceObjectKeySelector> := None;
      if s.configMap.Some? {
        ref := ref.(kind := CONFIG_MAP);
        selector := s.configMap;
      }
      if s.secret.Some? {
        ref := ref.(kind := SECRET);
        selector := s.secret;
      }
      if selector.Some? {
        ref := ref.(name := selector.value.name, selector := selector.value.selector, key := selector.value.key);
        if selector.value.AllKeys() {
          ref := ref.(key := ALL_KEYS);
        }
      }
      if s.inLine != "" {
        if inLineCAs == "" {
          inLineCAs := s.inLine;
        } else {
          inLineCAs := TrimNewline(inLineCAs) + NEWLINE + s.inLine;
        }
      }
      if s.useDefaultCAs.Some? {
        provider := PROVIDER_DISABLED;
        if s.useDefaultCAs.value {
          provider := PROVIDER_SYSTEM;
        }
      }
    }

    /** Converts all sources and drops the references that turned out empty. */
    method ConvertSources(sources: seq<BundleSource>) returns (refs: seq<BundleSourceRef>)
      requires inLineCAs == "" && provider == ""
      modifies this`inLineCAs, this`provider
      ensures refs == SourceRefs(sources)
      ensures inLineCAs == FoldTexts(InlineTexts(sources)) && provider == Provider(sources)
    {
      hide JoinTexts, FoldTexts, InlineTexts, Provider, ReferenceTo;
      NoSources(sources);
      var all: seq<BundleSourceRef> := [];
      var i := 0;
      while i < |sources|
        invariant 0 <= i <= |sources| == |sources|
        invariant all == seq(i, j requires 0 <= j < i => ReferenceTo(sources[j]))
        invariant inLineCAs == FoldTexts(InlineTexts(sources[..i])) && provider == Provider(sources[..i])
      {
        OneMoreSource(sources, i);
        var ref := ConvertSource(sources[i]);
        all := all + [ref];
        i := i + 1;
      }
      assert sources[..i] == sources;
      assert inLineCAs == FoldTexts(InlineTexts(sources)) && provider == Provider(sources);
      refs := [];
      i := 0;
      while i < |all|
        invariant 0 <= i <= |all|
        invariant refs == SourceRefs(sources[..i])
        invariant inLineCAs == FoldTexts(InlineTexts(sources)) && provider == Provider(sources)
      {
        OneMoreSource(sources, i);
        EmptyReference(sources[i]);
        if all[i] != NO_REF {
          refs := refs + [all[i]];
        }
        i := i + 1;
      }
      assert sources[..i] == sources;
    }

    /** Converts the target.  The JKS key goes to the annotations of the context. */
    method ConvertTarget(t: BundleTarget) returns (out: HubTarget)
      modifies this`annotations
      ensures out == TargetTo(t) && annotations == AnnotationsTo(old(annotations), t)
    {
      out := NO_TARGET.(namespaceSelector := t.namespaceSelector);
      if t.configMap.Some? {
        out := out.(configMap := Some(TemplateData(t.configMap.value, [])));
        AppendEntries(t.configMap.value, t);
      }
      if t.secret.Some? {
        out := out.(secret := Some(TemplateData(t.secret.value, [])));
        AppendEntries(t.secret.value, t);
      }
      if out == NO_TARGET {
        return;
      }
      if t.additionalFormats.Some? {
        if t.additionalFormats.value.jks.Some? {
          var jks := t.additionalFormats.value.jks.value;
          out := AppendEntry(out, JksEntry(jks));
          annotations := annotations[JKS_KEY_ANNOTATION := jks.key];
        }
        if t.additionalFormats.value.pkcs12.Some? {
          out := AppendEntry(out, Pkcs12Entry(t.additionalFormats.value.pkcs12.value));
        }
      }
      if t.namespaceSelector.None? {
        out := out.(namespaceSelector := Some(EMPTY_SELECTOR));
      }
    }
  }

  method AppendEntry(t: HubTarget, kv: TargetKeyValue) returns (out: HubTarget)
    ensures out == HubTarget(WithEntry(t.configMap, kv), WithEntry(t.secret, kv), t.namespaceSelector)
  {
    out := t;
    if t.configMap.Some? {
      out := out.(configMap := Some(t.configMap.value.(data := t.configMap.value.data + [kv])));
    }
    if t.secret.Some? {
      out := out.(secret := Some(t.secret.value.(data := t.secret.value.data + [kv])));
    }
  }

  function WithEntry(t: Option<KeyValueTarget>, kv: TargetKeyValue): Option<KeyValueTarget> {
    if t.Some? then Some(t.value.(data := t.value.data + [kv])) else None
  }

  /** Appending the entries of the additional formats one by one. */
  lemma AppendEntries(template: TargetTemplate, t: BundleTarget)
    ensures TemplateData(template, FormatEntries(t)).data
         == var plain := TemplateData(template, []).data;
            var withJks := if t.JksFormat().Some? then plain + [JksEntry(t.JksFormat().value)] else plain;
            if t.Pkcs12Format().Some? then withJks + [Pkcs12Entry(t.Pkcs12Format().value)] else withJks
  {
  }

  lemma NoSources(sources: seq<BundleSource>)
    ensures SourceRefs(sources[..0]) == [] && FoldTexts(InlineTexts(sources[..0])) == "" && Provider(sources[..0]) == ""
  {
  }

  lemma EmptyReference(s: BundleSource)
    ensures ReferenceTo(s) != NO_REF <==> IsReference(s)
  {
  }

  lemma OneMoreSource(sources: seq<BundleSource>, i: nat)
    requires i < |sources|
    ensures InlineTexts(sources[..i + 1]) == InlineTexts(sources[..i]) + [sources[i].inLine]
    ensures FoldTexts(InlineTexts(sources[..i + 1]))
         == var acc := FoldTexts(InlineTexts(sources[..i]));
            if sources[i].inLine == "" then acc
            else if acc == "" then sources[i].inLine else JoinTexts(acc, sources[i].inLine)
    ensures Provider(sources[..i + 1]) == match sources[i].useDefaultCAs
            case None => Provider(sources[..i])
            case Some(use) => if use then PROVIDER_SYSTEM else PROVIDER_DISABLED
    ensures SourceRefs(sources[..i + 1])
         == SourceRefs(sources[..i]) + if IsReference(sources[i]) then [ReferenceTo(sources[i])] else []
  {
    hide JoinTexts;
    assert sources[..i + 1][..i] == sources[..i];
    var texts := InlineTexts(sources[..i + 1]);
    assert texts[..i] == InlineTexts(sources[..i]);
  }

  method ConvertTo(b: Bundle) returns (h: ClusterBundle)
    ensures h == ToHub(b)
  {
    var context := new HubContext(b.meta.annotations);
    var target := context.ConvertTarget(b.spec.target);
    var refs := context.ConvertSources(b.spec.sources);
    h := ClusterBundle(b.meta.(annotations := context.annotations),
                       HubSpec(refs, context.provider, context.inLineCAs, target), b.status);
  }

  // ---------- Converting back, step by step ----------

  method FindPemKey(data: seq<TargetKeyValue>) returns (key: string)
    ensures key == PemKey(data)
  {
    var i := 0;
    while i < |data|
      invariant 0 <= i <= |data|
      invariant PemKey(data) == PemKey(data[i..])
    {
      if IsPemEntry(data[i]) {
        return data[i].key;
      }
      i := i + 1;
    }
    key := "";
  }

  method FindFormats(entries: seq<TargetKeyValue>, annotations: map<string, string>)
    returns (formats: Option<AdditionalFormats>)
    ensures formats == ScanFormats(entries, JksKey(annotations), NO_FORMATS)
  {
    hide ScanFormats, Pkcs12From;
    var jks: Option<JKS>, pkcs12: Option<PKCS12> := None, None;
    var i := 0;
    assert entries[i..] == entries;
    while i < |entries|
      invariant 0 <= i <= |entries|
      invariant jks.None? || pkcs12.None?
      invariant ScanFormats(entries, JksKey(annotations), NO_FORMATS)
             == ScanFormats(entries[i..], JksKey(annotations), AdditionalFormats(jks, pkcs12))
    {
      var kv := entries[i];
      ScanOne(kv, entries[i + 1..], JksKey(annotations), AdditionalFormats(jks, pkcs12));
      assert entries[i..] == [kv] + entries[i + 1..];
      if kv.format == FORMAT_PKCS12 {
        if JKS_KEY_ANNOTATION in annotations && annotations[JKS_KEY_ANNOTATION] == kv.key {
          if kv.password.None? {
            return None;
          }
          jks := Some(JKS(kv.key, kv.password.value));
        } else {
          pkcs12 := Some(Pkcs12From(kv));
        }
      }
      i := i + 1;
      if jks.Some? && pkcs12.Some? {
        break;
      }
    }
    ScanDone(entries[i..], JksKey(annotations), AdditionalFormats(jks, pkcs12));
    formats := Some(AdditionalFormats(jks, pkcs12));
  }

  method ConvertFrom(h: ClusterBundle) returns (b: Option<Bundle>)
    ensures b == FromHub(h)
  {
    var entries: seq<TargetKeyValue> := [];
    if h.spec.target.secret.Some? {
      entries := entries + h.spec.target.secret.value.data;
    }
    if h.spec.target.configMap.Some? {
      entries := entries + h.spec.target.configMap.value.data;
    }
    assert entries == Entries(h.spec.target);
    var formats := FindFormats(entries, h.meta.annotations);
    if formats.None? {
      return None;
    }
    var target := BundleTarget(None, None, None, h.spec.target.namespaceSelector);
    if h.spec.target.configMap.Some? {
      var key := FindPemKey(h.spec.target.configMap.value.data);
      target := target.(configMap := Some(TargetTemplate(key, h.spec.target.configMap.value.metadata)));
    }
    if h.spec.target.secret.Some? {
      var key := FindPemKey(h.spec.target.secret.value.data);
      target := target.(secret := Some(TargetTemplate(key, h.spec.target.secret.value.metadata)));
    }
    if formats.value.jks.Some? || formats.value.pkcs12.Some? {
      target := target.(additionalFormats := formats);
    }
    var sources: seq<BundleSource> := [];
    var i := 0;
    while i < |h.spec.sourceRefs|
      invariant 0 <= i <= |h.spec.sourceRefs|
      invariant sources == SourcesFromRefs(h.spec.sourceRefs[..i])
    {
      sources := sources + [SourceFrom(h.spec.sourceRefs[i])];
      i := i + 1;
    }
    assert h.spec.sourceRefs[..i] == h.spec.sourceRefs;
    if h.spec.inLineCAs != "" {
      sources := sources + [InlineSource(h.spec.inLineCAs)];
    }
    if h.spec.defaultCAs != "" {
      sources := sources + [DefaultSource(h.spec.defaultCAs == PROVIDER_SYSTEM)];
    }
    assert sources == SourcesFrom(h.spec);
    b := Some(Bundle(h.meta.(annotations := h.meta.annotations - {JKS_KEY_ANNOTATION}),
                     BundleSpec(sources, target), h.status));
  }
}
