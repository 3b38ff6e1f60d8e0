/**
 What converting a Bundle to a ClusterBundle and back preserves: exactly which Bundles survive the
 round trip, on which ones converting is a retraction, and when converting back panics.
 */
module ConversionProperties {
  import opened Prelude
  import opened Pem
  import opened BundleApi
  import opened ClusterBundleApi
  import opened Conversion

  // ---------- Sources of a ClusterBundle survive ----------

  /** What the v1alpha2 schema promises of the sources of a ClusterBundle. */
  ghost predicate WellFormedSources(spec: HubSpec) {
    && spec.defaultCAs in {"", PROVIDER_SYSTEM, PROVIDER_DISABLED}
    && forall i :: 0 <= i < |spec.sourceRefs| ==> spec.sourceRefs[i].kind in {CONFIG_MAP, SECRET}
  }

  lemma OneSourceMore(front: seq<BundleSource>, s: BundleSource)
    ensures var sources := front + [s];
            && SourceRefs(sources) == SourceRefs(front) + (if IsReference(s) then [ReferenceTo(s)] else [])
            && (Provider(sources) == match s.useDefaultCAs
                case None => Provider(front)
                case Some(use) => if use then PROVIDER_SYSTEM else PROVIDER_DISABLED)
            && (FoldTexts(InlineTexts(sources)) == var acc := FoldTexts(InlineTexts(front));
                if s.inLine == "" then acc else if acc == "" then s.inLine else JoinTexts(acc, s.inLine))
  {
    hide JoinTexts, FoldTexts;
    var n := |front|;
    assert (front + [s])[..n] == front && (front + [s])[..n + 1] == front + [s];
    OneMoreSource(front + [s], n);
  }

  lemma RefsFromAppend(refs: seq<BundleSourceRef>, ref: BundleSourceRef)
    ensures SourcesFromRefs(refs + [ref]) == SourcesFromRefs(refs) + [SourceFrom(ref)]
  {
  }

  lemma RefSurvives(ref: BundleSourceRef)
    requires ref.kind in {CONFIG_MAP, SECRET}
    ensures var s := SourceFrom(ref);
            IsReference(s) && ReferenceTo(s) == ref && s.inLine == "" && s.useDefaultCAs.None?
  {
  }

  lemma {:induction false} RefsSurvive(refs: seq<BundleSourceRef>)
    requires forall i :: 0 <= i < |refs| ==> refs[i].kind in {CONFIG_MAP, SECRET}
    ensures var sources := SourcesFromRefs(refs);
            && SourceRefs(sources) == refs && Provider(sources) == "" && FoldTexts(InlineTexts(sources)) == ""
  {
    if refs != [] {
      hide *;
      var n := |refs| - 1;
      RefsSurvive(refs[..n]);
      assert refs == refs[..n] + [refs[n]];
      RefsFromAppend(refs[..n], refs[n]);
      RefSurvives(refs[n]);
      OneSourceMore(SourcesFromRefs(refs[..n]), SourceFrom(refs[n]));
    }
  }

  /** Every well-formed ClusterBundle gets its sources back after a trip through v1alpha1. */
  lemma HubSourcesSurvive(spec: HubSpec)
    requires WellFormedSources(spec)
    ensures var sources := SourcesFrom(spec);
            && SourceRefs(sources) == spec.sourceRefs && Provider(sources) == spec.defaultCAs
            && FoldTexts(InlineTexts(sources)) == spec.inLineCAs
  {
    hide SourceRefs, Provider, FoldTexts, InlineTexts, SourcesFromRefs;
    var refs := SourcesFromRefs(spec.sourceRefs);
    RefsSurvive(spec.sourceRefs);
    var withText := refs + if spec.inLineCAs != "" then [InlineSource(spec.inLineCAs)] else [];
    OneSourceMore(refs, InlineSource(spec.inLineCAs));
    assert refs + [] == refs;
    OneSourceMore(withText, DefaultSource(spec.defaultCAs == PROVIDER_SYSTEM));
    assert withText + [] == withText;
  }

  lemma {:induction false} ConvertedIsWellFormed(sources: seq<BundleSource>)
    ensures WellFormedSources(HubSpec(SourceRefs(sources), Provider(sources),
                                      FoldTexts(InlineTexts(sources)), NO_TARGET))
  {
    if sources != [] {
      ConvertedIsWellFormed(sources[..|sources| - 1]);
    }
  }

  // ---------- Additional formats ----------

  function JksKeyTo(annotations: map<string, string>, t: BundleTarget): Option<string> {
    JksKey(AnnotationsTo(annotations, t))
  }

  function WithProfile(p: PKCS12): PKCS12 {
    p.(profile := if p.profile == "" then LEGACY_RC2 else p.profile)
  }

  /** The formats that come back.  A PKCS#12 format whose key is the annotated JKS key comes back as
      the JKS format; without a password the conversion panics on it (`None`). */
  function FormatsBack(annotations: map<string, string>, t: BundleTarget): Option<AdditionalFormats> {
    if !HasTarget(t) then Some(NO_FORMATS)
    else match t.Pkcs12Format()
      case None => Some(AdditionalFormats(t.JksFormat(), None))
      case Some(p) =>
        if JksKeyTo(annotations, t) != Some(p.key) then Some(AdditionalFormats(t.JksFormat(), Some(WithProfile(p))))
        else if p.password.None? then None
        else Some(AdditionalFormats(Some(JKS(p.key, p.password.value)), None))
  }

  /** Scanning on with the formats that come back. */
  function ScanOn(annotations: map<string, string>, t: BundleTarget, rest: seq<TargetKeyValue>)
    : Option<AdditionalFormats>
  {
    match FormatsBack(annotations, t)
    case None => None
    case Some(formats) => ScanFormats(rest, JksKeyTo(annotations, t), formats)
  }

  /** Scanning the data of one converted target, from nothing or after an equal target. */
  lemma ScanTemplate(annotations: map<string, string>, t: BundleTarget, template: TargetTemplate,
                     rest: seq<TargetKeyValue>, found: AdditionalFormats)
    requires HasTarget(t)
    requires found == NO_FORMATS || Some(found) == FormatsBack(annotations, t)
    ensures ScanFormats(TemplateData(template, FormatEntries(t)).data + rest, JksKeyTo(annotations, t), found)
         == ScanOn(annotations, t, rest)
  {
    hide ScanFormats;
    var key := JksKeyTo(annotations, t);
    var data := TemplateData(template, FormatEntries(t)).data;
    if found.jks.Some? && found.pkcs12.Some? {
      ScanDone(data + rest, key, found);
      ScanDone(rest, key, found);
    } else {
      var tail := FormatEntries(t) + rest;
      assert data + rest == [data[0]] + tail;
      ScanOne(data[0], tail, key, found);
      ScanEntries(annotations, t, rest, found);
    }
  }

  lemma {:induction false} ScanEntries(annotations: map<string, string>, t: BundleTarget,
                                       rest: seq<TargetKeyValue>, found: AdditionalFormats)
    requires HasTarget(t)
    requires found == NO_FORMATS || Some(found) == FormatsBack(annotations, t)
    requires found.jks.None? || found.pkcs12.None?
    ensures ScanFormats(FormatEntries(t) + rest, JksKeyTo(annotations, t), found) == ScanOn(annotations, t, rest)
  {
    hide ScanFormats;
    var key := JksKeyTo(annotations, t);
    var entries := FormatEntries(t);
    if t.JksFormat().None? && t.Pkcs12Format().None? {
      assert entries + rest == rest;
    } else if t.JksFormat().None? {
      ScanOne(entries[0], rest, key, found);
      assert entries == [entries[0]];
    } else if t.Pkcs12Format().None? {
      ScanOne(entries[0], rest, key, found);
      assert entries == [entries[0]];
    } else {
      assert entries + rest == [entries[0]] + ([entries[1]] + rest);
      ScanOne(entries[0], [entries[1]] + rest, key, found);
      ScanOne(entries[1], rest, key, found.(jks := t.JksFormat()));
    }
  }

  lemma FormatsRestored(annotations: map<string, string>, t: BundleTarget)
    ensures FormatsFrom(TargetTo(t), AnnotationsTo(annotations, t)) == FormatsBack(annotations, t)
  {
    hide ScanFormats;
    var formats := FormatEntries(t);
    var secret := if t.secret.Some? then TemplateData(t.secret.value, formats).data else [];
    var configMap := if t.configMap.Some? then TemplateData(t.configMap.value, formats).data else [];
    assert Entries(TargetTo(t)) == secret + configMap;
    hide FormatEntries, TargetTo, TemplateData;
    var key, back := JksKeyTo(annotations, t), FormatsBack(annotations, t);
    assert configMap + [] == configMap && secret + [] == secret && [] + configMap == configMap;
    if back.Some? {
      ScanDone([], key, back.value);
    }
    if t.secret.Some? {
      ScanTemplate(annotations, t, t.secret.value, configMap, NO_FORMATS);
    }
    if t.configMap.Some? {
      ScanTemplate(annotations, t, t.configMap.value, [],
                   if t.secret.Some? && back.Some? then back.value else NO_FORMATS);
    }
  }

  /** Converting back panics exactly on a target whose PKCS#12 format has no password and the key that
      the annotation marks as the JKS key. */
  lemma ConversionBackIsTotal(b: Bundle)
    ensures var t := b.spec.target;
            FromHub(ToHub(b)).None? <==>
            HasTarget(t) && t.Pkcs12Format().Some? && t.Pkcs12Format().value.password.None?
            && JksKeyTo(b.meta.annotations, t) == Some(t.Pkcs12Format().value.key)
  {
    hide FormatsFrom, TargetTo, AnnotationsTo;
    FormatsRestored(b.meta.annotations, b.spec.target);
  }

  // ---------- The Bundle that comes back ----------

  function SelectorBack(t: BundleTarget): Option<LabelSelector> {
    if !IsEmptyTarget(t) && t.namespaceSelector.None? then Some(EMPTY_SELECTOR) else t.namespaceSelector
  }

  function SourcesBack(sources: seq<BundleSource>): seq<BundleSource> {
    SourcesFrom(HubSpec(SourceRefs(sources), Provider(sources), FoldTexts(InlineTexts(sources)), NO_TARGET))
  }

  /** There and back: the same templates, an explicit selector, the formats that come back, the sources
      regrouped, and no JKS annotation. */
  lemma ThereAndBack(b: Bundle)
    ensures var t := b.spec.target;
            var formats := FormatsBack(b.meta.annotations, t);
            FromHub(ToHub(b)) == if formats.None? then None else Some(
              Bundle(b.meta.(annotations := b.meta.annotations - {JKS_KEY_ANNOTATION}),
                     BundleSpec(SourcesBack(b.spec.sources),
                                BundleTarget(t.configMap, t.secret,
                                             if formats.value == NO_FORMATS then None else formats,
                                             SelectorBack(t))),
                     b.status))
  {
    var t, a := b.spec.target, b.meta.annotations;
    FormatsRestored(a, t);
    assert AnnotationsTo(a, t) - {JKS_KEY_ANNOTATION} == a - {JKS_KEY_ANNOTATION};
    hide FormatsFrom, FormatsBack, SourceRefs, Provider, FoldTexts, InlineTexts;
    assert t.configMap.Some? ==> TemplateFrom(TemplateData(t.configMap.value, FormatEntries(t))) == t.configMap.value;
    assert t.secret.Some? ==> TemplateFrom(TemplateData(t.secret.value, FormatEntries(t))) == t.secret.value;
  }

  // ---------- Converting is a retraction, exactly when ----------

  /** The Bundles whose ClusterBundle survives a trip through v1alpha1. */
  predicate Retracts(b: Bundle) {
    var t, a := b.spec.target, JksKey(b.meta.annotations);
    if HasTarget(t) then
      if t.JksFormat().Some?
      then t.Pkcs12Format().None? || t.Pkcs12Format().value.key != t.JksFormat().value.key
      else a.None?
    else a.None? && (t.JksFormat().None? || t.namespaceSelector.None?)
  }

  lemma Retraction(b: Bundle)
    ensures FromHub(ToHub(b)).Some? && ToHub(FromHub(ToHub(b)).value) == ToHub(b) <==> Retracts(b)
  {
    ThereAndBack(b);
    var t, a := b.spec.target, b.meta.annotations;
    ConvertedIsWellFormed(b.spec.sources);
    HubSourcesSurvive(HubSpec(SourceRefs(b.spec.sources), Provider(b.spec.sources),
                              FoldTexts(InlineTexts(b.spec.sources)), NO_TARGET));
    hide SourceRefs, Provider, FoldTexts, InlineTexts, SourcesFrom, FromHub;
    if FormatsBack(a, t).Some? {
      var formats := FormatsBack(a, t).value;
      var back := BundleTarget(t.configMap, t.secret, if formats == NO_FORMATS then None else Some(formats),
                               SelectorBack(t));
      TargetRetracts(a, t, back);
    } else {
      PanicIsNoRetraction(b);
    }
  }

  lemma PanicIsNoRetraction(b: Bundle)
    requires FormatsBack(b.meta.annotations, b.spec.target).None?
    ensures !Retracts(b)
  {
  }

  lemma SameEntries(template: TargetTemplate, a: seq<TargetKeyValue>, b: seq<TargetKeyValue>)
    ensures TemplateData(template, a) == TemplateData(template, b) <==> a == b
  {
    PrefixCancels([TargetKeyValue(template.key, "", None, "")], a, b);
  }

  /** The additional formats come back as they went. */
  lemma EntriesRetract(a: map<string, string>, t: BundleTarget, back: BundleTarget)
    requires HasTarget(t) && FormatsBack(a, t).Some?
    requires back.additionalFormats == if FormatsBack(a, t).value == NO_FORMATS then None else FormatsBack(a, t)
    ensures FormatEntries(back) == FormatEntries(t) <==>
            (t.Pkcs12Format().Some? ==> JksKeyTo(a, t) != Some(t.Pkcs12Format().value.key))
    ensures back.JksFormat() == FormatsBack(a, t).value.jks
  {
    if t.Pkcs12Format().Some? {
      if JksKeyTo(a, t) == Some(t.Pkcs12Format().value.key) {
        assert |FormatEntries(back)| == 1 && FormatEntries(back)[0].profile == "";
        assert FormatEntries(t)[|FormatEntries(t)| - 1].profile != "";
      }
    }
  }

  lemma AnnotationsRetract(a: map<string, string>, jks: Option<string>, jks': Option<string>)
    ensures var a' := a - {JKS_KEY_ANNOTATION};
            (if jks'.Some? then a'[JKS_KEY_ANNOTATION := jks'.value] else a')
            == (if jks.Some? then a[JKS_KEY_ANNOTATION := jks.value] else a)
            <==> jks' == if jks.Some? then jks else JksKey(a)
  {
    var a' := a - {JKS_KEY_ANNOTATION};
    var x := if jks'.Some? then a'[JKS_KEY_ANNOTATION := jks'.value] else a';
    var y := if jks.Some? then a[JKS_KEY_ANNOTATION := jks.value] else a;
    assert JksKey(x) == jks' && JksKey(y) == if jks.Some? then jks else JksKey(a);
    forall k | JksKey(x) == JksKey(y) && (k in x || k in y)
      ensures k in x && k in y && x[k] == y[k]
    {
      assert k == JKS_KEY_ANNOTATION || (k in a && x[k] == a[k] == y[k]);
    }
  }

  lemma TargetRetracts(a: map<string, string>, t: BundleTarget, back: BundleTarget)
    requires FormatsBack(a, t).Some?
    requires back == BundleTarget(t.configMap, t.secret,
                                  if FormatsBack(a, t).value == NO_FORMATS then None else FormatsBack(a, t),
                                  SelectorBack(t))
    ensures var a' := a - {JKS_KEY_ANNOTATION};
            TargetTo(back) == TargetTo(t) && AnnotationsTo(a', back) == AnnotationsTo(a, t) <==>
            if HasTarget(t) then
              if t.JksFormat().Some?
              then t.Pkcs12Format().None? || t.Pkcs12Format().value.key != t.JksFormat().value.key
              else JksKey(a).None?
            else JksKey(a).None? && (t.JksFormat().None? || t.namespaceSelector.None?)
  {
    if HasTarget(t) {
      EntriesRetract(a, t, back);
      if t.configMap.Some? {
        SameEntries(t.configMap.value, FormatEntries(back), FormatEntries(t));
      }
      if t.secret.Some? {
        SameEntries(t.secret.value, FormatEntries(back), FormatEntries(t));
      }
      assert TargetTo(back) == TargetTo(t) <==> FormatEntries(back) == FormatEntries(t) by {
        hide FormatEntries, TemplateData, FormatsBack;
      }
      hide FormatEntries, TargetTo;
    }
    AnnotationsRetract(a, KeyOf(t), KeyOf(back));
  }

  function KeyOf(t: BundleTarget): Option<string> {
    if !IsEmptyTarget(t) && t.JksFormat().Some? then Some(t.JksFormat().value.key) else None
  }

  // ---------- Normal forms ----------

  predicate PlainSelector(ref: SourceObjectKeySelector) {
    if ref.includeAllKeys.None? then ref.key != ALL_KEYS else ref.AllKeys() && ref.key == ""
  }

  predicate PlainReference(s: BundleSource) {
    && s.inLine == "" && s.useDefaultCAs.None?
    && (if s.configMap.Some? then s.secret.None? && PlainSelector(s.configMap.value)
        else s.secret.Some? && PlainSelector(s.secret.value))
  }

  predicate PlainSource(s: BundleSource) {
    if IsReference(s) then PlainReference(s)
    else if s.inLine != "" then s.useDefaultCAs.None?
    else s.useDefaultCAs.Some?
  }

  /** References come first, then inline text, then default CAs. */
  function Rank(s: BundleSource): nat {
    if IsReference(s) then 0 else if s.inLine != "" then 1 else 2
  }

  /** Any number of plain references, at most one inline text, at most one default-CA source. */
  predicate NormalSources(sources: seq<BundleSource>) {
    && (forall i :: 0 <= i < |sources| ==> PlainSource(sources[i]))
    && (forall i, j :: 0 <= i < j < |sources| ==>
          Rank(sources[i]) == Rank(sources[j]) == 0 || Rank(sources[i]) < Rank(sources[j]))
  }

  predicate NormalTarget(t: BundleTarget) {
    if HasTarget(t) then
      && t.namespaceSelector.Some? && t.additionalFormats != Some(NO_FORMATS)
      && (t.Pkcs12Format().Some? ==>
            t.Pkcs12Format().value.profile != ""
            && (t.JksFormat().Some? ==> t.JksFormat().value.key != t.Pkcs12Format().value.key))
    else t.additionalFormats.None?
  }

  predicate Normal(b: Bundle) {
    && NormalSources(b.spec.sources) && NormalTarget(b.spec.target)
    && JKS_KEY_ANNOTATION !in b.meta.annotations
  }

  lemma {:induction false} NothingPromoted(sources: seq<BundleSource>)
    ensures (forall i :: 0 <= i < |sources| ==> sources[i].inLine == "") ==> FoldTexts(InlineTexts(sources)) == ""
    ensures (forall i :: 0 <= i < |sources| ==> sources[i].useDefaultCAs.None?) ==> Provider(sources) == ""
    ensures (forall i :: 0 <= i < |sources| ==> !IsReference(sources[i])) ==> SourceRefs(sources) == []
  {
    if sources != [] {
      var n := |sources| - 1;
      NothingPromoted(sources[..n]);
      assert sources == sources[..n] + [sources[n]];
      hide FoldTexts, InlineTexts, Provider, JoinTexts, SourceRefs;
      OneSourceMore(sources[..n], sources[n]);
    }
  }

  lemma PlainReferenceBack(s: BundleSource)
    requires IsReference(s)
    ensures SourceFrom(ReferenceTo(s)) == s <==> PlainReference(s)
  {
  }

  lemma OneMoreComesBack(front: seq<BundleSource>, s: BundleSource)
    requires SourcesBack(front) == front && PlainSource(s)
    requires Provider(front) == "" && (Rank(s) < 2 ==> FoldTexts(InlineTexts(front)) == "")
    ensures SourcesBack(front + [s]) == front + [s]
  {
    OneSourceMore(front, s);
    RefsFromAppend(SourceRefs(front), ReferenceTo(s));
    hide SourceRefs, Provider, FoldTexts, InlineTexts, SourcesFromRefs, JoinTexts;
    var refs, text := SourcesFromRefs(SourceRefs(front)), FoldTexts(InlineTexts(front));
    assert !IsReference(s) ==> SourceRefs(front + [s]) == SourceRefs(front);
    assert front == refs + if text != "" then [InlineSource(text)] else [];
    if IsReference(s) {
      PlainReferenceBack(s);
      assert SourcesBack(front + [s]) == refs + [s];
    } else if s.inLine != "" {
      assert s == InlineSource(s.inLine);
      assert SourcesBack(front + [s]) == refs + [s];
    } else {
      assert s == DefaultSource(s.useDefaultCAs.value);
      assert Provider(front + [s]) == if s.useDefaultCAs.value then PROVIDER_SYSTEM else PROVIDER_DISABLED;
      assert SourcesBack(front + [s]) == front + [s];
    }
  }

  lemma {:induction false} NormalSourcesComeBack(sources: seq<BundleSource>)
    requires NormalSources(sources)
    ensures SourcesBack(sources) == sources
  {
    if sources != [] {
      var n := |sources| - 1;
      var front, s := sources[..n], sources[n];
      LowerRanks(sources);
      hide SourcesBack, Provider, FoldTexts, InlineTexts;
      NormalSourcesComeBack(front);
      NothingPromoted(front);
      OneMoreComesBack(front, s);
      assert front + [s] == sources;
    } else {
      assert SourcesFromRefs([]) == [];
    }
  }

  /** In a normal list only references precede references and inline text, and no default precedes a default. */
  lemma LowerRanks(sources: seq<BundleSource>)
    requires NormalSources(sources) && sources != []
    ensures var n := |sources| - 1;
            && NormalSources(sources[..n]) && PlainSource(sources[n])
            && (forall i :: 0 <= i < n ==> sources[..n][i].useDefaultCAs.None?)
            && (Rank(sources[n]) < 2 ==> forall i :: 0 <= i < n ==> sources[..n][i].inLine == "")
  {
    var n := |sources| - 1;
    forall i | 0 <= i < n
      ensures sources[i].useDefaultCAs.None? && (Rank(sources[n]) < 2 ==> sources[i].inLine == "")
    {
      assert PlainSource(sources[i]) && (Rank(sources[i]) == 0 || Rank(sources[i]) < Rank(sources[n]));
    }
  }

  lemma WhatComesBackIsNormal(spec: HubSpec)
    requires WellFormedSources(spec)
    ensures NormalSources(SourcesFrom(spec))
  {
    var refs := SourcesFromRefs(spec.sourceRefs);
    forall i | 0 <= i < |refs|
      ensures PlainSource(refs[i]) && Rank(refs[i]) == 0
    {
      assert refs[i] == SourceFrom(spec.sourceRefs[i]);
    }
    var sources := SourcesFrom(spec);
    forall i | |refs| <= i < |sources|
      ensures PlainSource(sources[i]) && Rank(sources[i]) > 0
    {
    }
  }

  lemma SourcesComeBack(sources: seq<BundleSource>)
    ensures SourcesBack(sources) == sources <==> NormalSources(sources)
  {
    ConvertedIsWellFormed(sources);
    WhatComesBackIsNormal(HubSpec(SourceRefs(sources), Provider(sources), FoldTexts(InlineTexts(sources)), NO_TARGET));
    if NormalSources(sources) {
      NormalSourcesComeBack(sources);
    }
  }

  /** The Bundles that come back unchanged from a trip through v1alpha2 are exactly the normal ones. */
  lemma RoundTrip(b: Bundle)
    ensures FromHub(ToHub(b)) == Some(b) <==> Normal(b)
  {
    ThereAndBack(b);
    SourcesComeBack(b.spec.sources);
    hide NormalSources, SourcesBack, FromHub, ToHub;
    var a := b.meta.annotations;
    assert a - {JKS_KEY_ANNOTATION} == a <==> JKS_KEY_ANNOTATION !in a;
  }

  /** Whatever comes back is normal: a second trip changes nothing. */
  lemma BackIsNormal(b: Bundle)
    requires FromHub(ToHub(b)).Some?
    ensures Normal(FromHub(ToHub(b)).value)
  {
    ThereAndBack(b);
    ConvertedIsWellFormed(b.spec.sources);
    WhatComesBackIsNormal(HubSpec(SourceRefs(b.spec.sources), Provider(b.spec.sources),
                                  FoldTexts(InlineTexts(b.spec.sources)), NO_TARGET));
    hide NormalSources, SourceRefs, Provider, FoldTexts, InlineTexts, FromHub, ToHub;
  }
}
