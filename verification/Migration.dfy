/**
 What admission guarantees downstream, and that migrating an admitted Bundle to a ClusterBundle keeps
 its meaning: the same build, the same targets, the same rendered data.
 */
module Migration {
  import opened Prelude
  import opened Pem
  import opened CertPools
  import opened PoolProperties
  import opened Packages
  import opened BundleApi
  import opened ClusterBundleApi
  import opened Sources
  import opened Targets
  import opened Reconciler
  import ReconcileProperties
  import opened Conversion
  import opened ConversionProperties
  import opened Webhook

  // ---------- Admission makes everything downstream total ----------

  /** The annotation marks the key of the PKCS#12 format as a JKS key, although there is no JKS format. */
  predicate MarksPkcs12(b: Bundle) {
    var t := b.spec.target;
    HasTarget(t) && t.JksFormat().None? && t.Pkcs12Format().Some?
    && JksKey(b.meta.annotations) == Some(t.Pkcs12Format().value.key)
  }

  /** For an admitted Bundle converting back panics exactly if a leftover annotation marks a PKCS#12
      format without a password; in particular never without that annotation. */
  lemma AdmittedConvertsBack(syntax: Syntax, b: Bundle)
    requires Admits(syntax, b)
    ensures FromHub(ToHub(b)).None? <==> MarksPkcs12(b) && b.spec.target.Pkcs12Format().value.password.None?
  {
    hide FromHub, ToHub;
    ConversionBackIsTotal(b);
  }

  /** A reconcile of an admitted Bundle neither panics on a source nor stops at an unusable namespace selector;
      it can only panic on a PKCS#12 format without a password. */
  lemma AdmittedReconciles(syntax: Syntax, w: World, before: TargetMap, after: TargetMap, tr: Trace,
                           patch: Option<BundleStatus>, err: bool, events: nat)
    requires Admits(syntax, w.bundle) && Reconciled(w, before, after, tr, patch, err, events)
    ensures !HasUntyped(w.bundle.spec.sources)
    ensures !tr.stage.SourcesPanicked? && !tr.stage.SelectorInvalid?
    ensures tr.stage.ApplyPanicked? ==>
              w.bundle.spec.target.Pkcs12Format().Some? && w.bundle.spec.target.Pkcs12Format().value.password.None?
  {
    AdmittedIsTyped(w.bundle.spec.sources);
    ReconcileProperties.StopsFor(w, before, after, tr, patch, err, events);
    hide Reconciled, AdmittedSources, SourceSyntax, AvoidsOwnTarget, DistinctKeys, AdmittedMetadata, HasUntyped;
    hide ResolvedInto, Buildable, DesiredBy, NeedsApply, RenderFor, PemText;
  }

  lemma AdmittedIsTyped(sources: seq<BundleSource>)
    requires AdmittedSources(sources)
    ensures !HasUntyped(sources)
  {
    forall s | s in sources
      ensures !Untyped(s)
    {
      var i :| 0 <= i < |sources| && sources[i] == s;
      assert AdmittedSource(sources[i]);
    }
  }

  /** An admitted reference fails to select objects only when it names a missing one, and it takes no text from
      an object only when it wants all keys and the object is empty. */
  lemma AdmittedReferenceSelects(ref: SourceObjectKeySelector, objects: map<string, SourceObject>, obj: SourceObject)
    requires AdmittedReference(ref)
    ensures RefNames(objects, ref).None? <==> ref.name != "" && ref.name !in objects
    ensures ObjectTexts(ref, obj) == Some({}) <==>
            ref.key == "" && obj.data == map[] && (if obj.ConfigMapObject? then obj.binaryData == map[] else !obj.tls)
  {
    if ref.key == "" {
      ValuesEmpty(obj.data);
      if obj.ConfigMapObject? {
        ValuesEmpty(obj.binaryData);
        NoUnion(Sources.Values(obj.data), Sources.Values(obj.binaryData));
      }
    } else if ObjectTexts(ref, obj).Some? {
      var t :| t in ObjectTexts(ref, obj).value;
    }
  }

  lemma NoUnion<T>(a: set<T>, b: set<T>)
    ensures a + b == {} <==> a == {} && b == {}
  {
    assert a <= a + b && b <= a + b;
  }

  lemma ValuesEmpty(data: map<string, string>)
    ensures Sources.Values(data) == {} <==> data == map[]
  {
    if data != map[] {
      var k :| k in data;
      assert data[k] in Sources.Values(data);
    }
  }

  predicate PairwiseDistinct(data: seq<TargetKeyValue>) {
    forall i, j :: 0 <= i < j < |data| ==> data[i].key != data[j].key
  }

  /** The entries of every converted target of an admitted Bundle are a map by key, as v1alpha2 demands. */
  lemma AdmittedDataIsAMap(syntax: Syntax, b: Bundle, target: KeyValueTarget)
    requires Admits(syntax, b)
    requires Some(target) in {ToHub(b).spec.target.configMap, ToHub(b).spec.target.secret}
    ensures target.data != [] && PairwiseDistinct(target.data)
  {
    hide SourceRefs, Provider, FoldTexts, AdmittedSources, AvoidsOwnTarget;
    var t := b.spec.target;
    var template :| t.configMap == Some(template) || t.secret == Some(template);
    assert target.data[1..] == FormatEntries(t);
    assert DistinctKeys(t);
  }

  // ---------- One source at a time ----------

  function KeyOfSource(s: BundleSource): string {
    if s.secret.Some? then s.secret.value.key else if s.configMap.Some? then s.configMap.value.key else ""
  }

  function SelectorBackOf(ref: SourceObjectKeySelector): SourceObjectKeySelector {
    if ref.AllKeys() || ref.key == ALL_KEYS then SourceObjectKeySelector(ref.name, ref.selector, "", Some(true))
    else SourceObjectKeySelector(ref.name, ref.selector, ref.key, None)
  }

  /** A migrated reference takes the same texts from every object, if and only if its key is not the
      wildcard that v1alpha2 gives a meaning to. */
  lemma ReferenceKeepsMeaning(ref: SourceObjectKeySelector)
    requires AdmittedReference(ref)
    ensures (forall obj :: ObjectTexts(SelectorBackOf(ref), obj) == ObjectTexts(ref, obj)) <==> ref.key != ALL_KEYS
  {
    if ref.key == ALL_KEYS {
      var other := SecretObject(map[], map["ca.crt" := ""], false);
      assert "ca.crt" in other.data && other.data["ca.crt"] in Values(other.data);
      assert ObjectTexts(ref, other).None? && ObjectTexts(SelectorBackOf(ref), other).Some?;
    }
  }

  lemma ReferenceBack(env: Env, s: BundleSource)
    requires AdmittedSource(s) && IsReference(s) && KeyOfSource(s) != ALL_KEYS
    ensures SourceTexts(env, SourceFrom(ReferenceTo(s))) == SourceTexts(env, s)
  {
    if s.secret.Some? {
      TextsBack(env.secrets, s.secret.value);
    } else {
      TextsBack(env.configMaps, s.configMap.value);
    }
    hide RefTexts, AdmittedReference;
  }

  lemma TextsBack(objects: map<string, SourceObject>, ref: SourceObjectKeySelector)
    requires AdmittedReference(ref) && ref.key != ALL_KEYS
    ensures RefTexts(objects, SelectorBackOf(ref)) == RefTexts(objects, ref)
  {
    ReferenceKeepsMeaning(ref);
    var back := SelectorBackOf(ref);
    assert RefNames(objects, back) == RefNames(objects, ref);
    hide ObjectTexts;
    assert forall names :: NamedTexts(objects, back, names) == NamedTexts(objects, ref, names);
  }

  // ---------- All inline texts together ----------

  lemma {:induction false} BlocksOfAllContribute(x: Crypto, texts: seq<string>, c: Certificate)
    ensures !Rejects(x, BlocksOfAll(texts)) <==> forall t :: t in texts ==> AcceptsText(x, t)
    ensures !Rejects(x, BlocksOfAll(texts)) ==>
              (c in Admitted(x, BlocksOfAll(texts)) <==> exists t :: t in texts && c in Admitted(x, Blocks(t)))
  {
    hide Blocks, Rejects, Admitted;
    if texts != [] {
      var n := |texts| - 1;
      var front, last := texts[..n], texts[n];
      BlocksOfAllContribute(x, front, c);
      AdmittedAppend(x, BlocksOfAll(front), Blocks(last));
      assert texts == front + [last];
      assert AcceptsText(x, last) == !Rejects(x, Blocks(last));
      assert BlocksOfAll(texts) == BlocksOfAll(front) + Blocks(last);
    } else {
      NothingAdmitted(x);
    }
  }

  lemma NothingAdmitted(x: Crypto)
    ensures !Rejects(x, []) && Admitted(x, []) == []
  {
  }

  /** Unless two texts glue together, the folded text is accepted iff all texts are, and then it
      contributes what they contribute. */
  lemma FoldContributes(env: Env, texts: seq<string>, c: Certificate)
    requires !Glues(texts)
    ensures AcceptsText(env.crypto, FoldTexts(texts)) <==> forall t :: t in texts ==> AcceptsText(env.crypto, t)
    ensures AcceptsText(env.crypto, FoldTexts(texts)) ==>
              (c in Contribution(env, FoldTexts(texts)) <==> exists t :: t in texts && c in Contribution(env, t))
  {
    hide Blocks, Rejects, Admitted, FoldTexts, Glues;
    FoldKeepsBlocks(texts);
    BlocksOfAllContribute(env.crypto, texts, c);
  }

  // ---------- The whole source list ----------

  lemma {:induction false} RefsAreOfSources(sources: seq<BundleSource>, ref: BundleSourceRef)
    ensures ref in SourceRefs(sources) <==> exists s :: s in sources && IsReference(s) && ReferenceTo(s) == ref
  {
    if sources != [] {
      var n := |sources| - 1;
      RefsAreOfSources(sources[..n], ref);
      assert sources == sources[..n] + [sources[n]];
      hide ReferenceTo;
    }
  }

  lemma {:induction false} ProviderIsOfSources(sources: seq<BundleSource>)
    ensures Provider(sources) == "" <==> forall s :: s in sources ==> s.useDefaultCAs.None?
    ensures Provider(sources) != "" ==>
              exists s :: s in sources && s.useDefaultCAs == Some(Provider(sources) == PROVIDER_SYSTEM)
  {
    if sources != [] {
      var n := |sources| - 1;
      ProviderIsOfSources(sources[..n]);
      assert sources == sources[..n] + [sources[n]];
    }
  }

  /** The one default-CA source of an admitted Bundle decides. */
  lemma ProviderOfAdmitted(sources: seq<BundleSource>, s: BundleSource)
    requires AdmittedSources(sources) && s in sources && s.useDefaultCAs.Some?
    ensures s == DefaultSource(Provider(sources) == PROVIDER_SYSTEM)
    ensures Provider(sources) != ""
  {
    ProviderIsOfSources(sources);
    var o :| o in sources && o.useDefaultCAs == Some(Provider(sources) == PROVIDER_SYSTEM);
    var i :| 0 <= i < |sources| && sources[i] == s;
    var j :| 0 <= j < |sources| && sources[j] == o;
    assert AdmittedSource(sources[i]);
  }

  /** What is in the list that comes back. */
  lemma ComesBack(sources: seq<BundleSource>, s': BundleSource)
    ensures var text := FoldTexts(InlineTexts(sources));
            s' in SourcesBack(sources) <==>
            || (exists s :: s in sources && IsReference(s) && s' == SourceFrom(ReferenceTo(s)))
            || (text != "" && s' == InlineSource(text))
            || (Provider(sources) != "" && s' == DefaultSource(Provider(sources) == PROVIDER_SYSTEM))
  {
    hide FoldTexts, InlineTexts, Provider, SourceFrom, ReferenceTo, SourceRefs;
    forall ref: BundleSourceRef
      ensures ref in SourceRefs(sources) <==> exists s :: s in sources && IsReference(s) && ReferenceTo(s) == ref
    {
      RefsAreOfSources(sources, ref);
    }
    RefsFromContains(SourceRefs(sources), s');
    hide SourcesFromRefs;
  }

  lemma RefsFromContains(refs: seq<BundleSourceRef>, s: BundleSource)
    ensures s in SourcesFromRefs(refs) <==> exists ref :: ref in refs && s == SourceFrom(ref)
  {
    hide SourceFrom;
    var sources := SourcesFromRefs(refs);
    if s in sources {
      var i :| 0 <= i < |sources| && sources[i] == s;
      assert refs[i] in refs;
    }
    if ref :| ref in refs && s == SourceFrom(ref) {
      var i :| 0 <= i < |refs| && refs[i] == ref;
      assert sources[i] == s;
    }
  }

  lemma InlineTextOf(sources: seq<BundleSource>, t: string)
    ensures t in InlineTexts(sources) <==> exists s :: s in sources && s.inLine == t
  {
    if s :| s in sources && s.inLine == t {
      var i :| 0 <= i < |sources| && sources[i] == s;
      assert InlineTexts(sources)[i] == t;
    }
    if t in InlineTexts(sources) {
      var i :| 0 <= i < |sources| && InlineTexts(sources)[i] == t;
      assert sources[i] in sources;
    }
  }

  /** The kinds of an admitted source. */
  lemma AdmittedIs(sources: seq<BundleSource>, s: BundleSource)
    requires AdmittedSources(sources) && s in sources
    ensures AdmittedSource(s)
    ensures IsReference(s) || (s.inLine != "" && s == InlineSource(s.inLine))
            || (s.useDefaultCAs.Some? && s == DefaultSource(s.useDefaultCAs.value))
    ensures IsReference(s) || s.useDefaultCAs.Some? ==> s.inLine == ""
    ensures IsReference(s) ==> s.useDefaultCAs.None?
  {
    var i :| 0 <= i < |sources| && sources[i] == s;
    assert AdmittedSource(sources[i]);
  }

  /** Conditions under which the sources keep their meaning: no key is the wildcard of v1alpha2, and no
      inline text closes a block that texts before it left open. */
  ghost predicate Portable(sources: seq<BundleSource>) {
    && (forall s :: s in sources ==> KeyOfSource(s) != ALL_KEYS)
    && !Glues(InlineTexts(sources))
  }

  ghost predicate UsableSource(env: Env, s: BundleSource) {
    Usable(env, SourceTexts(env, s))
  }

  ghost predicate Contributes(env: Env, s: BundleSource, c: Certificate) {
    SourceTexts(env, s).Some? && c in Contributions(env, SourceTexts(env, s).value)
  }

  lemma InlineContributes(env: Env, text: string, c: Certificate)
    requires text != ""
    ensures UsableSource(env, InlineSource(text)) <==> AcceptsText(env.crypto, text)
    ensures Contributes(env, InlineSource(text), c) <==> c in Contribution(env, text)
  {
    hide AcceptsText, Contribution;
    assert SourceTexts(env, InlineSource(text)) == Some({text});
  }

  lemma EmptyContributes(env: Env, c: Certificate)
    ensures AcceptsText(env.crypto, "") && c !in Contribution(env, "")
  {
    NothingAdmitted(env.crypto);
  }

  /** Every source that comes back is usable, if all were; and it contributes nothing new. */
  lemma BackToSources(env: Env, sources: seq<BundleSource>, s': BundleSource, c: Certificate)
    requires AdmittedSources(sources) && Portable(sources) && s' in SourcesBack(sources)
    requires forall s :: s in sources ==> UsableSource(env, s)
    ensures UsableSource(env, s')
    ensures Contributes(env, s', c) ==> exists s :: s in sources && Contributes(env, s, c)
  {
    ComesBack(sources, s');
    hide UsableSource, Contributes, SourceTexts, AcceptsText, Contribution, SourceFrom, ReferenceTo, SourcesBack;
    hide Glues, FoldTexts, InlineTexts, AdmittedSources, Provider;
    var text := FoldTexts(InlineTexts(sources));
    if s :| s in sources && IsReference(s) && s' == SourceFrom(ReferenceTo(s)) {
      AdmittedIs(sources, s);
      ReferenceBack(env, s);
      SameTexts(env, s, s', c);
    } else if text != "" && s' == InlineSource(text) {
      FoldBack(env, sources, c);
    } else {
      ProviderIsOfSources(sources);
      var s :| s in sources && s.useDefaultCAs == Some(Provider(sources) == PROVIDER_SYSTEM);
      AdmittedIs(sources, s);
    }
  }

  lemma SameTexts(env: Env, s: BundleSource, s': BundleSource, c: Certificate)
    requires SourceTexts(env, s) == SourceTexts(env, s')
    ensures UsableSource(env, s) == UsableSource(env, s') && Contributes(env, s, c) == Contributes(env, s', c)
  {
  }

  lemma FoldBack(env: Env, sources: seq<BundleSource>, c: Certificate)
    requires AdmittedSources(sources) && Portable(sources) && FoldTexts(InlineTexts(sources)) != ""
    requires forall s :: s in sources ==> UsableSource(env, s)
    ensures var s' := InlineSource(FoldTexts(InlineTexts(sources)));
            UsableSource(env, s') && (Contributes(env, s', c) ==> exists s :: s in sources && Contributes(env, s, c))
  {
    hide UsableSource, Contributes, AcceptsText, Contribution, FoldTexts, InlineTexts, AdmittedSources, Glues;
    var texts := InlineTexts(sources);
    FoldContributes(env, texts, c);
    InlineContributes(env, FoldTexts(texts), c);
    EmptyContributes(env, c);
    forall t | t in texts
      ensures AcceptsText(env.crypto, t)
      ensures c in Contribution(env, t) ==> exists s :: s in sources && Contributes(env, s, c)
    {
      InlineTextOf(sources, t);
      var s :| s in sources && s.inLine == t;
      if t != "" {
        AdmittedIs(sources, s);
        InlineContributes(env, t, c);
      }
    }
  }

  /** Every source is usable, if all that come back are; and its contribution comes back. */
  lemma SourcesToBack(env: Env, sources: seq<BundleSource>, s: BundleSource, c: Certificate)
    requires AdmittedSources(sources) && Portable(sources) && s in sources
    requires forall s' :: s' in SourcesBack(sources) ==> UsableSource(env, s')
    ensures UsableSource(env, s)
    ensures Contributes(env, s, c) ==> exists s' :: s' in SourcesBack(sources) && Contributes(env, s', c)
  {
    AdmittedIs(sources, s);
    hide UsableSource, Contributes, SourceTexts, AcceptsText, Contribution, SourceFrom, ReferenceTo, SourcesBack;
    hide Glues, FoldTexts, InlineTexts, AdmittedSources, Provider;
    if IsReference(s) {
      var s' := SourceFrom(ReferenceTo(s));
      ComesBack(sources, s');
      ReferenceBack(env, s);
      SameTexts(env, s, s', c);
    } else if s.useDefaultCAs.Some? {
      ProviderOfAdmitted(sources, s);
      ComesBack(sources, s);
    } else {
      var texts := InlineTexts(sources);
      InlineTextOf(sources, s.inLine);
      FoldContributes(env, texts, c);
      InlineContributes(env, s.inLine, c);
      EmptyContributes(env, c);
      var text := FoldTexts(texts);
      if text != "" {
        ComesBack(sources, InlineSource(text));
        InlineContributes(env, text, c);
      }
    }
  }

  /** The sources that come back build iff the original ones do, into the same certificates, and with the
      same default package. */
  lemma SourcesKeepMeaning(env: Env, sources: seq<BundleSource>)
    requires AdmittedSources(sources) && Portable(sources)
    ensures Buildable(env, SourcesBack(sources)) <==> Buildable(env, sources)
    ensures Buildable(env, sources) ==> Resolved(env, SourcesBack(sources)) == Resolved(env, sources)
    ensures DefaultID(env, SourcesBack(sources)) == DefaultID(env, sources)
  {
    hide Portable, AdmittedSources, SourcesBack;
    var back := SourcesBack(sources);
    var allUsable := forall s :: s in sources ==> UsableSource(env, s);
    forall s' | s' in back && allUsable
      ensures UsableSource(env, s')
    {
      var c: Certificate :| true;
      BackToSources(env, sources, s', c);
    }
    var backUsable := forall s' :: s' in back ==> UsableSource(env, s');
    forall s | s in sources && backUsable
      ensures UsableSource(env, s)
    {
      var c: Certificate :| true;
      SourcesToBack(env, sources, s, c);
    }
    if allUsable {
      forall c
        ensures c in Resolved(env, back) <==> c in Resolved(env, sources)
      {
        ResolvedIs(env, back, c);
        ResolvedIs(env, sources, c);
        forall s' | s' in back && Contributes(env, s', c)
          ensures exists s :: s in sources && Contributes(env, s, c)
        {
          BackToSources(env, sources, s', c);
        }
        forall s | s in sources && Contributes(env, s, c)
          ensures exists s' :: s' in back && Contributes(env, s', c)
        {
          SourcesToBack(env, sources, s, c);
        }
        hide Contributes, UsableSource, Resolved;
      }
    }
    DefaultComesBack(env, sources);
    hide Resolved, SourceTexts;
  }

  lemma ResolvedIs(env: Env, sources: seq<BundleSource>, c: Certificate)
    ensures c in Resolved(env, sources) <==> exists s :: s in sources && Contributes(env, s, c)
  {
    hide SourceTexts, Contributions;
  }

  lemma DefaultComesBack(env: Env, sources: seq<BundleSource>)
    requires AdmittedSources(sources)
    ensures DefaultID(env, SourcesBack(sources)) == DefaultID(env, sources)
  {
    hide AdmittedSources, SourcesBack, Provider, FoldTexts, InlineTexts;
    if s :| s in sources && UsesDefault(s) {
      ProviderOfAdmitted(sources, s);
      ComesBack(sources, s);
    }
    if s' :| s' in SourcesBack(sources) && UsesDefault(s') {
      ComesBack(sources, s');
      ProviderIsOfSources(sources);
      var s :| s in sources && s.useDefaultCAs == Some(Provider(sources) == PROVIDER_SYSTEM);
      AdmittedIs(sources, s);
    }
  }

  // ---------- The target ----------

  /** Both targets want the same resources in every cluster. */
  lemma SelectionKeepsMeaning(t: BundleTarget, back: BundleTarget, name: string, options: Options,
                              namespaces: map<string, Namespace>)
    requires back.configMap == t.configMap && back.secret == t.secret
    requires back.namespaceSelector == SelectorBack(t)
    ensures Desired(back, name, options, namespaces) == Desired(t, name, options, namespaces)
  {
    forall labels: Labels
      ensures SelectsNamespace(back, labels) == SelectsNamespace(t, labels)
    {
      assert EMPTY_SELECTOR.Matches(labels);
    }
    assert forall k :: TemplateOf(back, k) == TemplateOf(t, k);
    hide SelectsNamespace;
  }

  /** The rendered data is the same for all encoders and all certificates, if and only if no leftover
      annotation marks a PKCS#12 format as JKS. */
  lemma DataKeepsMeaning(b: Bundle, formats: AdditionalFormats, template: TargetTemplate)
    requires HasTarget(b.spec.target) && Some(formats) == FormatsBack(b.meta.annotations, b.spec.target)
    requires b.spec.target.JksFormat().Some? && b.spec.target.Pkcs12Format().Some? ==>
               b.spec.target.JksFormat().value.key != b.spec.target.Pkcs12Format().value.key
    ensures var t := b.spec.target;
            var back := t.(additionalFormats := if formats == NO_FORMATS then None else Some(formats));
            (forall enc, pem :: Render(enc, template, back, pem) == Render(enc, template, t, pem)) <==> !MarksPkcs12(b)
  {
    var t := b.spec.target;
    var back := t.(additionalFormats := if formats == NO_FORMATS then None else Some(formats));
    if MarksPkcs12(b) {
      var enc := Encoders(x => "", (x, y) => None, (x, y, z) => Some(""));
      assert Render(enc, template, back, "").None?;
      assert Render(enc, template, t, "").Some?;
    } else {
      forall enc, pem
        ensures Render(enc, template, back, pem) == Render(enc, template, t, pem)
      {
        assert back.JksFormat() == t.JksFormat();
        assert forall data :: WithPkcs12(enc, back, pem, data) == WithPkcs12(enc, t, pem, data);
        hide WithPkcs12;
      }
    }
  }

  // ---------- Migration keeps the meaning of a Bundle ----------

  /** The same build, the same desired targets, the same rendered data, and the same marks by which targets are
      found up to date, so that the change of version alone rewrites nothing. */
  ghost predicate SameMeaning(b: Bundle, c: Bundle) {
    && (forall env :: Buildable(env, c.spec.sources) == Buildable(env, b.spec.sources))
    && (forall env :: Buildable(env, b.spec.sources) ==> Resolved(env, c.spec.sources) == Resolved(env, b.spec.sources))
    && (forall env :: DefaultID(env, c.spec.sources) == DefaultID(env, b.spec.sources))
    && (forall name, options, namespaces ::
          Desired(c.spec.target, name, options, namespaces) == Desired(b.spec.target, name, options, namespaces))
    && (forall kind :: TemplateOf(c.spec.target, kind) == TemplateOf(b.spec.target, kind))
    && (HasTarget(b.spec.target) ==> forall enc, template, pem ::
          Render(enc, template, c.spec.target, pem) == Render(enc, template, b.spec.target, pem))
    && (HasTarget(b.spec.target) ==> forall enc, template, pem, name, uid ::
          PlanOf(enc, pem, c.spec.target, template, name, uid) == PlanOf(enc, pem, b.spec.target, template, name, uid))
  }

  /** An admitted Bundle without a wildcard key, without glued inline texts and without a misleading
      annotation means the same after its conversion to a ClusterBundle and back. */
  lemma MigrationPreservesMeaning(syntax: Syntax, b: Bundle)
    requires Admits(syntax, b) && Portable(b.spec.sources) && !MarksPkcs12(b)
    ensures FromHub(ToHub(b)).Some? && SameMeaning(b, FromHub(ToHub(b)).value)
  {
    hide Portable, AdmittedSources, AvoidsOwnTarget, FromHub, ToHub;
    AdmittedConvertsBack(syntax, b);
    ThereAndBack(b);
    var c := FromHub(ToHub(b)).value;
    var t, back := b.spec.target, c.spec.target;
    assert c.spec.sources == SourcesBack(b.spec.sources);
    forall env
      ensures Buildable(env, c.spec.sources) == Buildable(env, b.spec.sources)
      ensures Buildable(env, b.spec.sources) ==> Resolved(env, c.spec.sources) == Resolved(env, b.spec.sources)
      ensures DefaultID(env, c.spec.sources) == DefaultID(env, b.spec.sources)
    {
      hide *;
      SourcesKeepMeaning(env, b.spec.sources);
    }
    forall name, options, namespaces
      ensures Desired(back, name, options, namespaces) == Desired(t, name, options, namespaces)
    {
      SelectionKeepsMeaning(t, back, name, options, namespaces);
    }
    forall enc, template, pem | HasTarget(t)
      ensures Render(enc, template, back, pem) == Render(enc, template, t, pem)
    {
      DataKeepsMeaning(b, FormatsBack(b.meta.annotations, t).value, template);
      RenderIgnoresSelector(enc, template, pem, t, back);
    }
    forall enc, template, pem, name, uid | HasTarget(t)
      ensures PlanOf(enc, pem, back, template, name, uid) == PlanOf(enc, pem, t, template, name, uid)
    {
      hide *;
      PlanComesBack(b, back, enc, template, pem, name, uid);
    }
    hide Buildable, Resolved, DefaultID, Desired, Render, PlanOf, SourcesBack;
  }

  lemma PlanComesBack(b: Bundle, back: BundleTarget, enc: Encoders, template: TargetTemplate, pem: string,
                      name: string, uid: string)
    requires HasTarget(b.spec.target) && !MarksPkcs12(b) && FormatsBack(b.meta.annotations, b.spec.target).Some?
    requires DistinctKeys(b.spec.target)
    requires var formats := FormatsBack(b.meta.annotations, b.spec.target);
             back.additionalFormats == if formats.value == NO_FORMATS then None else formats
    ensures PlanOf(enc, pem, back, template, name, uid) == PlanOf(enc, pem, b.spec.target, template, name, uid)
  {
    var t := b.spec.target;
    assert back.JksFormat() == t.JksFormat();
    assert back.Pkcs12Format() == if t.Pkcs12Format().Some? then Some(WithProfile(t.Pkcs12Format().value)) else None;
    hide FormatsBack;
  }

  lemma RenderIgnoresSelector(enc: Encoders, template: TargetTemplate, pem: string, t: BundleTarget, back: BundleTarget)
    ensures Render(enc, template, back, pem)
         == Render(enc, template, t.(additionalFormats := back.additionalFormats), pem)
  {
  }

  // ---------- What goes wrong without the conditions ----------

  /** The bytes are a certificate that the environment accepts. */
  ghost predicate AcceptsDer(env: Env, der: seq<Byte>) {
    env.crypto.parseX509(der).X509? && Keeps(env, Certificate(der, env.crypto.parseX509(der).info))
  }

  lemma CertificateText(env: Env, der: seq<Byte>, text: string)
    requires AcceptsDer(env, der) && Blocks(text) == [Block(CERTIFICATE, false, der)]
    ensures AcceptsText(env.crypto, text) && Contribution(env, text) != {}
  {
    hide Keeps;
    var c := Certificate(der, env.crypto.parseX509(der).info);
    assert Judge(env.crypto, Blocks(text)[0]) == Accept(c);
    assert Admitted(env.crypto, Blocks(text)) == [c];
    assert c in Contribution(env, text);
  }

  /** For every certificate: cut in two between two inline sources it builds nothing, and builds after the
      conversion. */
  lemma GlueChangesMeaning(env: Env, der: seq<Byte>) returns (sources: seq<BundleSource>)
    requires AcceptsDer(env, der)
    ensures AdmittedSources(sources) && Glues(InlineTexts(sources))
    ensures !Buildable(env, sources) && Buildable(env, SourcesBack(sources))
  {
    hide *;
    GluedCertificate(der);
    var open, close := Unfinished(CERTIFICATE, der), END + CERTIFICATE + DASHES;
    sources := [InlineSource(open), InlineSource(close)];
    var text := FoldTexts([open, close]);
    TwoInline(open, close, text);
    CertificateText(env, der, text);
    OneInlineBuilds(env, text);
    NothingBuilds(env, sources);
  }

  lemma GluedCertificate(der: seq<Byte>)
    ensures var open, close := Unfinished(CERTIFICATE, der), END + CERTIFICATE + DASHES;
            && open != "" && close != "" && Blocks(open) == [] && Blocks(close) == [] && Glues([open, close])
            && Blocks(FoldTexts([open, close])) == [Block(CERTIFICATE, false, der)] && FoldTexts([open, close]) != ""
  {
    PlainWithoutB(CERTIFICATE);
    hide PlainTag;
    GluedTexts(CERTIFICATE, der);
    CutInTwo(CERTIFICATE, der);
    hide *;
  }

  lemma TwoInline(a: string, b: string, text: string)
    requires a != "" && b != "" && text != "" && text == FoldTexts([a, b])
    ensures var sources := [InlineSource(a), InlineSource(b)];
            && InlineTexts(sources) == [a, b] && AdmittedSources(sources)
            && SourcesBack(sources) == [InlineSource(text)]
            && forall s :: s in sources ==> s == InlineSource(s.inLine) && (s.inLine == a || s.inLine == b)
  {
    var sources := [InlineSource(a), InlineSource(b)];
    assert InlineTexts(sources) == [a, b];
    InlineAdmitted(sources);
    hide AdmittedSources, FoldTexts, InlineTexts;
    OnlyInline(sources, text);
  }

  lemma InlineAdmitted(sources: seq<BundleSource>)
    requires sources != []
    requires forall i :: 0 <= i < |sources| ==> sources[i] == InlineSource(sources[i].inLine) && sources[i].inLine != ""
    ensures AdmittedSources(sources)
  {
    assert Counts(sources[0]);
  }

  lemma OnlyInline(sources: seq<BundleSource>, text: string)
    requires text != "" && FoldTexts(InlineTexts(sources)) == text
    requires forall i :: 0 <= i < |sources| ==> !IsReference(sources[i]) && sources[i].useDefaultCAs.None?
    ensures SourcesBack(sources) == [InlineSource(text)]
  {
    hide FoldTexts, InlineTexts, Provider, SourceRefs;
    NothingPromoted(sources);
    assert SourcesFromRefs([]) == [];
  }

  lemma OneInlineBuilds(env: Env, text: string)
    requires text != "" && AcceptsText(env.crypto, text) && Contribution(env, text) != {}
    ensures Buildable(env, [InlineSource(text)])
  {
    assert SourceTexts(env, InlineSource(text)) == Some({text});
    OneSourceBuilds(env, InlineSource(text), text);
  }

  lemma OneSourceBuilds(env: Env, s: BundleSource, text: string)
    requires SourceTexts(env, s) == Some({text})
    requires AcceptsText(env.crypto, text) && Contribution(env, text) != {}
    ensures Buildable(env, [s])
  {
    hide AcceptsText, Contribution, SourceTexts;
    var c :| c in Contribution(env, text);
    assert c in Contributions(env, {text});
    ResolvedIs(env, [s], c);
    assert Contributes(env, s, c) && s in [s];
  }

  lemma OneSourceFails(env: Env, s: BundleSource)
    requires SourceTexts(env, s) in {None, Some({})}
    ensures !Buildable(env, [s])
  {
    hide SourceTexts;
    assert s in [s];
    assert Contributions(env, {}) == {};
  }

  lemma NothingBuilds(env: Env, sources: seq<BundleSource>)
    requires forall s :: s in sources ==> s == InlineSource(s.inLine) && s.inLine != "" && Blocks(s.inLine) == []
    ensures !Buildable(env, sources)
  {
    hide Blocks;
    forall c
      ensures c !in Resolved(env, sources)
    {
      ResolvedIs(env, sources, c);
      forall s | s in sources
        ensures !Contributes(env, s, c)
      {
        NothingAdmitted(env.crypto);
        assert SourceTexts(env, s) == Some({s.inLine});
      }
      hide Contributes, Resolved;
    }
    assert Resolved(env, sources) == {};
  }

  // ---------- References, exactly ----------

  /** The reference selects something in some cluster. */
  ghost predicate CanSelect(ref: SourceObjectKeySelector) {
    ref.name != "" || (ref.selector.Some? && exists labels :: ref.selector.value.Matches(labels))
  }

  function WithObjects(env: Env, configMaps: map<string, SourceObject>, secrets: map<string, SourceObject>): Env {
    env.(configMaps := configMaps, secrets := secrets)
  }

  function ObjectWith(kind: Kind, labels: Labels, key: string, text: string): SourceObject {
    if kind.ConfigMapKind? then ConfigMapObject(labels, map[key := text], map[])
    else SecretObject(labels, map[key := text], false)
  }

  lemma OneObjectTexts(ref: SourceObjectKeySelector, kind: Kind, labels: Labels, key: string, text: string)
    ensures ObjectTexts(ref, ObjectWith(kind, labels, key, text))
         == if ref.key == key && key != "" then Some({text})
            else if ref.key != "" then None
            else if ref.AllKeys() then Some({text}) else Some({})
  {
    var data := map[key := text];
    assert key in data && data[key] in Sources.Values(data);
    assert Sources.Values(data) == {text} && Sources.Values(map[]) == {};
    assert Sources.Values(data) + Sources.Values(map[]) == {text};
  }

  /** One object that the reference selects, with the text under the given key. */
  lemma SelectedObject(ref: SourceObjectKeySelector, kind: Kind, key: string, text: string)
    returns (objects: map<string, SourceObject>)
    requires AdmittedReference(ref) && CanSelect(ref)
    ensures forall other: SourceObjectKeySelector :: other.name == ref.name && other.selector == ref.selector ==>
              RefTexts(objects, other)
              == if other.key == key && key != "" then Some({text})
                 else if other.key != "" then None
                 else if other.AllKeys() then Some({text}) else Some({})
  {
    var labels: Labels := map[];
    if ref.name == "" {
      labels :| ref.selector.value.Matches(labels);
    }
    var name := if ref.name != "" then ref.name else "ca";
    var obj := ObjectWith(kind, labels, key, text);
    objects := map[name := obj];
    forall other: SourceObjectKeySelector | other.name == ref.name && other.selector == ref.selector
      ensures RefTexts(objects, other) == ObjectTexts(other, obj)
      ensures ObjectTexts(other, obj) == if other.key == key && key != "" then Some({text})
                                         else if other.key != "" then None
                                         else if other.AllKeys() then Some({text}) else Some({})
    {
      OneObjectTexts(other, kind, labels, key, text);
      assert ref.name == "" ==> SelectorMatches(other.selector, objects[name].labels);
      assert RefNames(objects, other).value == {name};
      OneNameTexts(objects, other, name);
    }
    hide RefTexts, ObjectTexts;
  }

  lemma OneNameTexts(objects: map<string, SourceObject>, ref: SourceObjectKeySelector, name: string)
    requires RefNames(objects, ref) == Some({name}) && name in objects
    ensures RefTexts(objects, ref) == ObjectTexts(ref, objects[name])
  {
    hide ObjectTexts, RefNames;
    if ObjectTexts(ref, objects[name]).Some? {
      assert NamedTexts(objects, ref, {name}) == ObjectTexts(ref, objects[name]).value;
    }
  }

  lemma NothingSelected(ref: SourceObjectKeySelector, objects: map<string, SourceObject>)
    requires AdmittedReference(ref) && (objects == map[] || !CanSelect(ref))
    ensures RefTexts(objects, ref) in {None, Some({})}
    ensures !CanSelect(ref) ==> RefTexts(objects, ref) == Some({})
  {
    hide ObjectTexts;
    if ref.name == "" {
      forall n | n in objects
        ensures !SelectorMatches(ref.selector, objects[n].labels)
      {
      }
      assert RefNames(objects, ref).value == {};
      assert NamedTexts(objects, ref, {}) == {};
    }
  }

  /** What is left of a source that is nothing but references. */
  lemma OnlyReferenceBack(s: BundleSource)
    requires IsReference(s) && s.inLine == "" && s.useDefaultCAs.None?
    ensures SourcesBack([s]) == [SourceFrom(ReferenceTo(s))]
  {
    NothingPromoted([s]);
    assert [s][..0] == [] && SourceRefs([s]) == [ReferenceTo(s)];
    hide InlineTexts, FoldTexts, Provider, SourceFrom, ReferenceTo;
    RefsFromAppend([], ReferenceTo(s));
    assert [] + [ReferenceTo(s)] == [ReferenceTo(s)] && SourcesFromRefs([]) == [];
  }

  /** The reference can be read and selects something in some cluster. */
  ghost predicate Reaches(faults: ReadFaults, ref: SourceObjectKeySelector) {
    !faults(ref.name, ref.selector) && CanSelect(ref)
  }

  lemma NothingRead(objects: map<string, SourceObject>, faults: ReadFaults, ref: SourceObjectKeySelector)
    requires AdmittedReference(ref) && (objects == map[] || !Reaches(faults, ref))
    ensures ReadTexts(objects, faults, ref) in {None, Some({})}
  {
    hide RefTexts, CanSelect;
    if !faults(ref.name, ref.selector) {
      NothingSelected(ref, objects);
    }
  }

  predicate AdmittedReferences(s: BundleSource) {
    && IsReference(s) && s.inLine == "" && s.useDefaultCAs.None?
    && (s.configMap.Some? ==> AdmittedReference(s.configMap.value))
    && (s.secret.Some? ==> AdmittedReference(s.secret.value))
  }

  /** The conversion keeps the reference: there is one kind, and its key is not the wildcard; or nothing is
      reached anyway. */
  ghost predicate KeepsReference(env: Env, s: BundleSource) {
    if s.configMap.Some? && s.secret.Some? then
      !Reaches(env.configMapFaults, s.configMap.value) && !Reaches(env.secretFaults, s.secret.value)
    else
      && (s.configMap.Some? ==> s.configMap.value.key != ALL_KEYS || !Reaches(env.configMapFaults, s.configMap.value))
      && (s.secret.Some? ==> s.secret.value.key != ALL_KEYS || !Reaches(env.secretFaults, s.secret.value))
  }

  ghost predicate BuildsAlike(env: Env, s: BundleSource) {
    Buildable(env, SourcesBack([s])) == Buildable(env, [s])
  }

  lemma KeptReferenceBuildsAlike(env: Env, s: BundleSource)
    requires AdmittedReferences(s) && KeepsReference(env, s)
    ensures BuildsAlike(env, s)
  {
    OnlyReferenceBack(s);
    var back := SourceFrom(ReferenceTo(s));
    if !(s.configMap.Some? && s.secret.Some?) && KeyOfSource(s) != ALL_KEYS {
      ReferenceBack(env, s);
      SameTextsBuildAlike(env, s, back);
    } else {
      UnreachedSource(env, s);
      OneSourceFails(env, s);
      OneSourceFails(env, back);
    }
  }

  lemma UnreachedSource(env: Env, s: BundleSource)
    requires AdmittedReferences(s) && KeepsReference(env, s)
    requires (s.configMap.Some? && s.secret.Some?) || KeyOfSource(s) == ALL_KEYS
    ensures SourceTexts(env, s) in {None, Some({})}
    ensures SourceTexts(env, SourceFrom(ReferenceTo(s))) in {None, Some({})}
  {
    hide ReadTexts, CanSelect;
    if s.configMap.Some? {
      NothingRead(env.configMaps, env.configMapFaults, s.configMap.value);
      SelectorBackAdmitted(s.configMap.value);
      NothingRead(env.configMaps, env.configMapFaults, SelectorBackOf(s.configMap.value));
    }
    if s.secret.Some? {
      NothingRead(env.secrets, env.secretFaults, s.secret.value);
      SelectorBackAdmitted(s.secret.value);
      NothingRead(env.secrets, env.secretFaults, SelectorBackOf(s.secret.value));
    }
  }

  lemma SameTextsBuildAlike(env: Env, s: BundleSource, s': BundleSource)
    requires SourceTexts(env, s) == SourceTexts(env, s')
    ensures Buildable(env, [s']) == Buildable(env, [s])
  {
    hide SourceTexts, Contributions;
    assert s in [s] && s' in [s'];
    assert Resolved(env, [s]) == Resolved(env, [s']);
  }

  function WantedKey(ref: SourceObjectKeySelector): string {
    if ref.key != "" then ref.key else "ca.crt"
  }

  lemma CertificateOf(env: Env, der: seq<Byte>) returns (text: string)
    requires AcceptsDer(env, der)
    ensures forall configMaps, secrets ::
              var e := WithObjects(env, configMaps, secrets);
              AcceptsText(e.crypto, text) && Contribution(e, text) != {}
  {
    text := EncodeAll(CERTIFICATE, [der]);
    hide Run, EncodeBlock;
    PlainWithoutB(CERTIFICATE);
    DecodeEncodeAll(CERTIFICATE, [der]);
    assert BlocksOf(CERTIFICATE, [der]) == [Block(CERTIFICATE, false, der)];
    forall configMaps, secrets
      ensures var e := WithObjects(env, configMaps, secrets); AcceptsText(e.crypto, text) && Contribution(e, text) != {}
    {
      CertificateText(WithObjects(env, configMaps, secrets), der, text);
    }
  }

  /** A reference by the wildcard key does not resolve where there is no such key; what comes back takes all
      keys and builds. */
  lemma WildcardChangesMeaning(env: Env, der: seq<Byte>, s: BundleSource)
    returns (configMaps: map<string, SourceObject>, secrets: map<string, SourceObject>)
    requires AcceptsDer(env, der) && AdmittedReferences(s) && !KeepsReference(env, s)
    requires !(s.configMap.Some? && s.secret.Some?)
    ensures var e := WithObjects(env, configMaps, secrets); !Buildable(e, [s]) && Buildable(e, SourcesBack([s]))
  {
    OnlyReferenceBack(s);
    var ref := if s.secret.Some? then s.secret.value else s.configMap.value;
    var kind := if s.secret.Some? then SecretKind else ConfigMapKind;
    hide CanSelect, AcceptsDer, SourcesBack;
    var text := CertificateOf(env, der);
    var objects := SelectedObject(ref, kind, "ca.crt", text);
    configMaps, secrets := objects, objects;
    var e, back := WithObjects(env, configMaps, secrets), SourceFrom(ReferenceTo(s));
    assert RefTexts(objects, ref) == None && RefTexts(objects, SelectorBackOf(ref)) == Some({text});
    WildcardTexts(e, s, ref, objects, text);
    hide *;
    OneSourceFails(e, s);
    OneSourceBuilds(e, back, text);
  }

  lemma WildcardTexts(e: Env, s: BundleSource, ref: SourceObjectKeySelector, objects: map<string, SourceObject>,
                      text: string)
    requires AdmittedReferences(s) && !(s.configMap.Some? && s.secret.Some?) && !KeepsReference(e, s)
    requires ref == (if s.secret.Some? then s.secret.value else s.configMap.value)
    requires e.configMaps == e.secrets == objects
    requires RefTexts(objects, ref) == None && RefTexts(objects, SelectorBackOf(ref)) == Some({text})
    ensures SourceTexts(e, s) == None && SourceTexts(e, SourceFrom(ReferenceTo(s))) == Some({text})
  {
    hide RefTexts, CanSelect, AdmittedReference;
  }

  /** With two kinds of reference in one source the build reads the ConfigMap and the conversion keeps the
      Secret: wherever one of them selects a certificate and the other nothing, one of the two builds. */
  lemma PrecedenceDiffers(env: Env, der: seq<Byte>, s: BundleSource)
    returns (configMaps: map<string, SourceObject>, secrets: map<string, SourceObject>)
    requires AcceptsDer(env, der) && AdmittedReferences(s) && s.configMap.Some? && s.secret.Some?
    requires !KeepsReference(env, s)
    ensures var e := WithObjects(env, configMaps, secrets);
            && Buildable(e, [s]) == Reaches(env.configMapFaults, s.configMap.value)
            && Buildable(e, SourcesBack([s])) == !Reaches(env.configMapFaults, s.configMap.value)
  {
    OnlyReferenceBack(s);
    SelectorBackAdmitted(s.secret.value);
    hide CanSelect, AcceptsDer, SourcesBack;
    var text := CertificateOf(env, der);
    var ref, kept := s.configMap.value, SelectorBackOf(s.secret.value);
    var back := SourceFrom(ReferenceTo(s));
    configMaps, secrets := map[], map[];
    var reached := Reaches(env.configMapFaults, ref);
    if reached {
      configMaps := SelectedObject(ref, ConfigMapKind, WantedKey(ref), text);
    } else {
      secrets := SelectedObject(kept, SecretKind, WantedKey(kept), text);
    }
    PrecedenceTexts(env, s, configMaps, secrets, text);
    var e := WithObjects(env, configMaps, secrets);
    hide *;
    if reached {
      OneSourceBuilds(e, s, text);
      OneSourceFails(e, back);
    } else {
      OneSourceFails(e, s);
      OneSourceBuilds(e, back, text);
    }
  }

  lemma PrecedenceTexts(env: Env, s: BundleSource, configMaps: map<string, SourceObject>,
                        secrets: map<string, SourceObject>, text: string)
    requires AdmittedReferences(s) && s.configMap.Some? && s.secret.Some? && !KeepsReference(env, s)
    requires var reached := Reaches(env.configMapFaults, s.configMap.value);
             if reached then RefTexts(configMaps, s.configMap.value) == Some({text}) && secrets == map[]
             else configMaps == map[] && RefTexts(secrets, SelectorBackOf(s.secret.value)) == Some({text})
    ensures var reached := Reaches(env.configMapFaults, s.configMap.value);
            var e := WithObjects(env, configMaps, secrets);
            var own, back := SourceTexts(e, s), SourceTexts(e, SourceFrom(ReferenceTo(s)));
            if reached then own == Some({text}) && back in {None, Some({})}
            else own in {None, Some({})} && back == Some({text})
  {
    SelectorBackAdmitted(s.secret.value);
    hide RefTexts, CanSelect;
    if Reaches(env.configMapFaults, s.configMap.value) {
      NothingRead(secrets, env.secretFaults, SelectorBackOf(s.secret.value));
    } else {
      NothingRead(configMaps, env.configMapFaults, s.configMap.value);
    }
  }

  lemma SelectorBackAdmitted(ref: SourceObjectKeySelector)
    requires AdmittedReference(ref)
    ensures AdmittedReference(SelectorBackOf(ref)) && CanSelect(SelectorBackOf(ref)) == CanSelect(ref)
  {
  }

  /** A source of references builds alike before and after migration in every cluster if and only if it has one
      kind of reference and no wildcard key, or reaches nothing. */
  lemma ReferencesExactly(env: Env, der: seq<Byte>, s: BundleSource)
    requires AcceptsDer(env, der) && AdmittedReferences(s)
    ensures (forall configMaps, secrets :: BuildsAlike(WithObjects(env, configMaps, secrets), s))
            <==> KeepsReference(env, s)
  {
    hide AcceptsDer, Reaches, Buildable, SourcesBack, AdmittedReferences;
    if KeepsReference(env, s) {
      forall configMaps, secrets
        ensures BuildsAlike(WithObjects(env, configMaps, secrets), s)
      {
        KeptReferenceBuildsAlike(WithObjects(env, configMaps, secrets), s);
      }
    } else if s.configMap.Some? && s.secret.Some? {
      var configMaps, secrets := PrecedenceDiffers(env, der, s);
      assert !BuildsAlike(WithObjects(env, configMaps, secrets), s);
    } else {
      var configMaps, secrets := WildcardChangesMeaning(env, der, s);
      assert !BuildsAlike(WithObjects(env, configMaps, secrets), s);
    }
  }

  // ---------- Default CAs, exactly ----------

  lemma StringIDIsNotEmpty(hashText: string -> string, p: Package)
    ensures StringID(hashText, p) != ""
  {
    assert StringID(hashText, p)[|p.name|] == '-';
  }

  /** The package identity comes back if and only if the sources use the package exactly when the last word on
      default CAs is to use it. */
  lemma DefaultsExactly(env: Env, sources: seq<BundleSource>)
    ensures DefaultID(env, SourcesBack(sources)) == DefaultID(env, sources) <==>
            env.package.None?
            || ((exists s :: s in sources && UsesDefault(s)) <==> Provider(sources) == PROVIDER_SYSTEM)
  {
    hide SourcesBack, Provider, FoldTexts, InlineTexts, StringID;
    if env.package.Some? {
      StringIDIsNotEmpty(env.hashText, env.package.value);
    }
    if Provider(sources) == PROVIDER_SYSTEM {
      ComesBack(sources, DefaultSource(true));
    }
    if s' :| s' in SourcesBack(sources) && UsesDefault(s') {
      ComesBack(sources, s');
    }
  }

  /** The build uses the package if any source asks for it, the conversion keeps what the last one says. */
  lemma LastDefaultWins(env: Env)
    requires env.package.Some?
    ensures var sources := [DefaultSource(true), DefaultSource(false)];
            DefaultID(env, sources) != "" && DefaultID(env, SourcesBack(sources)) == ""
  {
    var sources := [DefaultSource(true), DefaultSource(false)];
    assert sources[0] in sources && UsesDefault(sources[0]);
    assert Provider(sources) == PROVIDER_DISABLED;
    StringIDIsNotEmpty(env.hashText, env.package.value);
    hide SourcesBack, Provider, StringID;
    DefaultsExactly(env, sources);
  }
}
