/**
 What a ClusterBundle means by itself, as its API describes it: which entries its targets hold, which
 namespaces it selects and which certificates its sources pick.  A converted Bundle means the same.
 */
module HubMeaning {
  import opened Prelude
  import opened Pem
  import opened CertPools
  import opened BundleApi
  import opened ClusterBundleApi
  import Selectors
  import opened Sources
  import opened BuildMeaning
  import opened Targets
  import opened TargetProperties
  import opened Reconciler
  import opened Conversion
  import opened ConversionProperties
  import opened Webhook
  import opened Migration
  import opened Handover

  // ---------- The targets of a ClusterBundle ----------

  /** The annotation names the key whose entry is the JKS store of the legacy encoder. */
  predicate IsAnnotated(meta: ObjectMeta, key: string) {
    && "internal.trust-manager.io/jks-key" in meta.annotations
    && meta.annotations["internal.trust-manager.io/jks-key"] == key
  }

  /** What is written for an entry: the certificates, or a store under its password.  A store has no password unless
      one is given, and the default profile is LegacyDES. */
  function EntryText(enc: Encoders, meta: ObjectMeta, entry: TargetKeyValue, pem: string): Option<string> {
    var password := if entry.password.Some? then entry.password.value else "";
    if entry.format in {"", "PEM"} then Some(pem)
    else if entry.format != "PKCS12" then None
    else if IsAnnotated(meta, entry.key) then enc.jks(password, pem)
    else enc.pkcs12(password, if entry.profile == "" then "LegacyDES" else entry.profile, pem)
  }

  /** The data of a target: every entry under its key, and nothing else. */
  ghost predicate HubRenders(enc: Encoders, meta: ObjectMeta, target: KeyValueTarget, pem: string,
                             data: map<string, string>)
  {
    && (forall entry :: entry in target.data ==>
          entry.key in data && EntryText(enc, meta, entry, pem) == Some(data[entry.key]))
    && forall k :: k in data ==> exists entry :: entry in target.data && entry.key == k
  }

  /** The target with the password that v1alpha2 assumes where v1alpha1 has none and panics. */
  function WithPassword(t: BundleTarget): BundleTarget {
    if t.Pkcs12Format().Some? && t.Pkcs12Format().value.password.None?
    then t.(additionalFormats := Some(AdditionalFormats(t.JksFormat(), Some(
              t.Pkcs12Format().value.(password := Some(""))))))
    else t
  }

  // ---------- A converted target means the same ----------

  /** What v1alpha1 renders, entry by entry. */
  ghost predicate Rendered(enc: Encoders, template: TargetTemplate, t: BundleTarget, pem: string,
                           data: map<string, string>)
  {
    && template.key in data && data[template.key] == pem
    && (t.JksFormat().Some? ==>
          var j := t.JksFormat().value;
          j.key in data && enc.jks(j.password, pem) == Some(data[j.key]))
    && (t.Pkcs12Format().Some? ==>
          var p := t.Pkcs12Format().value;
          p.key in data && p.password.Some?
          && enc.pkcs12(p.password.value, if p.profile == "" then "LegacyRC2" else p.profile, pem) == Some(data[p.key]))
    && forall k :: k in data ==> IsKeyOf(template, t, k)
  }

  predicate IsKeyOf(template: TargetTemplate, t: BundleTarget, k: string) {
    || k == template.key
    || (t.JksFormat().Some? && k == t.JksFormat().value.key)
    || (t.Pkcs12Format().Some? && k == t.Pkcs12Format().value.key)
  }

  lemma RenderedUnique(enc: Encoders, template: TargetTemplate, t: BundleTarget, pem: string,
                       a: map<string, string>, b: map<string, string>)
    requires Rendered(enc, template, t, pem, a) && Rendered(enc, template, t, pem, b)
    ensures a == b
  {
  }

  lemma RendersIfPossible(enc: Encoders, template: TargetTemplate, t: BundleTarget, pem: string,
                          data: map<string, string>)
    requires Rendered(enc, template, t, pem, data)
    ensures Render(enc, template, t, pem).Some?
  {
  }

  /** With a key of its own for each entry, a target is rendered into exactly these entries, or not at all. */
  lemma RenderedExactly(enc: Encoders, template: TargetTemplate, t: BundleTarget, pem: string,
                        data: map<string, string>)
    requires OwnKeys(template, t)
    ensures Render(enc, template, t, pem) == Some(data) <==> Rendered(enc, template, t, pem, data)
  {
    if Rendered(enc, template, t, pem, data) {
      RendersIfPossible(enc, template, t, pem, data);
    }
    if Render(enc, template, t, pem).Some? {
      RenderedEntries(enc, template, t, pem);
      var rendered := Render(enc, template, t, pem).value;
      assert Rendered(enc, template, t, pem, rendered);
      if Rendered(enc, template, t, pem, data) {
        RenderedUnique(enc, template, t, pem, rendered, data);
      }
    }
  }

  lemma ConvertedEntries(b: Bundle, kind: Kind, template: TargetTemplate)
    requires TemplateOf(b.spec.target, kind) == Some(template)
    ensures var h := ToHub(b);
            && TargetOf(h, kind).Some? && TargetOf(h, kind).value.metadata == template.metadata
            && TargetOf(h, kind).value.data == [TargetKeyValue(template.key, "", None, "")]
                 + (if b.spec.target.JksFormat().Some? then [JksEntry(b.spec.target.JksFormat().value)] else [])
                 + (if b.spec.target.Pkcs12Format().Some?
                    then [Pkcs12Entry(b.spec.target.Pkcs12Format().value)] else [])
            && (forall key :: IsAnnotated(h.meta, key) <==>
                  if b.spec.target.JksFormat().Some? then key == b.spec.target.JksFormat().value.key
                  else IsAnnotated(b.meta, key))
  {
    hide SourceRefs, Provider, FoldTexts, InlineTexts;
  }

  // ---------- Entries and the formats that they describe ----------

  predicate IsPemFor(entry: TargetKeyValue, template: TargetTemplate) {
    entry.format in {"", "PEM"} && entry.key == template.key
  }

  predicate IsJksFor(meta: ObjectMeta, entry: TargetKeyValue, t: BundleTarget) {
    entry.format == "PKCS12" && IsAnnotated(meta, entry.key)
    && t.JksFormat() == Some(JKS(entry.key, if entry.password.Some? then entry.password.value else ""))
  }

  predicate IsPkcs12For(meta: ObjectMeta, entry: TargetKeyValue, t: BundleTarget) {
    entry.format == "PKCS12" && !IsAnnotated(meta, entry.key) && t.Pkcs12Format().Some?
    && var p := t.Pkcs12Format().value;
       && entry.key == p.key
       && (if entry.password.Some? then entry.password.value else "")
          == (if p.password.Some? then p.password.value else "")
       && (if entry.profile == "" then "LegacyDES" else entry.profile)
          == (if p.profile == "" then "LegacyRC2" else p.profile)
  }

  /** Every entry is the certificates or one of the formats of the target, and each of these has an entry. */
  ghost predicate Describes(meta: ObjectMeta, entries: seq<TargetKeyValue>, template: TargetTemplate, t: BundleTarget) {
    && (forall e :: e in entries ==> IsPemFor(e, template) || IsJksFor(meta, e, t) || IsPkcs12For(meta, e, t))
    && (exists e :: e in entries && IsPemFor(e, template))
    && (t.JksFormat().Some? ==> exists e :: e in entries && IsJksFor(meta, e, t))
    && (t.Pkcs12Format().Some? ==> exists e :: e in entries && IsPkcs12For(meta, e, t))
  }

  lemma PasswordGiven(t: BundleTarget)
    ensures WithPassword(t).JksFormat() == t.JksFormat()
    ensures WithPassword(t).Pkcs12Format().Some? <==> t.Pkcs12Format().Some?
    ensures t.Pkcs12Format().Some? ==>
              var p := t.Pkcs12Format().value;
              WithPassword(t).Pkcs12Format().value
              == p.(password := Some(if p.password.Some? then p.password.value else ""))
  {
  }

  lemma EntryTexts(enc: Encoders, meta: ObjectMeta, entry: TargetKeyValue, template: TargetTemplate, t: BundleTarget,
                   pem: string)
    ensures IsPemFor(entry, template) ==> EntryText(enc, meta, entry, pem) == Some(pem) && entry.key == template.key
    ensures IsJksFor(meta, entry, t) ==>
              t.JksFormat().Some?
              && var j := t.JksFormat().value;
                 entry.key == j.key && EntryText(enc, meta, entry, pem) == enc.jks(j.password, pem)
    ensures IsPkcs12For(meta, entry, t) ==>
              t.Pkcs12Format().Some?
              && var p := t.Pkcs12Format().value;
                 entry.key == p.key
                 && EntryText(enc, meta, entry, pem)
                    == enc.pkcs12(if p.password.Some? then p.password.value else "",
                                  if p.profile == "" then "LegacyRC2" else p.profile, pem)
  {
  }

  lemma DescribedRenders(enc: Encoders, meta: ObjectMeta, target: KeyValueTarget, template: TargetTemplate,
                         t: BundleTarget, pem: string, data: map<string, string>)
    requires Describes(meta, target.data, template, t)
    ensures HubRenders(enc, meta, target, pem, data) <==> Rendered(enc, template, WithPassword(t), pem, data)
  {
    PasswordGiven(t);
    forall e | e in target.data
      ensures IsPemFor(e, template) ==> EntryText(enc, meta, e, pem) == Some(pem) && e.key == template.key
      ensures IsJksFor(meta, e, t) ==>
                t.JksFormat().Some? && e.key == t.JksFormat().value.key
                && EntryText(enc, meta, e, pem) == enc.jks(t.JksFormat().value.password, pem)
      ensures IsPkcs12For(meta, e, t) ==>
                t.Pkcs12Format().Some?
                && var p := t.Pkcs12Format().value;
                   e.key == p.key
                   && EntryText(enc, meta, e, pem)
                      == enc.pkcs12(if p.password.Some? then p.password.value else "",
                                    if p.profile == "" then "LegacyRC2" else p.profile, pem)
    {
      EntryTexts(enc, meta, e, template, t, pem);
    }
    hide EntryText, IsPemFor, IsJksFor, IsPkcs12For, IsAnnotated, WithPassword;
  }

  lemma ConvertedDescribes(meta: ObjectMeta, entries: seq<TargetKeyValue>, template: TargetTemplate, t: BundleTarget)
    requires entries == [TargetKeyValue(template.key, "", None, "")]
               + (if t.JksFormat().Some? then [JksEntry(t.JksFormat().value)] else [])
               + (if t.Pkcs12Format().Some? then [Pkcs12Entry(t.Pkcs12Format().value)] else [])
    requires t.JksFormat().Some? ==> IsAnnotated(meta, t.JksFormat().value.key)
    requires t.Pkcs12Format().Some? ==> !IsAnnotated(meta, t.Pkcs12Format().value.key)
    ensures Describes(meta, entries, template, t)
  {
    var plain := TargetKeyValue(template.key, "", None, "");
    EntriesAre(t, plain, entries);
    assert IsPemFor(plain, template);
    if t.JksFormat().Some? {
      assert IsJksFor(meta, JksEntry(t.JksFormat().value), t);
    }
    if t.Pkcs12Format().Some? {
      assert IsPkcs12For(meta, Pkcs12Entry(t.Pkcs12Format().value), t);
    }
    hide IsPemFor, IsJksFor, IsPkcs12For, IsAnnotated;
  }

  /** Without a leftover annotation a converted target holds what v1alpha1 renders for its template. */
  lemma HubRendersTheSame(enc: Encoders, b: Bundle, kind: Kind, template: TargetTemplate, pem: string,
                          data: map<string, string>)
    requires TemplateOf(b.spec.target, kind) == Some(template) && OwnKeys(template, b.spec.target) && !MarksPkcs12(b)
    ensures var h := ToHub(b);
            TargetOf(h, kind).Some?
            && (HubRenders(enc, h.meta, TargetOf(h, kind).value, pem, data) <==>
                Rendered(enc, template, WithPassword(b.spec.target), pem, data))
  {
    ConvertedEntries(b, kind, template);
    var t, h := b.spec.target, ToHub(b);
    if t.Pkcs12Format().Some? && t.JksFormat().None? {
      NotMarked(b);
    }
    hide ToHub, HubRenders, Rendered, WithPassword, MarksPkcs12, IsAnnotated, JksEntry, Pkcs12Entry, Describes;
    ConvertedDescribes(h.meta, TargetOf(h, kind).value.data, template, t);
    DescribedRenders(enc, h.meta, TargetOf(h, kind).value, template, t, pem, data);
  }

  lemma NotMarked(b: Bundle)
    requires HasTarget(b.spec.target) && b.spec.target.JksFormat().None? && b.spec.target.Pkcs12Format().Some?
    ensures MarksPkcs12(b) <==> IsAnnotated(b.meta, b.spec.target.Pkcs12Format().value.key)
  {
  }

  lemma EntriesAre(t: BundleTarget, plain: TargetKeyValue, entries: seq<TargetKeyValue>)
    requires entries == [plain]
               + (if t.JksFormat().Some? then [JksEntry(t.JksFormat().value)] else [])
               + (if t.Pkcs12Format().Some? then [Pkcs12Entry(t.Pkcs12Format().value)] else [])
    ensures forall entry :: entry in entries <==>
              || entry == plain
              || (t.JksFormat().Some? && entry == JksEntry(t.JksFormat().value))
              || (t.Pkcs12Format().Some? && entry == Pkcs12Entry(t.Pkcs12Format().value))
  {
  }

  /** A Bundle has a target of a kind iff its ClusterBundle has, with the same metadata and the same keys; and that
      target holds, for all encoders and certificates, what v1alpha1 renders, if and only if no leftover annotation
      marks the PKCS#12 format as JKS. */
  lemma TargetMeansTheSame(b: Bundle, kind: Kind)
    requires TemplateOf(b.spec.target, kind).Some? ==> OwnKeys(TemplateOf(b.spec.target, kind).value, b.spec.target)
    ensures var t, h := b.spec.target, ToHub(b);
            && (TargetOf(h, kind).Some? <==> TemplateOf(t, kind).Some?)
            && (TargetOf(h, kind).Some? ==>
                  var template, target := TemplateOf(t, kind).value, TargetOf(h, kind).value;
                  && target.metadata == template.metadata
                  && (forall k :: (exists entry :: entry in target.data && entry.key == k) <==> IsKeyOf(template, t, k))
                  && ((forall enc, pem, data ::
                         HubRenders(enc, h.meta, target, pem, data) <==>
                         Render(enc, template, WithPassword(t), pem) == Some(data))
                      <==> !MarksPkcs12(b)))
  {
    var t, h := b.spec.target, ToHub(b);
    SameKinds(b, kind);
    if TemplateOf(t, kind).Some? {
      var template, target := TemplateOf(t, kind).value, TargetOf(h, kind).value;
      ConvertedEntries(b, kind, template);
      EntriesAre(t, TargetKeyValue(template.key, "", None, ""), target.data);
      KeysOfEntries(t, template, target.data);
      PasswordGiven(t);
      hide ToHub, HubRenders, Rendered, MarksPkcs12, Render, WithPassword;
      if MarksPkcs12(b) {
        MarkedRendersElse(b, kind, template);
      } else {
        forall enc, pem, data
          ensures HubRenders(enc, h.meta, target, pem, data) <==>
                  Render(enc, template, WithPassword(t), pem) == Some(data)
        {
          HubRendersTheSame(enc, b, kind, template, pem, data);
          RenderedExactly(enc, template, WithPassword(t), pem, data);
        }
      }
    }
  }

  lemma SameKinds(b: Bundle, kind: Kind)
    ensures TargetOf(ToHub(b), kind).Some? <==> TemplateOf(b.spec.target, kind).Some?
  {
    hide SourceRefs, Provider, FoldTexts, InlineTexts, FormatEntries;
  }

  lemma KeysOfEntries(t: BundleTarget, template: TargetTemplate, entries: seq<TargetKeyValue>)
    requires forall entry :: entry in entries <==>
              || entry == TargetKeyValue(template.key, "", None, "")
              || (t.JksFormat().Some? && entry == JksEntry(t.JksFormat().value))
              || (t.Pkcs12Format().Some? && entry == Pkcs12Entry(t.Pkcs12Format().value))
    ensures forall k :: (exists entry :: entry in entries && entry.key == k) <==> IsKeyOf(template, t, k)
  {
    forall k | IsKeyOf(template, t, k)
      ensures exists entry :: entry in entries && entry.key == k
    {
      if k == template.key {
        assert TargetKeyValue(template.key, "", None, "") in entries;
      } else if t.JksFormat().Some? && k == t.JksFormat().value.key {
        assert JksEntry(t.JksFormat().value) in entries;
      } else {
        assert Pkcs12Entry(t.Pkcs12Format().value) in entries;
      }
    }
  }

  /** Where the annotation is left over, v1alpha2 calls for a JKS store instead of a PKCS#12 store. */
  lemma MarkedRendersElse(b: Bundle, kind: Kind, template: TargetTemplate)
    requires TemplateOf(b.spec.target, kind) == Some(template) && OwnKeys(template, b.spec.target) && MarksPkcs12(b)
    ensures var h := ToHub(b);
            TargetOf(h, kind).Some?
            && exists enc, pem, data ::
                 !(HubRenders(enc, h.meta, TargetOf(h, kind).value, pem, data) <==>
                   Render(enc, template, WithPassword(b.spec.target), pem) == Some(data))
  {
    ConvertedEntries(b, kind, template);
    var t, h := b.spec.target, ToHub(b);
    var target, entry := TargetOf(h, kind).value, Pkcs12Entry(t.Pkcs12Format().value);
    assert target.data == [TargetKeyValue(template.key, "", None, ""), entry];
    assert target.data[1] == entry && entry in target.data && IsAnnotated(h.meta, entry.key) by {
      NotMarked(b);
    }
    hide ToHub;
    var enc := Encoders(x => "", (x, y) => None, (x, y, z) => Some(""));
    assert EntryText(enc, h.meta, entry, "") == None;
    assert Render(enc, template, WithPassword(t), "").Some?;
    var data := Render(enc, template, WithPassword(t), "").value;
    assert !HubRenders(enc, h.meta, target, "", data);
  }

  /** The API server refuses the patch of a converted Bundle iff two entries of one of its targets share a key. */
  lemma RefusedExactly(b: Bundle)
    ensures Refused(b) <==>
            exists kind :: TemplateOf(b.spec.target, kind).Some?
                           && !OwnKeys(TemplateOf(b.spec.target, kind).value, b.spec.target)
  {
    var t, h := b.spec.target, ToHub(b);
    forall kind
      ensures DuplicateKeys(TargetOf(h, kind)) <==>
              TemplateOf(t, kind).Some? && !OwnKeys(TemplateOf(t, kind).value, t)
    {
      SameKinds(b, kind);
      if TemplateOf(t, kind).Some? {
        ConvertedEntries(b, kind, TemplateOf(t, kind).value);
        SharedKey(t, TemplateOf(t, kind).value, TargetOf(h, kind));
      }
    }
    hide ToHub, DuplicateKeys, OwnKeys;
    assert Refused(b) <==> DuplicateKeys(TargetOf(h, ConfigMapKind)) || DuplicateKeys(TargetOf(h, SecretKind));
  }

  lemma SharedKey(t: BundleTarget, template: TargetTemplate, target: Option<KeyValueTarget>)
    requires target.Some? && target.value.data == [TargetKeyValue(template.key, "", None, "")]
               + (if t.JksFormat().Some? then [JksEntry(t.JksFormat().value)] else [])
               + (if t.Pkcs12Format().Some? then [Pkcs12Entry(t.Pkcs12Format().value)] else [])
    ensures DuplicateKeys(target) <==> !OwnKeys(template, t)
  {
    var data := target.value.data;
    assert |data| <= 3;
    assert DuplicateKeys(target) <==>
           || (|data| > 1 && data[0].key == data[1].key)
           || (|data| > 2 && (data[0].key == data[2].key || data[1].key == data[2].key));
  }

  // ---------- A target that v1alpha1 can express ----------

  predicate IsStore(entry: TargetKeyValue) {
    entry.format == "PKCS12"
  }

  predicate IsLegacyStore(meta: ObjectMeta, entry: TargetKeyValue) {
    IsStore(entry) && IsAnnotated(meta, entry.key)
  }

  predicate IsOtherStore(meta: ObjectMeta, entry: TargetKeyValue) {
    IsStore(entry) && !IsAnnotated(meta, entry.key)
  }

  /** One entry for the certificates, stores otherwise, only one of them without the annotated key, all under keys of
      their own; and no store in another target that is not in this one, nor the other way round. */
  ghost predicate Expressible(h: ClusterBundle, entries: seq<TargetKeyValue>) {
    && (forall i, j :: 0 <= i < j < |entries| ==> entries[i].key != entries[j].key)
    && (exists e :: e in entries && !IsStore(e))
    && (forall e :: e in entries ==> e.format in {"", "PEM", "PKCS12"})
    && (forall a, b :: a in entries && b in entries && !IsStore(a) && !IsStore(b) ==> a == b)
    && (forall a, b :: a in entries && b in entries && IsOtherStore(h.meta, a) && IsOtherStore(h.meta, b) ==> a == b)
    && forall kind, e :: TargetOf(h, kind).Some? && IsStore(e) ==>
                           (e in TargetOf(h, kind).value.data <==> e in entries)
  }

  lemma {:induction false} ScanFinds(meta: ObjectMeta, entries: seq<TargetKeyValue>, found: AdditionalFormats)
    ensures match ScanFormats(entries, JksKey(meta.annotations), found)
            case None =>
              exists e :: e in entries && IsLegacyStore(meta, e) && e.password.None?
            case Some(f) =>
              && (f.jks == found.jks
                  || exists e :: e in entries && IsLegacyStore(meta, e) && e.password.Some?
                                 && f.jks == Some(JKS(e.key, e.password.value)))
              && (f.pkcs12 == found.pkcs12
                  || exists e :: e in entries && IsOtherStore(meta, e)
                                 && f.pkcs12 == Some(Pkcs12From(e)))
              && (f.jks.None? ==> found.jks.None?
                                  && forall e :: e in entries ==> !IsLegacyStore(meta, e))
              && (f.pkcs12.None? ==> found.pkcs12.None?
                                     && forall e :: e in entries ==> !IsOtherStore(meta, e))
  {
    if entries != [] && !(found.jks.Some? && found.pkcs12.Some?) {
      var kv, rest := entries[0], entries[1..];
      assert entries == [kv] + rest;
      ScanOne(kv, rest, JksKey(meta.annotations), found);
      assert JksKey(meta.annotations) == Some(kv.key) <==> IsAnnotated(meta, kv.key);
      assert kv in entries && forall e :: e in entries <==> e == kv || e in rest;
      hide ScanFormats, IsAnnotated, Pkcs12From, JksKey;
      if kv.format != FORMAT_PKCS12 {
        ScanFinds(meta, rest, found);
      } else if !IsAnnotated(meta, kv.key) {
        ScanFinds(meta, rest, found.(pkcs12 := Some(Pkcs12From(kv))));
      } else if kv.password.Some? {
        ScanFinds(meta, rest, found.(jks := Some(JKS(kv.key, kv.password.value))));
      }
    }
  }

  lemma {:induction false} PemKeyFound(entries: seq<TargetKeyValue>)
    requires exists e :: e in entries && IsPemEntry(e)
    ensures exists e :: e in entries && IsPemEntry(e) && e.key == PemKey(entries)
  {
    if !IsPemEntry(entries[0]) {
      var e :| e in entries && IsPemEntry(e);
      assert entries == [entries[0]] + entries[1..];
      assert e in entries[1..];
      PemKeyFound(entries[1..]);
    } else {
      assert entries[0] in entries;
    }
  }

  /** The formats that a scan of expressible entries finds. */
  lemma ScanTells(h: ClusterBundle, kind: Kind)
    requires TargetOf(h, kind).Some? && Expressible(h, TargetOf(h, kind).value.data)
    ensures var entries := TargetOf(h, kind).value.data;
            match FormatsFrom(h.spec.target, h.meta.annotations)
            case None => exists e :: e in entries && IsLegacyStore(h.meta, e) && e.password.None?
            case Some(f) =>
              && (forall e :: e in entries && IsLegacyStore(h.meta, e) ==>
                    e.password.Some? && f.jks == Some(JKS(e.key, e.password.value)))
              && (forall e :: e in entries && IsOtherStore(h.meta, e) ==> f.pkcs12 == Some(Pkcs12From(e)))
              && (f.jks.Some? ==> exists e :: e in entries && IsLegacyStore(h.meta, e))
              && (f.pkcs12.Some? ==> exists e :: e in entries && IsOtherStore(h.meta, e))
  {
    var entries, all := TargetOf(h, kind).value.data, Entries(h.spec.target);
    assert forall e :: IsStore(e) ==> (e in all <==> e in entries) by {
      assert forall e :: IsStore(e) && TargetOf(h, ConfigMapKind).Some? ==>
                         (e in TargetOf(h, ConfigMapKind).value.data <==> e in entries);
      assert forall e :: IsStore(e) && TargetOf(h, SecretKind).Some? ==>
                         (e in TargetOf(h, SecretKind).value.data <==> e in entries);
    }
    assert forall a, b ::
             a in entries && b in entries && IsLegacyStore(h.meta, a) && IsLegacyStore(h.meta, b) ==> a == b by {
      forall a, b | a in entries && b in entries && IsLegacyStore(h.meta, a) && IsLegacyStore(h.meta, b)
        ensures a == b
      {
        var i :| 0 <= i < |entries| && entries[i] == a;
        var j :| 0 <= j < |entries| && entries[j] == b;
      }
    }
    ScanFinds(h.meta, all, NO_FORMATS);
    hide ScanFormats, Entries, Pkcs12From, IsAnnotated, JksKey;
  }

  lemma BackDescribes(h: ClusterBundle, kind: Kind)
    requires TargetOf(h, kind).Some? && Expressible(h, TargetOf(h, kind).value.data) && FromHub(h).Some?
    ensures var target, t := TargetOf(h, kind).value, FromHub(h).value.spec.target;
            && TemplateOf(t, kind).Some? && TemplateOf(t, kind).value.metadata == target.metadata
            && Describes(h.meta, target.data, TemplateOf(t, kind).value, t)
            && OwnKeys(TemplateOf(t, kind).value, t)
  {
    var target, t := TargetOf(h, kind).value, FromHub(h).value.spec.target;
    ScanTells(h, kind);
    var f := FormatsFrom(h.spec.target, h.meta.annotations).value;
    assert t.JksFormat() == f.jks && t.Pkcs12Format() == f.pkcs12;
    assert TemplateOf(t, kind) == Some(TargetTemplate(PemKey(target.data), target.metadata));
    assert forall e :: e in target.data ==> (IsPemEntry(e) <==> !IsStore(e));
    PemKeyFound(target.data);
    hide FormatsFrom, FromHub, PemKey;
    DescribesByRole(h.meta, target.data, TemplateOf(t, kind).value, t);
    DistinctRoles(h, target.data, TemplateOf(t, kind).value, t);
  }

  lemma DescribesByRole(meta: ObjectMeta, entries: seq<TargetKeyValue>, template: TargetTemplate, t: BundleTarget)
    requires forall e :: e in entries ==> e.format in {"", "PEM", "PKCS12"}
    requires forall a, b :: a in entries && b in entries && !IsStore(a) && !IsStore(b) ==> a == b
    requires exists e :: e in entries && !IsStore(e) && e.key == template.key
    requires forall e :: e in entries && IsLegacyStore(meta, e) ==>
               e.password.Some? && t.JksFormat() == Some(JKS(e.key, e.password.value))
    requires forall e :: e in entries && IsOtherStore(meta, e) ==> t.Pkcs12Format() == Some(Pkcs12From(e))
    requires t.JksFormat().Some? ==> exists e :: e in entries && IsLegacyStore(meta, e)
    requires t.Pkcs12Format().Some? ==> exists e :: e in entries && IsOtherStore(meta, e)
    ensures Describes(meta, entries, template, t)
  {
    forall e | e in entries
      ensures !IsStore(e) ==> IsPemFor(e, template)
      ensures IsLegacyStore(meta, e) ==> IsJksFor(meta, e, t)
      ensures IsOtherStore(meta, e) ==> IsPkcs12For(meta, e, t)
    {
    }
    hide IsPemFor, IsJksFor, IsPkcs12For, IsAnnotated;
  }

  lemma DistinctRoles(h: ClusterBundle, entries: seq<TargetKeyValue>, template: TargetTemplate, t: BundleTarget)
    requires Expressible(h, entries) && Describes(h.meta, entries, template, t)
    ensures OwnKeys(template, t)
  {
    var plain :| plain in entries && IsPemFor(plain, template);
    var i :| 0 <= i < |entries| && entries[i] == plain;
    if t.JksFormat().Some? {
      var e :| e in entries && IsJksFor(h.meta, e, t);
      var j :| 0 <= j < |entries| && entries[j] == e;
    }
    if t.Pkcs12Format().Some? {
      var e :| e in entries && IsPkcs12For(h.meta, e, t);
      var j :| 0 <= j < |entries| && entries[j] == e;
    }
    hide Describes;
  }

  /** A target that v1alpha1 can express is converted back without a panic iff its JKS store has a password, and then
      v1alpha1 renders for it what the ClusterBundle calls for, for all encoders and certificates. */
  lemma BackMeansTheSame(h: ClusterBundle, kind: Kind)
    requires TargetOf(h, kind).Some? && Expressible(h, TargetOf(h, kind).value.data)
    ensures var entries := TargetOf(h, kind).value.data;
            FromHub(h).None? <==> exists e :: e in entries && IsLegacyStore(h.meta, e) && e.password.None?
    ensures FromHub(h).Some? ==>
              var target, t := TargetOf(h, kind).value, FromHub(h).value.spec.target;
              && TemplateOf(t, kind).Some? && TemplateOf(t, kind).value.metadata == target.metadata
              && forall enc, pem, data ::
                   HubRenders(enc, h.meta, target, pem, data) <==>
                   Render(enc, TemplateOf(t, kind).value, WithPassword(t), pem) == Some(data)
  {
    ScanTells(h, kind);
    assert FromHub(h).None? <==> FormatsFrom(h.spec.target, h.meta.annotations).None?;
    hide FormatsFrom, FromHub, HubRenders, Render, Describes, IsLegacyStore, WithPassword, Expressible;
    if FromHub(h).Some? {
      BackDescribes(h, kind);
      var target, t := TargetOf(h, kind).value, FromHub(h).value.spec.target;
      var template := TemplateOf(t, kind).value;
      PasswordGiven(t);
      forall enc, pem, data
        ensures HubRenders(enc, h.meta, target, pem, data) <==>
                Render(enc, template, WithPassword(t), pem) == Some(data)
      {
        DescribedRenders(enc, h.meta, target, template, t, pem, data);
        RenderedExactly(enc, template, WithPassword(t), pem, data);
      }
    }
  }

  // ---------- The selector of a ClusterBundle ----------

  /** A ClusterBundle with a target selects the namespaces that its selector, which v1alpha2 demands, selects. */
  ghost predicate HubSelects(h: ClusterBundle, labels: Labels) {
    h.spec.target.namespaceSelector.Some? && Selectors.Satisfies(labels, h.spec.target.namespaceSelector.value)
  }

  /** A converted Bundle with a target selects the same namespaces: those that satisfy the selector, or all. */
  lemma SelectsTheSame(b: Bundle, labels: Labels)
    requires b.spec.target.configMap.Some? || b.spec.target.secret.Some?
    ensures HubSelects(ToHub(b), labels) <==>
            (b.spec.target.namespaceSelector.Some? ==>
               Selectors.Satisfies(labels, b.spec.target.namespaceSelector.value))
  {
    hide SourceRefs, Provider, FoldTexts, InlineTexts, FormatEntries;
    assert Selectors.Satisfies(labels, EMPTY_SELECTOR);
    hide Selectors.Satisfies;
  }

  // ---------- The sources of a ClusterBundle ----------

  /** A reference asks for the entry at its key; the key "*" stands for all entries. */
  function HubRequest(ref: BundleSourceRef): Request {
    Request(ref.name, ref.selector,
            if ref.key == "*" then EveryEntry else if ref.key != "" then OneEntry(ref.key) else NoEntry)
  }

  ghost predicate HubReferencePicks(env: Env, ref: BundleSourceRef, text: string) {
    || (ref.kind == "ConfigMap" && PicksFrom(env.configMaps, HubRequest(ref), text))
    || (ref.kind == "Secret" && PicksFrom(env.secrets, HubRequest(ref), text))
  }

  ghost predicate HubReferenceFails(env: Env, ref: BundleSourceRef, e: SourceError) {
    || (ref.kind == "ConfigMap" && ReferenceFails(env, env.configMaps, env.configMapFaults, HubRequest(ref), e))
    || (ref.kind == "Secret" && ReferenceFails(env, env.secrets, env.secretFaults, HubRequest(ref), e))
  }

  /** The entries of all references, the inline text, and the default package if the provider is the system. */
  ghost predicate HubPicks(env: Env, spec: HubSpec, text: string) {
    || (exists ref :: ref in spec.sourceRefs && HubReferencePicks(env, ref, text))
    || (spec.inLineCAs != "" && text == spec.inLineCAs)
    || (spec.defaultCAs == "System" && env.package.Some? && text == env.package.value.bundle)
  }

  ghost predicate HubFails(env: Env, spec: HubSpec, e: SourceError) {
    || (exists ref :: ref in spec.sourceRefs && HubReferenceFails(env, ref, e))
    || (e == InvalidPEMError && spec.inLineCAs != "" && !Accepted(env.crypto, spec.inLineCAs))
    || (e == InvalidPEMError && spec.defaultCAs == "System" && env.package.Some?
        && !Accepted(env.crypto, env.package.value.bundle))
    || (e == NotFoundError && spec.defaultCAs == "System" && env.package.None?)
  }

  ghost predicate HubGoesIn(env: Env, spec: HubSpec, c: Certificate) {
    Wanted(env, c) && exists text :: HubPicks(env, spec, text) && StandsIn(env.crypto, text, c)
  }

  ghost predicate HubBuilds(env: Env, spec: HubSpec) {
    (forall e :: !HubFails(env, spec, e)) && exists c :: HubGoesIn(env, spec, c)
  }

  lemma InSourcesFrom(spec: HubSpec, s: BundleSource)
    ensures s in SourcesFrom(spec) <==>
            || (exists ref :: ref in spec.sourceRefs && s == SourceFrom(ref))
            || (spec.inLineCAs != "" && s == InlineSource(spec.inLineCAs))
            || (spec.defaultCAs != "" && s == DefaultSource(spec.defaultCAs == PROVIDER_SYSTEM))
  {
    RefsFromContains(spec.sourceRefs, s);
    hide SourceFrom, SourcesFromRefs;
  }

  lemma ReferenceMeans(env: Env, ref: BundleSourceRef)
    requires ref.kind in {CONFIG_MAP, SECRET}
    ensures HasKind(SourceFrom(ref))
    ensures forall t :: Picks(env, SourceFrom(ref), t) <==> HubReferencePicks(env, ref, t)
    ensures forall e :: Fails(env, SourceFrom(ref), e) <==> HubReferenceFails(env, ref, e)
  {
    hide PicksFrom, ReferenceFails;
  }

  lemma PromotedMean(env: Env, spec: HubSpec)
    requires spec.defaultCAs in {"", "System", "Disabled"}
    ensures var s := InlineSource(spec.inLineCAs);
            spec.inLineCAs != "" ==>
              && HasKind(s) && (forall t :: Picks(env, s, t) <==> t == spec.inLineCAs)
              && forall e :: Fails(env, s, e) <==> e == InvalidPEMError && !Accepted(env.crypto, spec.inLineCAs)
    ensures var s := DefaultSource(spec.defaultCAs == PROVIDER_SYSTEM);
            spec.defaultCAs != "" ==>
              && HasKind(s)
              && (forall t :: Picks(env, s, t) <==>
                    spec.defaultCAs == "System" && env.package.Some? && t == env.package.value.bundle)
              && forall e :: Fails(env, s, e) <==>
                   || (e == InvalidPEMError && spec.defaultCAs == "System" && env.package.Some?
                       && !Accepted(env.crypto, env.package.value.bundle))
                   || (e == NotFoundError && spec.defaultCAs == "System" && env.package.None?)
  {
    hide Accepted;
  }

  lemma BackPicks(env: Env, spec: HubSpec, t: string)
    requires WellFormedSources(spec)
    ensures (exists s :: s in SourcesFrom(spec) && Picks(env, s, t)) <==> HubPicks(env, spec, t)
  {
    PromotedMean(env, spec);
    hide Picks, Fails, SourcesFrom, SourceFrom, HubReferencePicks, HubReferenceFails, Accepted, HasKind;
    if s :| s in SourcesFrom(spec) && Picks(env, s, t) {
      InSourcesFrom(spec, s);
      if ref :| ref in spec.sourceRefs && s == SourceFrom(ref) {
        ReferenceMeans(env, ref);
      }
    }
    if ref :| ref in spec.sourceRefs && HubReferencePicks(env, ref, t) {
      InSourcesFrom(spec, SourceFrom(ref));
      ReferenceMeans(env, ref);
    }
    InSourcesFrom(spec, InlineSource(spec.inLineCAs));
    InSourcesFrom(spec, DefaultSource(spec.defaultCAs == PROVIDER_SYSTEM));
  }

  lemma BackFails(env: Env, spec: HubSpec, e: SourceError)
    requires WellFormedSources(spec)
    ensures (exists s :: s in SourcesFrom(spec) && Fails(env, s, e)) <==> HubFails(env, spec, e)
    ensures forall s :: s in SourcesFrom(spec) ==> HasKind(s)
  {
    PromotedMean(env, spec);
    hide Picks, Fails, SourcesFrom, SourceFrom, HubReferencePicks, HubReferenceFails, Accepted, HasKind;
    forall s | s in SourcesFrom(spec)
      ensures HasKind(s) && (Fails(env, s, e) ==> HubFails(env, spec, e))
    {
      InSourcesFrom(spec, s);
      if ref :| ref in spec.sourceRefs && s == SourceFrom(ref) {
        ReferenceMeans(env, ref);
      }
    }
    if ref :| ref in spec.sourceRefs && HubReferenceFails(env, ref, e) {
      InSourcesFrom(spec, SourceFrom(ref));
      ReferenceMeans(env, ref);
    }
    InSourcesFrom(spec, InlineSource(spec.inLineCAs));
    InSourcesFrom(spec, DefaultSource(spec.defaultCAs == PROVIDER_SYSTEM));
  }

  /** The sources that a ClusterBundle is converted back to build if and only if the ClusterBundle calls for it, and
      into the certificates that it calls for, for every ClusterBundle that conforms to the schema. */
  lemma HubSourcesMean(env: Env, spec: HubSpec)
    requires WellFormedSources(spec)
    ensures Buildable(env, SourcesFrom(spec)) <==> HubBuilds(env, spec)
    ensures forall c :: GoesIn(env, SourcesFrom(spec), c) <==> HubGoesIn(env, spec, c)
  {
    var sources := SourcesFrom(spec);
    BuildsExactly(env, sources);
    hide Picks, Fails, SourcesFrom, HubPicks, HubFails, StandsIn, Wanted, HasKind, Buildable, WellFormedSources;
    forall t
      ensures (exists s :: s in sources && Picks(env, s, t)) <==> HubPicks(env, spec, t)
    {
      BackPicks(env, spec, t);
    }
    forall e
      ensures (exists s :: s in sources && Fails(env, s, e)) <==> HubFails(env, spec, e)
      ensures forall s :: s in sources ==> HasKind(s)
    {
      BackFails(env, spec, e);
    }
    BackFails(env, spec, OtherError);
    assert forall c :: GoesIn(env, sources, c) <==> HubGoesIn(env, spec, c);
    hide GoesIn, HubGoesIn;
    if e :| HubFails(env, spec, e) {
      var s :| s in sources && Fails(env, s, e);
    }
    if s, e :| s in sources && Fails(env, s, e) {
      assert HubFails(env, spec, e);
    }
  }

  /** A converted Bundle builds, as a ClusterBundle, if and only if it did before, and into the same certificates; for
      admitted sources without a wildcard key and without texts that glue. */
  lemma SourcesMeanTheSame(env: Env, b: Bundle)
    requires AdmittedSources(b.spec.sources) && Portable(b.spec.sources)
    ensures HubBuilds(env, ToHub(b).spec) <==> Buildable(env, b.spec.sources)
    ensures HubBuilds(env, ToHub(b).spec) ==>
              forall c :: HubGoesIn(env, ToHub(b).spec, c) <==> GoesIn(env, b.spec.sources, c)
  {
    var sources, spec := b.spec.sources, ToHub(b).spec;
    ConvertedIsWellFormed(sources);
    assert SourcesFrom(spec) == SourcesBack(sources);
    assert WellFormedSources(spec);
    hide ToHub, SourcesFrom, SourcesBack, WellFormedSources;
    HubSourcesMean(env, spec);
    SourcesKeepMeaning(env, sources);
    if Buildable(env, sources) {
      BuildableUsable(env, sources);
      BuildableUsable(env, SourcesBack(sources));
      forall c
        ensures HubGoesIn(env, spec, c) <==> GoesIn(env, sources, c)
      {
        ResolvedMeans(env, sources, c);
        ResolvedMeans(env, SourcesBack(sources), c);
        hide GoesIn, HubGoesIn, Resolved, SourceTexts;
      }
    }
  }

  lemma BuildableUsable(env: Env, sources: seq<BundleSource>)
    requires Buildable(env, sources)
    ensures forall s :: s in sources ==> Usable(env, SourceTexts(env, s))
  {
    hide SourceTexts, Resolved;
  }
}
