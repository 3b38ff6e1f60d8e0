/**
 Which changes of a Bundle's target make its existing objects need an update, and which changes would
 alter what is written into them: the two are not the same.
 */
module TargetProperties {
  import opened Prelude
  import opened BundleApi
  import opened Targets

  // ---------- Which changes are noticed ----------

  /** Both targets leave the same marks on an object: the same hashed text and the same keys. */
  predicate SameMarks(template: TargetTemplate, t: BundleTarget, template': TargetTemplate, t': BundleTarget) {
    Fingerprint(t', template') == Fingerprint(t, template) && ExpectedKeys(template', t') == ExpectedKeys(template, t)
  }

  /** An object that is current for one bundle text and target needs an update for another exactly if the
      hashed texts or the keys differ, as long as the hash does not collide on the two texts. */
  lemma ChangeIsNoticed(obj: TargetObject, enc: Encoders, bundle: string, uid: string,
                        pem: string, template: TargetTemplate, t: BundleTarget,
                        pem': string, template': TargetTemplate, t': BundleTarget)
    requires !NeedsUpdate(obj, PlanOf(enc, pem, t, template, bundle, uid))
    requires var a, b := pem + Fingerprint(t, template), pem' + Fingerprint(t', template');
             enc.sha256(a) == enc.sha256(b) ==> a == b
    ensures NeedsUpdate(obj, PlanOf(enc, pem', t', template', bundle, uid)) <==>
            pem' + Fingerprint(t', template') != pem + Fingerprint(t, template)
            || ExpectedKeys(template', t') != ExpectedKeys(template, t)
    ensures pem' == pem ==>
              (NeedsUpdate(obj, PlanOf(enc, pem', t', template', bundle, uid))
               <==> !SameMarks(template, t, template', t'))
  {
    PrefixCancels(pem, Fingerprint(t, template), Fingerprint(t', template'));
    hide Fingerprint, ExpectedKeys;
  }

  /** No hash function and no bundle text gives the change away. */
  ghost predicate Unnoticed(template: TargetTemplate, t: BundleTarget, template': TargetTemplate, t': BundleTarget,
                            bundle: string, uid: string)
  {
    forall enc, pem :: PlanOf(enc, pem, t', template', bundle, uid) == PlanOf(enc, pem, t, template, bundle, uid)
  }

  /** A change of target is unnoticed for every hash function and every bundle text if and only if it keeps
      the marks. */
  lemma UnnoticedExactly(template: TargetTemplate, t: BundleTarget, template': TargetTemplate, t': BundleTarget,
                         bundle: string, uid: string)
    ensures Unnoticed(template, t, template', t', bundle, uid) <==> SameMarks(template, t, template', t')
  {
    hide Fingerprint, ExpectedKeys;
    var enc := Encoders(x => x, (x, y) => None, (x, y, z) => None);
    PrefixCancels("", Fingerprint(t, template), Fingerprint(t', template'));
    if Unnoticed(template, t, template', t', bundle, uid) {
      assert PlanOf(enc, "", t', template', bundle, uid) == PlanOf(enc, "", t, template, bundle, uid);
    }
  }

  lemma ListingStep(m: map<string, string>, k: string)
    requires IsLeast(k, m.Keys)
    ensures Listing(m) == k + m[k] + Listing(m - {k})
  {
    LeastUnique(m.Keys);
    assert k in m;
  }

  lemma RestOf(m: map<string, string>, k: string, v: string, least: string)
    requires k in m && least in m
    ensures m[k := v].Keys == m.Keys && m[k := v][least] == (if least == k then v else m[least])
    ensures m[k := v] - {least} == if least == k then m - {k} else (m - {least})[k := v]
    ensures |m - {least}| < |m|
  {
    assert m.Keys == (m - {least}).Keys + {least};
  }

  /** Another value under one key gives another listing. */
  lemma {:induction false} ListingTellsValue(m: map<string, string>, k: string, v: string, v': string)
    requires k in m
    ensures Listing(m[k := v]) == Listing(m[k := v']) <==> v == v'
    decreases |m|
  {
    HasLeast(m.Keys);
    var least :| least in m.Keys && IsLeast(least, m.Keys);
    hide *;
    RestOf(m, k, v, least);
    RestOf(m, k, v', least);
    ListingStep(m[k := v], least);
    ListingStep(m[k := v'], least);
    if least == k {
      SuffixCancels(k + v, k + v', Listing(m - {k}));
      PrefixCancels(k, v, v');
    } else {
      var rest := m - {least};
      PrefixCancels(least + m[least], Listing(rest[k := v]), Listing(rest[k := v']));
      ListingTellsValue(rest, k, v, v');
    }
  }

  /** The order of strings by their bytes. */
  ghost predicate StandsBefore(a: string, b: string) {
    exists n: nat :: LessAt(Codes(a), Codes(b), n)
  }

  ghost predicate Ascending(keys: seq<string>) {
    forall i, j :: 0 <= i < j < |keys| ==> StandsBefore(keys[i], keys[j])
  }

  /** The keys of a map in ascending order. */
  ghost predicate SortedKeys(keys: seq<string>, m: map<string, string>) {
    Ascending(keys) && forall k :: k in keys <==> k in m
  }

  /** Keys and values in the given order. */
  function Spelled(keys: seq<string>, m: map<string, string>): string
    requires forall k :: k in keys ==> k in m
  {
    if keys == [] then "" else keys[0] + m[keys[0]] + Spelled(keys[1..], m)
  }

  lemma FirstBefore(keys: seq<string>, i: nat)
    requires Ascending(keys) && 0 < i < |keys|
    ensures Before(Codes(keys[0]), Codes(keys[i])) && keys[i] != keys[0]
  {
    hide Codes, Before, LessAt;
    assert StandsBefore(keys[0], keys[i]);
    BeforeExactly(Codes(keys[0]), Codes(keys[i]));
    BeforeTotal(Codes(keys[0]), Codes(keys[i]));
  }

  lemma TailAscending(keys: seq<string>)
    requires Ascending(keys) && keys != []
    ensures Ascending(keys[1..])
  {
    hide StandsBefore;
    var tail := keys[1..];
    forall i, j | 0 <= i < j < |tail|
      ensures StandsBefore(tail[i], tail[j])
    {
      assert tail[i] == keys[i + 1] && tail[j] == keys[j + 1];
    }
  }

  lemma FirstIsLeast(keys: seq<string>, m: map<string, string>)
    requires SortedKeys(keys, m) && keys != []
    ensures IsLeast(keys[0], m.Keys) && keys[0] !in keys[1..]
    ensures SortedKeys(keys[1..], m - {keys[0]})
  {
    TailAscending(keys);
    var tail := keys[1..];
    assert keys == [keys[0]] + tail;
    forall k | k in tail
      ensures Before(Codes(keys[0]), Codes(k)) && k != keys[0]
    {
      var i :| 0 <= i < |tail| && tail[i] == k;
      FirstBefore(keys, i + 1);
    }
    hide Codes, Before, Ascending;
  }

  lemma {:induction false} SpelledOfRest(keys: seq<string>, m: map<string, string>, k: string)
    requires (forall j :: j in keys ==> j in m) && k !in keys
    ensures Spelled(keys, m - {k}) == Spelled(keys, m)
  {
    if keys != [] {
      assert keys[0] in keys;
      SpelledOfRest(keys[1..], m, k);
    }
  }

  lemma {:induction false} ListingIsSorted(m: map<string, string>, keys: seq<string>)
    requires SortedKeys(keys, m)
    ensures Listing(m) == Spelled(keys, m)
  {
    if keys == [] {
      assert m == map[];
    } else {
      FirstIsLeast(keys, m);
      hide SortedKeys, Listing, IsLeast;
      ListingStep(m, keys[0]);
      ListingIsSorted(m - {keys[0]}, keys[1..]);
      SpelledOfRest(keys[1..], m, keys[0]);
    }
  }

  /** What is hashed after the certificates, in this order: the JKS and the PKCS#12 password, the annotations and the
      labels, each with its value and sorted by the bytes of their keys. */
  lemma HashedText(template: TargetTemplate, t: BundleTarget, annotations: seq<string>, labels: seq<string>)
    requires SortedKeys(annotations, template.metadata.annotations) && SortedKeys(labels, template.metadata.labels)
    ensures Fingerprint(t, template) ==
            (if t.JksFormat().Some? then t.JksFormat().value.password else "")
            + (if t.Pkcs12Format().Some? && t.Pkcs12Format().value.password.Some?
               then t.Pkcs12Format().value.password.value else "")
            + Spelled(annotations, template.metadata.annotations) + Spelled(labels, template.metadata.labels)
  {
    ListingIsSorted(template.metadata.annotations, annotations);
    ListingIsSorted(template.metadata.labels, labels);
    hide Listing, Spelled, Ascending;
  }

  function WithAnnotation(template: TargetTemplate, k: string, v: string): TargetTemplate {
    template.(metadata := template.metadata.(annotations := template.metadata.annotations[k := v]))
  }

  function WithLabel(template: TargetTemplate, k: string, v: string): TargetTemplate {
    template.(metadata := template.metadata.(labels := template.metadata.labels[k := v]))
  }

  function WithJksPassword(t: BundleTarget, password: string): BundleTarget
    requires t.JksFormat().Some?
  {
    t.(additionalFormats := Some(AdditionalFormats(
         Some(t.JksFormat().value.(password := password)), t.Pkcs12Format())))
  }

  function WithPkcs12Password(t: BundleTarget, password: string): BundleTarget
    requires t.Pkcs12Format().Some?
  {
    t.(additionalFormats := Some(AdditionalFormats(
         t.JksFormat(), Some(t.Pkcs12Format().value.(password := Some(password))))))
  }

  /** Another value for one annotation or one label, or another password, leaves another mark: such a change alone is
      always noticed, short of a hash collision. */
  lemma OneValueIsNoticed(template: TargetTemplate, t: BundleTarget, k: string, v: string)
    ensures var m := template.metadata.annotations;
            k in m ==> (SameMarks(template, t, WithAnnotation(template, k, v), t) <==> v == m[k])
    ensures var m := template.metadata.labels;
            k in m ==> (SameMarks(template, t, WithLabel(template, k, v), t) <==> v == m[k])
    ensures t.JksFormat().Some? ==>
              (SameMarks(template, t, template, WithJksPassword(t, v)) <==> v == t.JksFormat().value.password)
    ensures t.Pkcs12Format().Some? && t.Pkcs12Format().value.password.Some? ==>
              (SameMarks(template, t, template, WithPkcs12Password(t, v))
               <==> v == t.Pkcs12Format().value.password.value)
  {
    var a, l := template.metadata.annotations, template.metadata.labels;
    if k in a {
      assert a[k := a[k]] == a;
      ListingTellsValue(a, k, v, a[k]);
      PrefixCancels(Passwords(t), Listing(a[k := v]), Listing(a));
      SuffixCancels(Passwords(t) + Listing(a[k := v]), Passwords(t) + Listing(a), Listing(l));
    }
    if k in l {
      assert l[k := l[k]] == l;
      ListingTellsValue(l, k, v, l[k]);
      PrefixCancels(Passwords(t) + Listing(a), Listing(l[k := v]), Listing(l));
    }
    if t.JksFormat().Some? {
      OtherJksPassword(template, t, v);
    }
    if t.Pkcs12Format().Some? && t.Pkcs12Format().value.password.Some? {
      OtherPkcs12Password(template, t, v);
    }
    hide Listing, Passwords, WithJksPassword, WithPkcs12Password;
  }

  lemma OtherJksPassword(template: TargetTemplate, t: BundleTarget, v: string)
    requires t.JksFormat().Some?
    ensures SameMarks(template, t, template, WithJksPassword(t, v)) <==> v == t.JksFormat().value.password
  {
    hide Listing;
    PasswordTells(template, t, WithJksPassword(t, v));
    var p := if t.Pkcs12Format().Some? && t.Pkcs12Format().value.password.Some?
             then t.Pkcs12Format().value.password.value else "";
    assert Passwords(t) == t.JksFormat().value.password + p && Passwords(WithJksPassword(t, v)) == v + p;
    SuffixCancels(v, t.JksFormat().value.password, p);
  }

  lemma OtherPkcs12Password(template: TargetTemplate, t: BundleTarget, v: string)
    requires t.Pkcs12Format().Some? && t.Pkcs12Format().value.password.Some?
    ensures SameMarks(template, t, template, WithPkcs12Password(t, v)) <==> v == t.Pkcs12Format().value.password.value
  {
    hide Listing;
    PasswordTells(template, t, WithPkcs12Password(t, v));
    var j := if t.JksFormat().Some? then t.JksFormat().value.password else "";
    assert Passwords(t) == j + t.Pkcs12Format().value.password.value && Passwords(WithPkcs12Password(t, v)) == j + v;
    PrefixCancels(j, v, t.Pkcs12Format().value.password.value);
  }

  lemma PasswordTells(template: TargetTemplate, t: BundleTarget, t': BundleTarget)
    requires ExpectedKeys(template, t') == ExpectedKeys(template, t)
    ensures SameMarks(template, t, template, t') <==> Passwords(t') == Passwords(t)
  {
    var a, l := Listing(template.metadata.annotations), Listing(template.metadata.labels);
    hide Listing, Passwords, ExpectedKeys;
    SuffixCancels(Passwords(t') + a, Passwords(t) + a, l);
    SuffixCancels(Passwords(t'), Passwords(t), a);
  }

  // ---------- Which changes alter the data ----------

  /** All encoders render the same data for both targets. */
  ghost predicate RenderedAlike(template: TargetTemplate, t: BundleTarget,
                                template': TargetTemplate, t': BundleTarget)
  {
    forall enc, pem :: Render(enc, template', t', pem) == Render(enc, template, t, pem)
  }

  /** All entries of the target have their own keys, as admission demands. */
  predicate OwnKeys(template: TargetTemplate, t: BundleTarget) {
    && (t.JksFormat().Some? ==> t.JksFormat().value.key != template.key)
    && (t.Pkcs12Format().Some? ==>
          t.Pkcs12Format().value.key != template.key
          && (t.JksFormat().Some? ==> t.JksFormat().value.key != t.Pkcs12Format().value.key))
  }

  /** A PKCS#12 format without a password is never rendered. */
  predicate NeverRenders(t: BundleTarget) {
    t.Pkcs12Format().Some? && t.Pkcs12Format().value.password.None?
  }

  /** The same key for the certificates, the same key for each format, and the same effective profile. */
  predicate SameRoles(template: TargetTemplate, t: BundleTarget, template': TargetTemplate, t': BundleTarget) {
    && template'.key == template.key
    && (match (t.JksFormat(), t'.JksFormat())
        case (None, None) => true
        case (Some(j), Some(j')) => j'.key == j.key
        case _ => false)
    && (match (t.Pkcs12Format(), t'.Pkcs12Format())
        case (None, None) => true
        case (Some(p), Some(p')) => p'.key == p.key && EffectiveProfile(p'.profile) == EffectiveProfile(p.profile)
        case _ => false)
  }

  predicate SamePasswords(t: BundleTarget, t': BundleTarget) {
    && (t.JksFormat().Some? && t'.JksFormat().Some? ==> t'.JksFormat().value.password == t.JksFormat().value.password)
    && (t.Pkcs12Format().Some? && t'.Pkcs12Format().Some? ==>
          t'.Pkcs12Format().value.password == t.Pkcs12Format().value.password)
  }

  predicate SameRecipe(template: TargetTemplate, t: BundleTarget, template': TargetTemplate, t': BundleTarget) {
    SameRoles(template, t, template', t') && SamePasswords(t, t')
  }

  /** The entries of a rendered target. */
  lemma RenderedEntries(enc: Encoders, template: TargetTemplate, t: BundleTarget, pem: string)
    requires OwnKeys(template, t) && Render(enc, template, t, pem).Some?
    ensures var data := Render(enc, template, t, pem).value;
            && data.Keys == ExpectedKeys(template, t) && data[template.key] == pem
            && (t.JksFormat().Some? ==>
                  Some(data[t.JksFormat().value.key]) == enc.jks(t.JksFormat().value.password, pem))
            && (t.Pkcs12Format().Some? ==>
                  var p := t.Pkcs12Format().value;
                  p.password.Some?
                  && Some(data[p.key]) == enc.pkcs12(p.password.value, EffectiveProfile(p.profile), pem))
  {
  }

  /** Encoders that never fail and mark what they encode: the kind of store, the password and, if `profiles`,
      the profile instead of the password of a PKCS#12 store. */
  ghost function Marking(profiles: bool): Encoders {
    Encoders(x => "", (password, pem) => Some("J" + password),
             (password, profile, pem) => Some("P" + if profiles then profile else password))
  }

  lemma MarkingRenders(template: TargetTemplate, t: BundleTarget, profiles: bool)
    ensures Render(Marking(profiles), template, t, "").None? <==> NeverRenders(t)
  {
  }

  lemma MarkedEntries(template: TargetTemplate, t: BundleTarget, profiles: bool)
    requires OwnKeys(template, t) && !NeverRenders(t)
    ensures Render(Marking(profiles), template, t, "").Some?
    ensures var data := Render(Marking(profiles), template, t, "").value;
            && (forall k :: k in data && data[k] == "" <==> k == template.key)
            && (forall k, v :: k in data && data[k] == "J" + v <==>
                  t.JksFormat() == Some(JKS(k, v)))
            && (forall k, v :: k in data && data[k] == "P" + v <==>
                  t.Pkcs12Format().Some?
                  && var p := t.Pkcs12Format().value;
                     k == p.key && v == if profiles then EffectiveProfile(p.profile) else p.password.value)
  {
    MarkingRenders(template, t, profiles);
    var enc := Marking(profiles);
    RenderedEntries(enc, template, t, "");
    var data := Render(enc, template, t, "").value;
    hide Render;
    forall k | k in data
      ensures k == template.key || data[k] != ""
      ensures k == template.key
              || data[k][0] == (if t.JksFormat().Some? && k == t.JksFormat().value.key then 'J' else 'P')
    {
    }
    forall c: char, v: string, w: string
      ensures [c] + v == [c] + w <==> v == w
    {
      PrefixCancels([c], v, w);
    }
  }

  ghost predicate MarkedAlike(template: TargetTemplate, t: BundleTarget,
                              template': TargetTemplate, t': BundleTarget)
  {
    forall profiles :: Render(Marking(profiles), template', t', "") == Render(Marking(profiles), template, t, "")
  }

  /** Marked data tells the recipes apart. */
  lemma MarksTell(template: TargetTemplate, t: BundleTarget, template': TargetTemplate, t': BundleTarget)
    requires OwnKeys(template, t) && OwnKeys(template', t') && !NeverRenders(t) && !NeverRenders(t')
    requires MarkedAlike(template, t, template', t')
    ensures SameRecipe(template, t, template', t')
  {
    var data := Render(Marking(false), template, t, "");
    assert data == Render(Marking(false), template', t', "");
    assert Render(Marking(true), template, t, "") == Render(Marking(true), template', t', "");
    MarkedEntries(template, t, false);
    MarkedEntries(template', t', false);
    MarkedEntries(template, t, true);
    MarkedEntries(template', t', true);
    assert data.value.Keys == ExpectedKeys(template, t) == ExpectedKeys(template', t');
    hide Render, Marking, EffectiveProfile;
    assert template.key in data.value.Keys;
    if t.JksFormat().Some? {
      var j := t.JksFormat().value;
      assert j.key in data.value && data.value[j.key] == "J" + j.password;
    }
    if t'.JksFormat().Some? {
      var j := t'.JksFormat().value;
      assert j.key in data.value && data.value[j.key] == "J" + j.password;
    }
    if t.Pkcs12Format().Some? {
      PkcsTold(template, t, template', t');
    }
    if t'.Pkcs12Format().Some? {
      PkcsTold(template', t', template, t);
    }
  }

  lemma PkcsTold(template: TargetTemplate, t: BundleTarget, template': TargetTemplate, t': BundleTarget)
    requires OwnKeys(template, t) && OwnKeys(template', t') && !NeverRenders(t) && !NeverRenders(t')
    requires MarkedAlike(template, t, template', t')
    requires t.Pkcs12Format().Some?
    ensures t'.Pkcs12Format().Some?
    ensures var p, p' := t.Pkcs12Format().value, t'.Pkcs12Format().value;
            p'.key == p.key && p'.password == p.password && EffectiveProfile(p'.profile) == EffectiveProfile(p.profile)
  {
    MarkedEntries(template, t, false);
    MarkedEntries(template', t', false);
    MarkedEntries(template, t, true);
    MarkedEntries(template', t', true);
    var p := t.Pkcs12Format().value;
    var data, profiles := Render(Marking(false), template, t, "").value, Render(Marking(true), template, t, "").value;
    assert data == Render(Marking(false), template', t', "").value;
    assert profiles == Render(Marking(true), template', t', "").value;
    hide Render, Marking, EffectiveProfile;
    assert p.key in data && data[p.key] == "P" + p.password.value;
    assert p.key in profiles && profiles[p.key] == "P" + EffectiveProfile(p.profile);
  }

  lemma SameRecipeRenders(enc: Encoders, pem: string, template: TargetTemplate, t: BundleTarget,
                          template': TargetTemplate, t': BundleTarget)
    requires SameRecipe(template, t, template', t') || (NeverRenders(t) && NeverRenders(t'))
    ensures Render(enc, template', t', pem) == Render(enc, template, t, pem)
  {
  }

  /** Two targets are rendered alike by all encoders if and only if they have the same recipe, or are never
      rendered at all. */
  lemma RenderedAlikeExactly(template: TargetTemplate, t: BundleTarget, template': TargetTemplate, t': BundleTarget)
    requires OwnKeys(template, t) && OwnKeys(template', t')
    ensures RenderedAlike(template, t, template', t') <==>
            if NeverRenders(t) || NeverRenders(t') then NeverRenders(t) && NeverRenders(t')
            else SameRecipe(template, t, template', t')
  {
    if RenderedAlike(template, t, template', t') {
      assert MarkedAlike(template, t, template', t');
      MarkingRenders(template, t, false);
      MarkingRenders(template', t', false);
      hide Render, Marking, NeverRenders;
      if !NeverRenders(t) && !NeverRenders(t') {
        MarksTell(template, t, template', t');
      }
    } else {
      forall enc, pem | SameRecipe(template, t, template', t') || (NeverRenders(t) && NeverRenders(t'))
        ensures Render(enc, template', t', pem) == Render(enc, template, t, pem)
      {
        SameRecipeRenders(enc, pem, template, t, template', t');
      }
      hide Render;
    }
  }

  // ---------- When an unnoticed change is harmless ----------

  /** The change alters neither the data nor the metadata of the target. */
  predicate Harmless(template: TargetTemplate, t: BundleTarget, template': TargetTemplate, t': BundleTarget) {
    SameRecipe(template, t, template', t') && template'.metadata == template.metadata
  }

  predicate SameJksLength(t: BundleTarget, t': BundleTarget) {
    t.JksFormat().Some? && t'.JksFormat().Some? ==> |t'.JksFormat().value.password| == |t.JksFormat().value.password|
  }

  /** A harmless change is never noticed, and an unnoticed one is harmless if and only if it keeps the roles of
      all keys, the metadata, and the length of the JKS password. */
  lemma UnnoticedHarmlessExactly(template: TargetTemplate, t: BundleTarget, template': TargetTemplate, t': BundleTarget)
    requires !NeverRenders(t) && !NeverRenders(t')
    ensures Harmless(template, t, template', t') <==>
            && SameMarks(template, t, template', t') && SameRoles(template, t, template', t')
            && template'.metadata == template.metadata && SameJksLength(t, t')
  {
    hide Listing, EffectiveProfile;
    if SameRoles(template, t, template', t') && template'.metadata == template.metadata {
      assert ExpectedKeys(template', t') == ExpectedKeys(template, t);
      var rest := Listing(template.metadata.annotations) + Listing(template.metadata.labels);
      assert Fingerprint(t, template) == Passwords(t) + rest && Fingerprint(t', template') == Passwords(t') + rest;
      SuffixCancels(Passwords(t), Passwords(t'), rest);
      if Passwords(t) == Passwords(t') && SameJksLength(t, t') {
        SplitPasswords(t, t');
      }
    }
  }

  lemma SplitPasswords(t: BundleTarget, t': BundleTarget)
    requires !NeverRenders(t) && !NeverRenders(t')
    requires Passwords(t') == Passwords(t) && SameJksLength(t, t')
    requires t'.JksFormat().Some? == t.JksFormat().Some? && t'.Pkcs12Format().Some? == t.Pkcs12Format().Some?
    ensures SamePasswords(t, t')
  {
    if t.JksFormat().Some? {
      var n := |t.JksFormat().value.password|;
      assert Passwords(t)[..n] == t.JksFormat().value.password;
      assert Passwords(t')[..n] == t'.JksFormat().value.password;
      if t.Pkcs12Format().Some? {
        assert Passwords(t)[n..] == t.Pkcs12Format().value.password.value;
        assert Passwords(t')[n..] == t'.Pkcs12Format().value.password.value;
      }
    } else if t.Pkcs12Format().Some? {
      assert Passwords(t) == t.Pkcs12Format().value.password.value;
      assert Passwords(t') == t'.Pkcs12Format().value.password.value;
    }
  }

  // ---------- Changes that are missed ----------

  /** The change keeps the marks although it is not harmless: objects that were current stay as they are. */
  predicate Missed(template: TargetTemplate, t: BundleTarget, template': TargetTemplate, t': BundleTarget) {
    SameMarks(template, t, template', t') && !Harmless(template, t, template', t')
  }

  /** A missed change is one that no hash function and no bundle text gives away, and that alters the metadata
      or what some encoder renders. */
  lemma MissedExactly(template: TargetTemplate, t: BundleTarget, template': TargetTemplate, t': BundleTarget,
                      bundle: string, uid: string)
    requires OwnKeys(template, t) && OwnKeys(template', t') && !NeverRenders(t) && !NeverRenders(t')
    ensures Missed(template, t, template', t') <==>
            && Unnoticed(template, t, template', t', bundle, uid)
            && !(template'.metadata == template.metadata && RenderedAlike(template, t, template', t'))
  {
    UnnoticedExactly(template, t, template', t', bundle, uid);
    RenderedAlikeExactly(template, t, template', t');
    hide Unnoticed, RenderedAlike, SameMarks, SameRecipe;
  }

  function WithFormats(t: BundleTarget, jks: JKS, pkcs12: PKCS12): BundleTarget {
    t.(additionalFormats := Some(AdditionalFormats(Some(jks), Some(pkcs12))))
  }

  /** Another PKCS#12 profile is missed. */
  lemma ProfileChangeMissed(template: TargetTemplate, t: BundleTarget, profile: string)
    requires t.Pkcs12Format().Some?
    requires EffectiveProfile(profile) != EffectiveProfile(t.Pkcs12Format().value.profile)
    ensures var p := t.Pkcs12Format().value.(profile := profile);
            Missed(template, t, template, t.(additionalFormats := Some(AdditionalFormats(t.JksFormat(), Some(p)))))
  {
    hide Listing, EffectiveProfile;
  }

  /** Exchanging the keys of the two formats is missed. */
  lemma SwappedFormatsMissed(template: TargetTemplate, t: BundleTarget, j: JKS, p: PKCS12)
    requires t.JksFormat() == Some(j) && t.Pkcs12Format() == Some(p) && j.key != p.key
    ensures Missed(template, t, template, WithFormats(t, j.(key := p.key), p.(key := j.key)))
  {
    hide Listing, EffectiveProfile;
    assert ExpectedKeys(template, WithFormats(t, j.(key := p.key), p.(key := j.key))) == ExpectedKeys(template, t);
  }

  /** Exchanging the key of the certificates and the key of the JKS format is missed. */
  lemma SwappedTemplateMissed(template: TargetTemplate, t: BundleTarget, j: JKS)
    requires t.JksFormat() == Some(j) && j.key != template.key
    ensures Missed(template, t, template.(key := j.key),
                   t.(additionalFormats := Some(AdditionalFormats(Some(j.(key := template.key)), t.Pkcs12Format()))))
  {
    hide Listing, EffectiveProfile;
    var t' := t.(additionalFormats := Some(AdditionalFormats(Some(j.(key := template.key)), t.Pkcs12Format())));
    assert ExpectedKeys(template.(key := j.key), t') == ExpectedKeys(template, t);
  }

  /** Replacing the JKS format by a PKCS#12 format with its key and password is missed. */
  lemma SwitchedFormatMissed(template: TargetTemplate, t: BundleTarget, j: JKS, profile: string)
    requires t.JksFormat() == Some(j) && t.Pkcs12Format().None?
    ensures var p := PKCS12(j.key, Some(j.password), profile);
            Missed(template, t, template, t.(additionalFormats := Some(AdditionalFormats(None, Some(p)))))
  {
    hide Listing, EffectiveProfile;
    assert j.password + "" == "" + j.password;
  }

  /** Moving the end of the JKS password to the front of the PKCS#12 password is missed. */
  lemma MovedPasswordMissed(template: TargetTemplate, t: BundleTarget, j: JKS, p: PKCS12, n: nat)
    requires t.JksFormat() == Some(j) && t.Pkcs12Format() == Some(p) && p.password.Some? && n < |j.password|
    ensures var j' := j.(password := j.password[..n]);
            var p' := p.(password := Some(j.password[n..] + p.password.value));
            Missed(template, t, template, WithFormats(t, j', p'))
  {
    hide Listing, EffectiveProfile;
    var password := j.password;
    assert password[..n] + (password[n..] + p.password.value) == password + p.password.value;
  }

  lemma OneEntryListing(k: string, v: string)
    ensures Listing(map[k := v]) == k + v
  {
    LeastUnique({k});
    var m := map[k := v];
    assert m.Keys == {k} && IsLeast(k, m.Keys);
    assert m - {k} == map[];
    assert k + v + "" == k + v;
  }

  /** Moving the start of the value of a sole annotation to the end of its key is missed. */
  lemma MovedAnnotationMissed(template: TargetTemplate, t: BundleTarget, k: string, x: string, v: string)
    requires template.metadata.annotations == map[k := x + v] && x != ""
    ensures Missed(template, t, template.(metadata := template.metadata.(annotations := map[k + x := v])), t)
  {
    hide Listing, EffectiveProfile;
    OneEntryListing(k, x + v);
    OneEntryListing(k + x, v);
    assert k + (x + v) == k + x + v;
    assert k in template.metadata.annotations && k !in map[k + x := v] by {
      assert |k + x| != |k|;
    }
  }
}
