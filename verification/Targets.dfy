/**
 Target ConfigMaps and Secrets under Server-Side Apply: what the manager's forced patches do to
 an object that other field managers write as well, and when an object needs a patch.
 */
module Targets {
  import opened Prelude
  import opened BundleApi
  import opened ServerSideApply

  datatype Kind = ConfigMapKind | SecretKind

  datatype Resource = Resource(kind: Kind, namespace: string, name: string)

  type Data = map<string, Owned<string>>

  /** A target object: the bundle label, the controlling owner, the hash annotation, its data (binary
      data included) and whether its deletion has begun. */
  datatype TargetObject = TargetObject(owner: Option<string>, controller: Option<string>,
                                       hash: Option<string>, data: Data, deleting: bool)

  /** Who applies, and the hash and data entries it wants. */
  datatype Plan = Plan(bundle: string, uid: string, hash: string, keys: set<string>)

  /** SHA-256 in hexadecimal and the third-party JKS and PKCS#12 encoders. */
  datatype Encoders = Encoders(
    sha256: string -> string,
    jks: (string, string) -> Option<string>,
    pkcs12: (string, string, string) -> Option<string>)

  // ---------- The data of a target ----------

  function ExpectedKeys(template: TargetTemplate, target: BundleTarget): set<string> {
    {template.key}
    + (if target.JksFormat().Some? then {target.JksFormat().value.key} else {})
    + (if target.Pkcs12Format().Some? then {target.Pkcs12Format().value.key} else {})
  }

  /** The entries to write; `None` when an encoder fails, or when it panics on a missing PKCS#12 password. */
  function Render(enc: Encoders, template: TargetTemplate, target: BundleTarget, pem: string)
    : (r: Option<map<string, string>>)
    ensures r.Some? ==> r.value.Keys == ExpectedKeys(template, target) && !RenderPanics(enc, target, pem)
  {
    var plain := map[template.key := pem];
    match target.JksFormat()
    case Some(jks) =>
      (match enc.jks(jks.password, pem)
       case Some(store) => WithPkcs12(enc, target, pem, plain[jks.key := store])
       case None => None)
    case None => WithPkcs12(enc, target, pem, plain)
  }

  function WithPkcs12(enc: Encoders, target: BundleTarget, pem: string, data: map<string, string>)
    : (r: Option<map<string, string>>)
    ensures r.Some? ==> (r.value.Keys == data.Keys
              + if target.Pkcs12Format().Some? then {target.Pkcs12Format().value.key} else {})
  {
    match target.Pkcs12Format()
    case None => Some(data)
    case Some(p) =>
      if p.password.None? then None
      else match enc.pkcs12(p.password.value, EffectiveProfile(p.profile), pem)
        case Some(store) => Some(data[p.key := store])
        case None => None
  }

  /** Rendering dereferences a missing PKCS#12 password, once the JKS store is encoded. */
  predicate RenderPanics(enc: Encoders, target: BundleTarget, pem: string) {
    && target.Pkcs12Format().Some? && target.Pkcs12Format().value.password.None?
    && (target.JksFormat().Some? ==> enc.jks(target.JksFormat().value.password, pem).Some?)
  }

  /** An unset profile means the legacy RC2 encoder. */
  function EffectiveProfile(profile: string): string {
    if profile == "" then LEGACY_RC2 else profile
  }

  // ---------- The hash of a target ----------

  function Codes(s: string): seq<int> {
    seq(|s|, i requires 0 <= i < |s| => s[i] as int)
  }

  predicate IsLeast(k: string, keys: set<string>) {
    k in keys && forall j :: j in keys && j != k ==> Before(Codes(k), Codes(j))
  }

  lemma {:induction false} LeastExists(keys: set<string>) returns (least: string)
    requires keys != {}
    ensures IsLeast(least, keys)
    decreases |keys|
  {
    hide Codes, Before;
    least :| least in keys;
    var rest := keys - {least};
    assert forall j :: j in keys ==> j == least || j in rest;
    if rest != {} {
      var other := LeastExists(rest);
      CodesDiffer(least, other);
      forall j | j in rest && j != other && Before(Codes(least), Codes(other))
        ensures Before(Codes(least), Codes(j))
      {
        BeforeTransitive(Codes(least), Codes(other), Codes(j));
      }
      least := if Before(Codes(least), Codes(other)) then least else other;
    }
  }

  lemma CodesDiffer(a: string, b: string)
    ensures a != b ==> Before(Codes(a), Codes(b)) != Before(Codes(b), Codes(a))
    ensures !(Before(Codes(a), Codes(b)) && Before(Codes(b), Codes(a)))
  {
    BeforeTotal(Codes(a), Codes(b));
    if Codes(a) == Codes(b) {
      assert |a| == |Codes(a)| == |Codes(b)| == |b|;
      forall i | 0 <= i < |a|
        ensures a[i] == b[i]
      {
        assert Codes(a)[i] == Codes(b)[i];
      }
      assert a == b;
    }
  }

  lemma LeastUnique(keys: set<string>)
    ensures forall a, b :: IsLeast(a, keys) && IsLeast(b, keys) ==> a == b
  {
    forall a, b | IsLeast(a, keys) && IsLeast(b, keys)
      ensures a == b
    {
      CodesDiffer(a, b);
    }
  }

  lemma HasLeast(keys: set<string>)
    requires keys != {}
    ensures exists k :: k in keys && IsLeast(k, keys)
  {
    var k := LeastExists(keys);
  }

  /** Keys and values one after the other in the order of the keys, without any separator. */
  function Listing(m: map<string, string>): string
    decreases |m|
  {
    if m == map[] then ""
    else
      HasLeast(m.Keys);
      LeastUnique(m.Keys);
      var k :| k in m.Keys && IsLeast(k, m.Keys);
      k + m[k] + Listing(m - {k})
  }

  /** The passwords one after the other; a missing one counts as empty. */
  function Passwords(target: BundleTarget): string {
    (if target.JksFormat().Some? then target.JksFormat().value.password else "")
    + (if target.Pkcs12Format().Some? && target.Pkcs12Format().value.password.Some?
       then target.Pkcs12Format().value.password.value else "")
  }

  /** What is hashed after the certificates: passwords, annotations and labels.  Neither the PKCS#12 profile
      nor any key goes into it. */
  function Fingerprint(target: BundleTarget, template: TargetTemplate): string {
    Passwords(target) + Listing(template.metadata.annotations) + Listing(template.metadata.labels)
  }

  /** What an up-to-date target is recognised by. */
  function TrustBundleHash(enc: Encoders, pem: string, target: BundleTarget, template: TargetTemplate): string {
    enc.sha256(pem + Fingerprint(target, template))
  }

  // ---------- Applying and withdrawing ----------

  function PlanOf(enc: Encoders, pem: string, target: BundleTarget, template: TargetTemplate,
                  bundle: string, uid: string): Plan
  {
    Plan(bundle, uid, TrustBundleHash(enc, pem, target, template), ExpectedKeys(template, target))
  }

  predicate ControlledBy(obj: TargetObject, uid: string) {
    obj.controller == Some(uid)
  }

  function ManagedKeys(obj: TargetObject): set<string> {
    ManagedFields(obj.data)
  }

  predicate NeedsUpdate(obj: TargetObject, plan: Plan) {
    || !ControlledBy(obj, plan.uid)
    || obj.owner != Some(plan.bundle)
    || obj.hash != Some(plan.hash)
    || ManagedKeys(obj) != plan.keys
  }

  function Applied(old_: Option<TargetObject>, plan: Plan, patch: map<string, string>): TargetObject {
    var data := if old_.Some? then old_.value.data else map[];
    TargetObject(Some(plan.bundle), Some(plan.uid), Some(plan.hash), Apply(data, patch),
                 old_.Some? && old_.value.deleting)
  }

  /** The object after the manager withdraws its entries.  The label and the owner reference stay. */
  function Withdrawn(obj: TargetObject, bundle: string, uid: string): TargetObject {
    TargetObject(Some(bundle), Some(uid), None, Apply(obj.data, map[]), obj.deleting)
  }

  /** Cleaning up withdraws the entries and deletes an object that is left without data. */
  function Cleaned(obj: TargetObject, bundle: string, uid: string): Option<TargetObject> {
    var left := Withdrawn(obj, bundle, uid);
    if left.data == map[] then None else Some(left)
  }

  /** Some entry belongs to another field manager, or to nobody. */
  predicate HasForeignData(obj: TargetObject) {
    HasForeignField(obj.data)
  }

  // ---------- Properties ----------

  /** An applied object carries the planned entries and needs no further update. */
  lemma AppliedIsCurrent(old_: Option<TargetObject>, plan: Plan, patch: map<string, string>)
    requires patch.Keys == plan.keys
    ensures !NeedsUpdate(Applied(old_, plan, patch), plan)
    ensures forall k :: k in patch ==>
              k in Applied(old_, plan, patch).data && Applied(old_, plan, patch).data[k].value == patch[k]
  {
    AppliedAsListed(if old_.Some? then old_.value.data else map[], patch);
  }

  /** Cleaning up leaves an object behind exactly when it holds foreign data, and then cleaning up
      again changes nothing. */
  lemma CleanedUp(obj: TargetObject, bundle: string, uid: string)
    ensures Cleaned(obj, bundle, uid).Some? <==> HasForeignData(obj)
    ensures Cleaned(obj, bundle, uid).Some? ==>
              var left := Cleaned(obj, bundle, uid).value;
              HasForeignData(left) && ManagedKeys(left) == {} && Cleaned(left, bundle, uid) == Some(left)
  {
    var left := Withdrawn(obj, bundle, uid);
    if HasForeignData(obj) {
      var k :| k in obj.data && obj.data[k].owners != {MANAGER};
      assert k in left.data && MANAGER !in left.data[k].owners;
      forall j | j in left.data
        ensures MANAGER !in left.data[j].owners && left.data[j].owners - {MANAGER} == left.data[j].owners
      {
      }
      assert Apply(left.data, map[]) == left.data;
      assert HasForeignData(left);
      assert left.data != map[];
    } else {
      assert left.data == map[];
    }
  }

  /** What another field manager does to one entry: it forces a value, or removes the entry. */
  datatype Edit = Write(manager: string, key: string, value: string) | Remove(key: string)

  function Edited(obj: TargetObject, e: Edit): TargetObject {
    match e
    case Write(m, k, v) =>
      var owners := if k in obj.data && obj.data[k].value == v then obj.data[k].owners + {m} else {m};
      obj.(data := obj.data[k := Owned(v, owners)])
    case Remove(k) => obj.(data := map j | j in obj.data && j != k :: obj.data[j])
  }

  /** The edit changes or removes an entry that the manager owns; a write of the value that the entry
      already has does neither. */
  predicate Tampers(obj: TargetObject, e: Edit) {
    e.key in ManagedKeys(obj) && (e.Remove? || obj.data[e.key].value != e.value)
  }

  /** An edit of a current object is noticed exactly when it changes or removes a planned entry, even
      though values themselves are never compared. */
  lemma TamperingIsNoticed(obj: TargetObject, plan: Plan, e: Edit)
    requires !NeedsUpdate(obj, plan) && (e.Write? ==> e.manager != MANAGER)
    ensures NeedsUpdate(Edited(obj, e), plan) <==> Tampers(obj, e)
  {
    var after := Edited(obj, e);
    if Tampers(obj, e) {
      assert e.key !in ManagedKeys(after);
    } else {
      assert ManagedKeys(after) == ManagedKeys(obj);
    }
  }
}
