/**
 Resolving the sources of a Bundle into one certificate pool.

 The specification is about sets: which texts a source selects and which certificates they
 contribute.  The methods visit sources in order but objects and keys in any order, and
 return early on the first error, as the controller does.
 */
module Sources {
  import opened Prelude
  import opened Pem
  import opened CertPools
  import opened PoolProperties
  import opened Packages
  import opened BundleApi

  /** A ConfigMap or Secret of the trust namespace. */
  datatype SourceObject =
    | ConfigMapObject(labels: Labels, data: map<string, string>, binaryData: map<string, string>)
    | SecretObject(labels: Labels, data: map<string, string>, tls: bool)

  /** Which reads fail for another reason than a missing object, by name and selector. */
  type ReadFaults = (string, Option<LabelSelector>) -> bool

  /** All that resolution reads: the trust namespace, the default package, options and time. */
  datatype Env = Env(crypto: Crypto, configMaps: map<string, SourceObject>,
                     secrets: map<string, SourceObject>, configMapFaults: ReadFaults, secretFaults: ReadFaults,
                     package: Option<Package>,
                     hashText: string -> string,
                     now: int, filterExpired: bool, filterNonCA: bool)

  datatype SourceError = NotFoundError | InvalidPEMError | InvalidSecretError | OtherError

  datatype BuildResult =
    | Built(pool: CertPool, defaultCAID: string)
    | Failed(error: SourceError)
    | Panicked

  // ---------- What a source selects ----------

  function Values(data: map<string, string>): set<string> {
    set k | k in data :: data[k]
  }

  /** The texts that a reference takes from one object; `None` is an error. */
  function ObjectTexts(ref: SourceObjectKeySelector, obj: SourceObject): Option<set<string>> {
    if ref.key != "" then
      if ref.key in obj.data then Some({obj.data[ref.key]})
      else if obj.ConfigMapObject? && ref.key in obj.binaryData then Some({obj.binaryData[ref.key]})
      else None
    else if !ref.AllKeys() then Some({})
    else match obj
      case ConfigMapObject(_, data, binaryData) => Some(Values(data) + Values(binaryData))
      case SecretObject(_, data, tls) => if tls then None else Some(Values(data))
  }

  /** The objects that a reference names or selects; `None` is an error. */
  function RefNames(objects: map<string, SourceObject>, ref: SourceObjectKeySelector): Option<set<string>> {
    if ref.name != "" then
      if ref.name in objects then Some({ref.name}) else None
    else if !SelectorValid(ref.selector) then None
    else Some(set n | n in objects && SelectorMatches(ref.selector, objects[n].labels))
  }

  function RefTexts(objects: map<string, SourceObject>, ref: SourceObjectKeySelector): Option<set<string>> {
    match RefNames(objects, ref)
    case None => None
    case Some(names) =>
      if exists n :: n in names && n in objects && ObjectTexts(ref, objects[n]).None? then None
      else Some(NamedTexts(objects, ref, names))
  }

  /** The same through the API, where the read may fail. */
  function ReadTexts(objects: map<string, SourceObject>, faults: ReadFaults, ref: SourceObjectKeySelector)
    : Option<set<string>>
  {
    if faults(ref.name, ref.selector) then None else RefTexts(objects, ref)
  }

  function NamedTexts(objects: map<string, SourceObject>, ref: SourceObjectKeySelector, names: set<string>)
    : set<string>
  {
    set n, t | n in names && n in objects && ObjectTexts(ref, objects[n]).Some?
               && t in ObjectTexts(ref, objects[n]).value :: t
  }

  predicate UsesDefault(s: BundleSource) {
    s.configMap.None? && s.secret.None? && s.inLine == "" && s.useDefaultCAs == Some(true)
  }

  predicate Untyped(s: BundleSource) {
    s.configMap.None? && s.secret.None? && s.inLine == "" && s.useDefaultCAs.None?
  }

  /** Some source has no type at all, which the webhook rejects. */
  ghost predicate HasUntyped(sources: seq<BundleSource>) {
    exists s :: s in sources && Untyped(s)
  }

  /** The texts of a source: the first kind that is set decides. */
  function SourceTexts(env: Env, s: BundleSource): Option<set<string>> {
    if s.configMap.Some? then ReadTexts(env.configMaps, env.configMapFaults, s.configMap.value)
    else if s.secret.Some? then ReadTexts(env.secrets, env.secretFaults, s.secret.value)
    else if s.inLine != "" then Some({s.inLine})
    else match s.useDefaultCAs
      case Some(true) => if env.package.Some? then Some({env.package.value.bundle}) else None
      case Some(false) => Some({})
      case None => None
  }

  // ---------- What texts contribute ----------

  predicate Keeps(env: Env, cert: Certificate) {
    (env.filterExpired ==> env.now <= cert.info.notAfter) && (env.filterNonCA ==> cert.info.isCA)
  }

  ghost function Contribution(env: Env, text: string): set<Certificate> {
    set c | c in Admitted(env.crypto, Blocks(text)) && Keeps(env, c)
  }

  ghost function Contributions(env: Env, texts: set<string>): set<Certificate> {
    set t, c | t in texts && c in Contribution(env, t) :: c
  }

  ghost predicate AllAccepted(env: Env, texts: set<string>) {
    forall t :: t in texts ==> AcceptsText(env.crypto, t)
  }

  ghost predicate Usable(env: Env, texts: Option<set<string>>) {
    texts.Some? && AllAccepted(env, texts.value)
  }

  // ---------- Why a source fails ----------

  /** The errors that one object can cause.  Which one is returned may depend on the order of visiting. */
  ghost predicate ObjectFailsWith(env: Env, ref: SourceObjectKeySelector, obj: SourceObject, e: SourceError) {
    match e
    case NotFoundError => ref.key != "" && ObjectTexts(ref, obj).None?
    case InvalidSecretError => ref.key == "" && ObjectTexts(ref, obj).None?
    case InvalidPEMError => ObjectTexts(ref, obj).Some? && !AllAccepted(env, ObjectTexts(ref, obj).value)
    case OtherError => false
  }

  /** A missing object is not found, a failing read or an unusable selector is some other error; then any selected
      object. */
  ghost predicate RefFailsWith(env: Env, objects: map<string, SourceObject>, faults: ReadFaults,
                               ref: SourceObjectKeySelector, e: SourceError)
  {
    if faults(ref.name, ref.selector) then e == OtherError
    else if RefNames(objects, ref).None? then e == if ref.name != "" then NotFoundError else OtherError
    else exists n :: n in RefNames(objects, ref).value && n in objects && ObjectFailsWith(env, ref, objects[n], e)
  }

  ghost predicate SourceFailsWith(env: Env, s: BundleSource, e: SourceError) {
    if s.configMap.Some? then RefFailsWith(env, env.configMaps, env.configMapFaults, s.configMap.value, e)
    else if s.secret.Some? then RefFailsWith(env, env.secrets, env.secretFaults, s.secret.value, e)
    else if s.inLine != "" then e == InvalidPEMError && !AcceptsText(env.crypto, s.inLine)
    else if s.useDefaultCAs != Some(true) then false
    else if env.package.None? then e == NotFoundError
    else e == InvalidPEMError && !AcceptsText(env.crypto, env.package.value.bundle)
  }

  /** A build fails with the error of some source, or because no certificate is left. */
  ghost predicate BuildFailsWith(env: Env, sources: seq<BundleSource>, e: SourceError) {
    || (exists s :: s in sources && SourceFailsWith(env, s, e))
    || (e == NotFoundError && Resolved(env, sources) == {}
        && forall s :: s in sources ==> Usable(env, SourceTexts(env, s)))
  }

  // ---------- The specification of a build ----------

  /** Every certificate that some source contributes through the filters. */
  ghost function Resolved(env: Env, sources: seq<BundleSource>): set<Certificate> {
    set s, c | s in sources && SourceTexts(env, s).Some?
               && c in Contributions(env, SourceTexts(env, s).value) :: c
  }

  /** A build succeeds iff every source succeeds and some certificate is left. */
  ghost predicate Buildable(env: Env, sources: seq<BundleSource>) {
    (forall s :: s in sources ==> Usable(env, SourceTexts(env, s))) && Resolved(env, sources) != {}
  }

  ghost function DefaultID(env: Env, sources: seq<BundleSource>): string {
    if env.package.Some? && exists s :: s in sources && UsesDefault(s)
    then StringID(env.hashText, env.package.value) else ""
  }

  // ---------- Filling the pool ----------

  ghost predicate PoolFor(env: Env, pool: CertPool)
    reads pool`filters
  {
    pool.crypto == env.crypto && forall c :: Passes(pool.filters, c) <==> Keeps(env, c)
  }

  method AddText(env: Env, pool: CertPool, text: string, ghost held: set<Certificate>)
    returns (err: Option<SourceError>)
    requires PoolFor(env, pool) && Holds(env.crypto, pool.certificates, held)
    modifies pool`certificates
    ensures err == if AcceptsText(env.crypto, text) then None else Some(InvalidPEMError)
    ensures err.None? ==> Holds(env.crypto, pool.certificates, held + Contribution(env, text))
  {
    ReadTextHolds(env.crypto, pool.filters, pool.certificates, held, text);
    assert CertsOf(env.crypto, pool.filters, text) == Contribution(env, text);
    var ok := pool.AddCertsFromPEM(Some(text));
    err := if ok then None else Some(InvalidPEMError);
  }

  method AddValues(env: Env, pool: CertPool, data: map<string, string>, ghost held: set<Certificate>)
    returns (err: Option<SourceError>)
    requires PoolFor(env, pool) && Holds(env.crypto, pool.certificates, held)
    modifies pool`certificates
    ensures err == if AllAccepted(env, Values(data)) then None else Some(InvalidPEMError)
    ensures err.None? ==> Holds(env.crypto, pool.certificates, held + Contributions(env, Values(data)))
  {
    var keys := data.Keys;
    ghost var done: set<string> := {};
    while keys != {}
      invariant keys <= data.Keys
      invariant forall k :: k in data && k !in keys ==> data[k] in done
      invariant done <= Values(data) && AllAccepted(env, done)
      invariant Holds(env.crypto, pool.certificates, held + Contributions(env, done))
      decreases |keys|
    {
      var k :| k in keys;
      assert data[k] in Values(data);
      err := AddText(env, pool, data[k], held + Contributions(env, done));
      if err.Some? {
        return;
      }
      assert held + Contributions(env, done) + Contribution(env, data[k])
          == held + Contributions(env, done + {data[k]});
      done := done + {data[k]};
      keys := keys - {k};
    }
    assert done == Values(data);
    err := None;
  }

  method AddObject(env: Env, pool: CertPool, ref: SourceObjectKeySelector, obj: SourceObject,
                   ghost held: set<Certificate>) returns (err: Option<SourceError>)
    requires PoolFor(env, pool) && Holds(env.crypto, pool.certificates, held)
    modifies pool`certificates
    ensures err.None? <==> Usable(env, ObjectTexts(ref, obj))
    ensures err.Some? ==> ObjectFailsWith(env, ref, obj, err.value)
    ensures err.None? ==> Holds(env.crypto, pool.certificates,
                         held + Contributions(env, ObjectTexts(ref, obj).value))
  {
    if ref.key != "" {
      var text;
      if ref.key in obj.data {
        text := obj.data[ref.key];
      } else if obj.ConfigMapObject? && ref.key in obj.binaryData {
        text := obj.binaryData[ref.key];
      } else {
        return Some(NotFoundError);
      }
      assert Contributions(env, {text}) == Contribution(env, text);
      err := AddText(env, pool, text, held);
    } else if ref.AllKeys() {
      if obj.SecretObject? && obj.tls {
        return Some(InvalidSecretError);
      }
      err := AddValues(env, pool, obj.data, held);
      if err.None? && obj.ConfigMapObject? {
        ghost var first := Contributions(env, Values(obj.data));
        assert first + Contributions(env, Values(obj.binaryData))
            == Contributions(env, Values(obj.data) + Values(obj.binaryData));
        err := AddValues(env, pool, obj.binaryData, held + first);
        assert held + first + Contributions(env, Values(obj.binaryData))
            == held + (first + Contributions(env, Values(obj.binaryData)));
      }
    } else {
      assert held + Contributions(env, {}) == held;
      err := None;
    }
  }

  /** Adds the named objects one after the other, in any order. */
  method AddObjects(env: Env, pool: CertPool, objects: map<string, SourceObject>,
                    ref: SourceObjectKeySelector, names: set<string>, ghost held: set<Certificate>)
    returns (err: Option<SourceError>)
    requires PoolFor(env, pool) && Holds(env.crypto, pool.certificates, held) && names <= objects.Keys
    modifies pool`certificates
    ensures err.None? <==> forall n :: n in names ==> Usable(env, ObjectTexts(ref, objects[n]))
    ensures err.Some? ==> exists n :: n in names && ObjectFailsWith(env, ref, objects[n], err.value)
    ensures err.None? ==>
              Holds(env.crypto, pool.certificates, held + Contributions(env, NamedTexts(objects, ref, names)))
  {
    var rest := names;
    ghost var texts: set<string> := {};
    assert held + Contributions(env, {}) == held;
    assert NamedTexts(objects, ref, {}) == {} && names - rest == {};
    hide Contributions;
    hide NamedTexts;
    hide ObjectTexts;
    hide Holds;
    hide AcceptsText;
    while rest != {}
      invariant rest <= names
      invariant forall n :: n in names && n !in rest ==> Usable(env, ObjectTexts(ref, objects[n]))
      invariant texts == NamedTexts(objects, ref, names - rest)
      invariant Holds(env.crypto, pool.certificates, held + Contributions(env, texts))
      decreases |rest|
    {
      var n :| n in rest;
      NamedTextsOneMore(objects, ref, names - rest, n);
      assert names - rest + {n} == names - (rest - {n});
      err := AddObject(env, pool, ref, objects[n], held + Contributions(env, texts));
      if err.Some? {
        return;
      }
      ghost var more := ObjectTexts(ref, objects[n]).value;
      ContributionsUnion(env, held, texts, more);
      texts := texts + more;
      rest := rest - {n};
    }
    assert names - rest == names;
    err := None;
  }

  method AddReference(env: Env, pool: CertPool, objects: map<string, SourceObject>, faults: ReadFaults,
                      ref: SourceObjectKeySelector, ghost held: set<Certificate>) returns (err: Option<SourceError>)
    requires PoolFor(env, pool) && Holds(env.crypto, pool.certificates, held)
    modifies pool`certificates
    ensures err.None? <==> Usable(env, ReadTexts(objects, faults, ref))
    ensures err.Some? ==> RefFailsWith(env, objects, faults, ref, err.value)
    ensures err.None? ==> Holds(env.crypto, pool.certificates,
                         held + Contributions(env, ReadTexts(objects, faults, ref).value))
  {
    if faults(ref.name, ref.selector) {
      return Some(OtherError);
    }
    var names := RefNames(objects, ref);
    UsableReference(env, objects, ref);
    if names.None? {
      return Some(if ref.name != "" then NotFoundError else OtherError);
    }
    err := AddObjects(env, pool, objects, ref, names.value, held);
  }

  lemma ContributionsUnion(env: Env, held: set<Certificate>, a: set<string>, b: set<string>)
    ensures held + Contributions(env, a) + Contributions(env, b) == held + Contributions(env, a + b)
  {
  }

  lemma NamedTextsOneMore(objects: map<string, SourceObject>, ref: SourceObjectKeySelector,
                          names: set<string>, n: string)
    requires n in objects
    ensures NamedTexts(objects, ref, names + {n})
         == NamedTexts(objects, ref, names)
            + if ObjectTexts(ref, objects[n]).Some? then ObjectTexts(ref, objects[n]).value else {}
  {
  }

  /** A reference is usable iff it resolves and all its objects are usable. */
  lemma UsableReference(env: Env, objects: map<string, SourceObject>, ref: SourceObjectKeySelector)
    ensures Usable(env, RefTexts(objects, ref)) <==>
            RefNames(objects, ref).Some?
            && forall n :: n in RefNames(objects, ref).value ==> Usable(env, ObjectTexts(ref, objects[n]))
    ensures RefTexts(objects, ref).Some? ==>
              RefTexts(objects, ref).value == NamedTexts(objects, ref, RefNames(objects, ref).value)
    ensures RefNames(objects, ref).Some? ==> RefNames(objects, ref).value <= objects.Keys
  {
    hide AcceptsText;
    hide ObjectTexts;
    if RefTexts(objects, ref).Some? {
      var texts, names := RefTexts(objects, ref).value, RefNames(objects, ref).value;
      assert forall n, t :: n in names && n in objects && t in ObjectTexts(ref, objects[n]).value ==> t in texts;
    }
  }

  method AddSource(env: Env, pool: CertPool, s: BundleSource, ghost held: set<Certificate>)
    returns (err: Option<SourceError>)
    requires PoolFor(env, pool) && Holds(env.crypto, pool.certificates, held)
    requires !Untyped(s)
    modifies pool`certificates
    ensures err.None? <==> Usable(env, SourceTexts(env, s))
    ensures err.Some? ==> SourceFailsWith(env, s, err.value)
    ensures err.None? ==> Holds(env.crypto, pool.certificates,
                         held + Contributions(env, SourceTexts(env, s).value))
  {
    if s.configMap.Some? {
      err := AddReference(env, pool, env.configMaps, env.configMapFaults, s.configMap.value, held);
    } else if s.secret.Some? {
      err := AddReference(env, pool, env.secrets, env.secretFaults, s.secret.value, held);
    } else if s.inLine != "" {
      assert Contributions(env, {s.inLine}) == Contribution(env, s.inLine);
      err := AddText(env, pool, s.inLine, held);
    } else if s.useDefaultCAs == Some(false) {
      assert held + Contributions(env, {}) == held;
      err := None;
    } else if env.package.None? {
      err := Some(NotFoundError);
    } else {
      var text := env.package.value.bundle;
      assert Contributions(env, {text}) == Contribution(env, text);
      err := AddText(env, pool, text, held);
    }
  }

  /** Builds the pool of all sources.  The build panics only on a source without any kind. */
  method BuildBundle(env: Env, sources: seq<BundleSource>) returns (r: BuildResult)
    ensures r.Built? <==> Buildable(env, sources)
    ensures r.Built? ==> Holds(env.crypto, r.pool.certificates, Resolved(env, sources))
    ensures r.Failed? ==> BuildFailsWith(env, sources, r.error)
    ensures r.Built? ==> r.defaultCAID == DefaultID(env, sources)
    ensures r.Panicked? ==> HasUntyped(sources)
  {
    hide SourceFailsWith, ReadTexts, AcceptsText;
    var pool := new CertPool(env.crypto, env.now, env.filterExpired, env.filterNonCA);
    var id := "";
    var i := 0;
    while i < |sources|
      invariant 0 <= i <= |sources|
      invariant PoolFor(env, pool)
      invariant forall s :: s in sources[..i] ==> Usable(env, SourceTexts(env, s))
      invariant Holds(env.crypto, pool.certificates, Resolved(env, sources[..i]))
      invariant id == DefaultID(env, sources[..i])
    {
      var s := sources[i];
      assert s in sources;
      assert sources[..i + 1] == sources[..i] + [s];
      if Untyped(s) {
        return Panicked;
      }
      var err := AddSource(env, pool, s, Resolved(env, sources[..i]));
      if err.Some? {
        return Failed(err.value);
      }
      if UsesDefault(s) {
        id := StringID(env.hashText, env.package.value);
      }
      ResolvedOneMore(env, sources[..i], s);
      i := i + 1;
    }
    assert sources[..i] == sources;
    EmptyIffNothingHeld(env.crypto, pool.certificates, Resolved(env, sources));
    var size := pool.Size();
    r := if size == 0 then Failed(NotFoundError) else Built(pool, id);
  }

  lemma ResolvedOneMore(env: Env, sources: seq<BundleSource>, s: BundleSource)
    requires SourceTexts(env, s).Some?
    ensures Resolved(env, sources + [s])
         == Resolved(env, sources) + Contributions(env, SourceTexts(env, s).value)
    ensures DefaultID(env, sources + [s])
         == if UsesDefault(s) then StringID(env.hashText, env.package.value) else DefaultID(env, sources)
  {
  }
}
