/**
 What a build means, told from the cluster alone: which entries of which objects the sources pick, which
 certificates stand in them, why a source fails and which package is reported.
 */
module BuildMeaning {
  import opened Prelude
  import opened Digests
  import opened Pem
  import opened CertPools
  import opened PoolProperties
  import opened Packages
  import opened BundleApi
  import Selectors
  import opened Sources
  import opened BuildProperties

  // ---------- What is asked for ----------

  /** The entries that a reference asks for. */
  datatype Wish = OneEntry(key: string) | EveryEntry | NoEntry

  /** A reference: an object by its name or, without a name, objects by their labels; and a wish. */
  datatype Request = Request(name: string, selector: Option<LabelSelector>, wish: Wish)

  function RequestOf(ref: SourceObjectKeySelector): Request {
    Request(ref.name, ref.selector,
            if ref.key != "" then OneEntry(ref.key)
            else if ref.includeAllKeys == Some(true) then EveryEntry else NoEntry)
  }

  // ---------- What is found ----------

  /** The text at a key: in the data, or in the binary data of a ConfigMap whose data lacks the key. */
  predicate EntryAt(obj: SourceObject, key: string, text: string) {
    || (key in obj.data && obj.data[key] == text)
    || (obj.ConfigMapObject? && key !in obj.data && key in obj.binaryData && obj.binaryData[key] == text)
  }

  /** A text anywhere in the data or in the binary data. */
  ghost predicate SomeEntry(obj: SourceObject, text: string) {
    || (exists k :: k in obj.data && obj.data[k] == text)
    || (obj.ConfigMapObject? && exists k :: k in obj.binaryData && obj.binaryData[k] == text)
  }

  /** No read fails, and the selector, if it is needed, can be used. */
  ghost predicate Readable(faults: ReadFaults, q: Request) {
    !faults(q.name, q.selector) && (q.name == "" && q.selector.Some? ==> Selectors.Usable(q.selector.value))
  }

  ghost predicate Finds(objects: map<string, SourceObject>, q: Request, n: string) {
    n in objects
    && if q.name != "" then n == q.name
       else q.selector.Some? && Selectors.Satisfies(objects[n].labels, q.selector.value)
  }

  /** The text is an entry of the object that the wish is for.  All entries of a TLS Secret cannot be had. */
  ghost predicate Gives(obj: SourceObject, wish: Wish, text: string) {
    match wish
    case OneEntry(key) => EntryAt(obj, key, text)
    case EveryEntry => !(obj.SecretObject? && obj.tls) && SomeEntry(obj, text)
    case NoEntry => false
  }

  ghost predicate PicksFrom(objects: map<string, SourceObject>, q: Request, text: string) {
    exists n :: Finds(objects, q, n) && Gives(objects[n], q.wish, text)
  }

  /** The texts of a source; the first kind that is set decides. */
  ghost predicate Picks(env: Env, s: BundleSource, text: string) {
    if s.configMap.Some? then PicksFrom(env.configMaps, RequestOf(s.configMap.value), text)
    else if s.secret.Some? then PicksFrom(env.secrets, RequestOf(s.secret.value), text)
    else if s.inLine != "" then text == s.inLine
    else s.useDefaultCAs == Some(true) && env.package.Some? && text == env.package.value.bundle
  }

  // ---------- What a text holds ----------

  /** Two lower-case hexadecimal digits for each byte. */
  predicate SpellsInHex(text: string, bytes: seq<Byte>) {
    && |text| == 2 * |bytes|
    && forall i :: 0 <= i < |bytes| ==>
         text[2 * i] == "0123456789abcdef"[bytes[i] / 16] && text[2 * i + 1] == "0123456789abcdef"[bytes[i] % 16]
  }

  /** The one certificate that is known not to parse and is passed over. */
  predicate KnownBroken(x: Crypto, der: seq<Byte>) {
    && x.parseX509(der).X509Error? && HasSuffix(x.parseX509(der).message, "x509: negative serial number")
    && SpellsInHex("88497f01602f3154246ae28c4d5aef10f1d87ebb76626f4ae0b7f95ba7968799", x.sha256(der))
  }

  predicate Fine(x: Crypto, block: Block) {
    block.tag == "CERTIFICATE" && !block.headers
    && (x.parseX509(block.bytes).X509? || KnownBroken(x, block.bytes))
  }

  ghost predicate Accepted(x: Crypto, text: string) {
    forall block :: block in Blocks(text) ==> Fine(x, block)
  }

  /** The certificate is the parsed content of a block of the text. */
  ghost predicate StandsIn(x: Crypto, text: string, c: Certificate) {
    x.parseX509(c.raw) == X509(c.info) && exists block :: block in Blocks(text) && block.bytes == c.raw
  }

  /** Not expired and a CA, as far as either is asked for. */
  predicate Wanted(env: Env, c: Certificate) {
    (env.filterExpired ==> env.now <= c.info.notAfter) && (env.filterNonCA ==> c.info.isCA)
  }

  /** The certificate passes the filters and stands in a text that some source picks. */
  ghost predicate GoesIn(env: Env, sources: seq<BundleSource>, c: Certificate) {
    Wanted(env, c) && exists s, text :: s in sources && Picks(env, s, text) && StandsIn(env.crypto, text, c)
  }

  // ---------- Why a source fails ----------

  ghost predicate ReferenceFails(env: Env, objects: map<string, SourceObject>, faults: ReadFaults, q: Request,
                                 e: SourceError)
  {
    match e
    case OtherError => !Readable(faults, q)
    case NotFoundError =>
      Readable(faults, q)
      && ((q.name != "" && q.name !in objects)
          || (q.wish.OneEntry? && exists n :: Finds(objects, q, n) && forall t :: !EntryAt(objects[n], q.wish.key, t)))
    case InvalidSecretError =>
      Readable(faults, q) && q.wish.EveryEntry?
      && exists n :: Finds(objects, q, n) && objects[n].SecretObject? && objects[n].tls
    case InvalidPEMError =>
      Readable(faults, q) && exists t :: PicksFrom(objects, q, t) && !Accepted(env.crypto, t)
  }

  /** The errors that a source can end with. */
  ghost predicate Fails(env: Env, s: BundleSource, e: SourceError) {
    if s.configMap.Some? then ReferenceFails(env, env.configMaps, env.configMapFaults, RequestOf(s.configMap.value), e)
    else if s.secret.Some? then ReferenceFails(env, env.secrets, env.secretFaults, RequestOf(s.secret.value), e)
    else match e
      case InvalidPEMError => exists t :: Picks(env, s, t) && !Accepted(env.crypto, t)
      case NotFoundError => s.inLine == "" && s.useDefaultCAs == Some(true) && env.package.None?
      case _ => false
  }

  predicate HasKind(s: BundleSource) {
    s.configMap.Some? || s.secret.Some? || s.inLine != "" || s.useDefaultCAs.Some?
  }

  // ---------- Texts ----------

  lemma {:induction false} HexSpells(bytes: seq<Byte>)
    ensures SpellsInHex(Hex(bytes), bytes)
  {
    if bytes != [] {
      HexSpells(bytes[1..]);
      var text := Hex(bytes);
      assert text[2..] == Hex(bytes[1..]);
      assert forall n :: 0 <= n < 16 ==> HexDigit(n) == "0123456789abcdef"[n];
      forall i | 0 < i < |bytes|
        ensures text[2 * i] == "0123456789abcdef"[bytes[i] / 16]
        ensures text[2 * i + 1] == "0123456789abcdef"[bytes[i] % 16]
      {
        var j := i - 1;
        assert bytes[1..][j] == bytes[i];
        assert text[2..][2 * j] == text[2 * i] && text[2..][2 * j + 1] == text[2 * i + 1];
      }
    }
  }

  lemma SpellingUnique(a: string, b: string, bytes: seq<Byte>)
    requires SpellsInHex(a, bytes) && SpellsInHex(b, bytes)
    ensures a == b
  {
    forall i | 0 <= i < |a|
      ensures a[i] == b[i]
    {
      var j := i / 2;
      assert a[2 * j] == b[2 * j] && a[2 * j + 1] == b[2 * j + 1];
    }
  }

  lemma HexIsSpelling(text: string, bytes: seq<Byte>)
    ensures Hex(bytes) == text <==> SpellsInHex(text, bytes)
  {
    HexSpells(bytes);
    if SpellsInHex(text, bytes) {
      SpellingUnique(text, Hex(bytes), bytes);
    }
  }

  lemma JudgeMeans(x: Crypto, block: Block, c: Certificate)
    ensures Judge(x, block).Reject? <==> !Fine(x, block)
    ensures Fine(x, block) ==>
              (Judge(x, block) == Accept(c) <==> block.bytes == c.raw && x.parseX509(c.raw) == X509(c.info))
  {
    HexIsSpelling(NEGATIVE_SERIAL_FINGERPRINT, x.sha256(block.bytes));
    hide Hex, SpellsInHex;
  }

  /** A text is accepted iff all its blocks are fine: certificates without headers that parse, or the known one. */
  lemma AcceptedMeans(x: Crypto, text: string)
    ensures AcceptsText(x, text) <==> Accepted(x, text)
  {
    var blocks := Blocks(text);
    hide Blocks, Judge, Fine;
    forall block | block in blocks
      ensures Judge(x, block).Reject? <==> !Fine(x, block)
    {
      JudgeMeans(x, block, Certificate([], CertInfo(0, false)));
    }
  }

  lemma ContributionMeans(env: Env, text: string, c: Certificate)
    requires Accepted(env.crypto, text)
    ensures c in Contribution(env, text) <==> Wanted(env, c) && StandsIn(env.crypto, text, c)
  {
    var x, blocks := env.crypto, Blocks(text);
    AcceptedMeans(x, text);
    AdmittedIsAccepted(x, blocks, c);
    hide Blocks, Judge, Fine, Admitted;
    forall block | block in blocks
      ensures Judge(x, block) == Accept(c) <==> block.bytes == c.raw && x.parseX509(c.raw) == X509(c.info)
    {
      JudgeMeans(x, block, c);
    }
    assert c in Contribution(env, text) <==> Wanted(env, c) && c in Admitted(x, blocks);
    if block :| block in blocks && Judge(x, block) == Accept(c) {
      var i :| 0 <= i < |blocks| && blocks[i] == block;
      assert Judge(x, blocks[i]) == Accept(c);
    }
  }

  // ---------- Objects ----------

  lemma ObjectMeans(ref: SourceObjectKeySelector, obj: SourceObject, text: string)
    ensures ObjectTexts(ref, obj).Some? ==>
              (text in ObjectTexts(ref, obj).value <==> Gives(obj, RequestOf(ref).wish, text))
    ensures ObjectTexts(ref, obj).None? ==> !Gives(obj, RequestOf(ref).wish, text)
    ensures ObjectTexts(ref, obj).None? <==>
            match RequestOf(ref).wish
            case OneEntry(key) => forall t :: !EntryAt(obj, key, t)
            case EveryEntry => obj.SecretObject? && obj.tls
            case NoEntry => false
  {
    if ref.key != "" {
      if ref.key in obj.data {
        assert EntryAt(obj, ref.key, obj.data[ref.key]);
      } else if obj.ConfigMapObject? && ref.key in obj.binaryData {
        assert EntryAt(obj, ref.key, obj.binaryData[ref.key]);
      }
    }
  }

  lemma NamesMean(objects: map<string, SourceObject>, faults: ReadFaults, ref: SourceObjectKeySelector, n: string)
    ensures var q := RequestOf(ref);
            !faults(ref.name, ref.selector) ==>
              && (RefNames(objects, ref).None? <==> !Readable(faults, q) || (ref.name != "" && ref.name !in objects))
              && (RefNames(objects, ref).Some? ==> (n in RefNames(objects, ref).value <==> Finds(objects, q, n)))
              && (ref.name != "" ==> Readable(faults, q))
  {
    if ref.name == "" && ref.selector.Some? {
      var selector := ref.selector.value;
      SelectorMeansHere(selector);
      if n in objects {
        Selectors.SelectorMeans(selector, objects[n].labels);
      }
    }
    hide Selectors.Satisfies;
  }

  lemma SelectorMeansHere(selector: LabelSelector)
    ensures selector.Valid() <==> Selectors.Usable(selector)
  {
    Selectors.SelectorMeans(selector, map[]);
  }

  // ---------- References ----------

  lemma ReferencePicks(objects: map<string, SourceObject>, faults: ReadFaults, ref: SourceObjectKeySelector, t: string)
    ensures var texts := ReadTexts(objects, faults, ref);
            && (texts.Some? ==> Readable(faults, RequestOf(ref))
                                && (t in texts.value <==> PicksFrom(objects, RequestOf(ref), t)))
            && (texts.None? <==>
                  || !Readable(faults, RequestOf(ref)) || (ref.name != "" && ref.name !in objects)
                  || exists n :: Finds(objects, RequestOf(ref), n) && ObjectTexts(ref, objects[n]).None?)
  {
    var q := RequestOf(ref);
    forall n
      ensures !faults(ref.name, ref.selector) ==>
                && (RefNames(objects, ref).None? <==> !Readable(faults, q) || (ref.name != "" && ref.name !in objects))
                && (RefNames(objects, ref).Some? ==> (n in RefNames(objects, ref).value <==> Finds(objects, q, n)))
    {
      NamesMean(objects, faults, ref, n);
    }
    forall obj
      ensures ObjectTexts(ref, obj).Some? ==> (t in ObjectTexts(ref, obj).value <==> Gives(obj, q.wish, t))
      ensures ObjectTexts(ref, obj).None? ==> !Gives(obj, q.wish, t)
    {
      ObjectMeans(ref, obj, t);
    }
    hide ObjectTexts, RefNames, Finds, Gives;
    assert forall n :: Finds(objects, q, n) ==> n in objects by { FoundAreThere(objects, q); }
    assert !faults(ref.name, ref.selector) || !Readable(faults, q);
  }

  lemma FoundAreThere(objects: map<string, SourceObject>, q: Request)
    ensures forall n :: Finds(objects, q, n) ==> n in objects
    ensures q.name != "" && q.name !in objects ==> forall n :: !Finds(objects, q, n)
  {
  }

  lemma ReferenceErrors(env: Env, objects: map<string, SourceObject>, faults: ReadFaults, ref: SourceObjectKeySelector,
                        e: SourceError)
    ensures RefFailsWith(env, objects, faults, ref, e) <==> ReferenceFails(env, objects, faults, RequestOf(ref), e)
  {
    var q := RequestOf(ref);
    FoundAreThere(objects, q);
    forall n
      ensures !faults(ref.name, ref.selector) ==>
                && (RefNames(objects, ref).None? <==> !Readable(faults, q) || (ref.name != "" && ref.name !in objects))
                && (RefNames(objects, ref).Some? ==> (n in RefNames(objects, ref).value <==> Finds(objects, q, n)))
    {
      NamesMean(objects, faults, ref, n);
    }
    assert ref.name != "" && !faults(ref.name, ref.selector) ==> Readable(faults, q);
    assert faults(ref.name, ref.selector) ==> !Readable(faults, q);
    forall n | n in objects
      ensures ObjectFailsWith(env, ref, objects[n], e) <==> ObjectFails(env, objects[n], q.wish, e)
    {
      ObjectErrors(env, ref, objects[n], e);
    }
    hide RefNames, Finds, Gives, Readable, ObjectFailsWith;
  }

  /** What one object can fail with. */
  ghost predicate ObjectFails(env: Env, obj: SourceObject, wish: Wish, e: SourceError) {
    match e
    case OtherError => false
    case NotFoundError => wish.OneEntry? && forall t :: !EntryAt(obj, wish.key, t)
    case InvalidSecretError => wish.EveryEntry? && obj.SecretObject? && obj.tls
    case InvalidPEMError => exists t :: Gives(obj, wish, t) && !Accepted(env.crypto, t)
  }

  lemma ObjectErrors(env: Env, ref: SourceObjectKeySelector, obj: SourceObject, e: SourceError)
    ensures ObjectFailsWith(env, ref, obj, e) <==> ObjectFails(env, obj, RequestOf(ref).wish, e)
  {
    forall t
      ensures ObjectTexts(ref, obj).Some? ==>
                (t in ObjectTexts(ref, obj).value <==> Gives(obj, RequestOf(ref).wish, t))
      ensures ObjectTexts(ref, obj).None? ==> !Gives(obj, RequestOf(ref).wish, t)
      ensures AcceptsText(env.crypto, t) <==> Accepted(env.crypto, t)
    {
      ObjectMeans(ref, obj, t);
      AcceptedMeans(env.crypto, t);
    }
    ObjectMeans(ref, obj, "");
    hide ObjectTexts, Gives, AcceptsText, Accepted, EntryAt;
  }

  // ---------- Sources ----------

  lemma SourcePicks(env: Env, s: BundleSource, t: string)
    ensures SourceTexts(env, s).Some? ==> (t in SourceTexts(env, s).value <==> Picks(env, s, t))
  {
    if s.configMap.Some? {
      ReferencePicks(env.configMaps, env.configMapFaults, s.configMap.value, t);
    } else if s.secret.Some? {
      ReferencePicks(env.secrets, env.secretFaults, s.secret.value, t);
    }
    hide ReadTexts, PicksFrom, Readable;
  }

  /** The errors that adding a source can end with are exactly those that the cluster gives a reason for: a read
      that fails or a selector that cannot be used, a missing object, key or package, all keys of a TLS Secret, or
      a picked text that is not accepted. */
  lemma SourceErrorsMean(env: Env, s: BundleSource, e: SourceError)
    ensures SourceFailsWith(env, s, e) <==> Fails(env, s, e)
  {
    if s.configMap.Some? {
      ReferenceErrors(env, env.configMaps, env.configMapFaults, s.configMap.value, e);
    } else if s.secret.Some? {
      ReferenceErrors(env, env.secrets, env.secretFaults, s.secret.value, e);
    } else {
      AcceptedMeans(env.crypto, s.inLine);
      if env.package.Some? {
        AcceptedMeans(env.crypto, env.package.value.bundle);
      }
    }
    hide RefFailsWith, ReferenceFails, AcceptsText, Accepted;
  }

  lemma UsableMeans(env: Env, s: BundleSource)
    ensures Usable(env, SourceTexts(env, s)) <==> HasKind(s) && forall e :: !Fails(env, s, e)
  {
    if HasKind(s) {
      forall e
        ensures SourceFailsWith(env, s, e) <==> Fails(env, s, e)
      {
        SourceErrorsMean(env, s, e);
      }
      SourceFailure(env, s);
    }
    hide SourceFailsWith, Fails, ReadTexts, AcceptsText;
  }

  lemma UsableTextsAccepted(env: Env, s: BundleSource)
    requires Usable(env, SourceTexts(env, s))
    ensures forall t :: Picks(env, s, t) <==> t in SourceTexts(env, s).value
    ensures forall t :: Picks(env, s, t) ==> Accepted(env.crypto, t)
  {
    hide SourceTexts, Picks, AcceptsText, Accepted;
    forall t
      ensures Picks(env, s, t) <==> t in SourceTexts(env, s).value
      ensures AcceptsText(env.crypto, t) <==> Accepted(env.crypto, t)
    {
      SourcePicks(env, s, t);
      AcceptedMeans(env.crypto, t);
    }
  }

  lemma SourceContributes(env: Env, s: BundleSource, c: Certificate)
    requires Usable(env, SourceTexts(env, s))
    ensures c in Contributions(env, SourceTexts(env, s).value) <==>
            Wanted(env, c) && exists t :: Picks(env, s, t) && StandsIn(env.crypto, t, c)
  {
    UsableTextsAccepted(env, s);
    hide SourceTexts, Picks, Accepted, Contribution, StandsIn, Wanted;
    forall t | Picks(env, s, t)
      ensures c in Contribution(env, t) <==> Wanted(env, c) && StandsIn(env.crypto, t, c)
    {
      ContributionMeans(env, t, c);
    }
  }

  lemma ResolvedMeans(env: Env, sources: seq<BundleSource>, c: Certificate)
    requires forall s :: s in sources ==> Usable(env, SourceTexts(env, s))
    ensures c in Resolved(env, sources) <==> GoesIn(env, sources, c)
  {
    hide SourceTexts, Picks, Contributions, StandsIn, Wanted;
    forall s | s in sources
      ensures c in Contributions(env, SourceTexts(env, s).value) <==>
              Wanted(env, c) && exists t :: Picks(env, s, t) && StandsIn(env.crypto, t, c)
    {
      SourceContributes(env, s, c);
    }
    if GoesIn(env, sources, c) {
      var s, t :| s in sources && Picks(env, s, t) && StandsIn(env.crypto, t, c);
      assert c in Contributions(env, SourceTexts(env, s).value);
    }
  }

  // ---------- The results ----------

  /** A build succeeds if and only if every source has a kind and no reason to fail, and some certificate that
      passes the filters stands in a picked text. */
  lemma BuildsExactly(env: Env, sources: seq<BundleSource>)
    ensures Buildable(env, sources) <==>
            && (forall s :: s in sources ==> HasKind(s) && forall e :: !Fails(env, s, e))
            && exists c :: GoesIn(env, sources, c)
  {
    hide SourceTexts, Usable, Fails, HasKind, Resolved, GoesIn;
    forall s | s in sources
      ensures Usable(env, SourceTexts(env, s)) <==> HasKind(s) && forall e :: !Fails(env, s, e)
    {
      UsableMeans(env, s);
    }
    if forall s :: s in sources ==> Usable(env, SourceTexts(env, s)) {
      forall c
        ensures c in Resolved(env, sources) <==> GoesIn(env, sources, c)
      {
        ResolvedMeans(env, sources, c);
      }
      if c :| GoesIn(env, sources, c) {
        assert c in Resolved(env, sources);
      }
    }
  }

  /** A certificate is in a built pool if and only if it passes the filters and stands in a text that a source picks
      from the cluster. */
  lemma PoolExactly(env: Env, sources: seq<BundleSource>, pool: map<Digest, Certificate>, c: Certificate)
    requires Buildable(env, sources) && NoCollision(env.crypto, Resolved(env, sources))
    requires Holds(env.crypto, pool, Resolved(env, sources))
    ensures (exists d :: d in pool && pool[d] == c) <==> GoesIn(env, sources, c)
  {
    hide GoesIn, SourceTexts, Usable;
    ResolvedMeans(env, sources, c);
    hide Resolved;
    if c in Resolved(env, sources) {
      var d := env.crypto.sha256(c.raw);
      assert d in pool && pool[d] in Resolved(env, sources);
      assert pool[d] == c;
    }
  }

  /** The reported package is named by its name, version and hash, and only when a source uses it. */
  lemma ReportedPackage(env: Env, sources: seq<BundleSource>)
    ensures DefaultID(env, sources) ==
            if env.package.Some?
               && exists s :: s in sources && s.configMap == None && s.secret == None && s.inLine == ""
                              && s.useDefaultCAs == Some(true)
            then var p := env.package.value; p.name + "-" + p.version + "-" + env.hashText(p.bundle)
            else ""
  {
    assert forall s :: UsesDefault(s) <==>
             s.configMap == None && s.secret == None && s.inLine == "" && s.useDefaultCAs == Some(true);
  }

  /** A package is valid iff its text is accepted and it has a name and a version. */
  lemma PackageMeans(x: Crypto, p: Package)
    ensures Packages.Valid(x, p) <==> Accepted(x, p.bundle) && p.name != "" && p.version != ""
  {
    AcceptedMeans(x, p.bundle);
    hide AcceptsText, Accepted;
  }
}
