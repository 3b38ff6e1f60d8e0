/**
 What building a Bundle promises: the result depends on the set of sources only, and a default
 package that was accepted when it was loaded never makes a build fail.
 */
module BuildProperties {
  import opened Digests
  import opened Pem
  import opened CertPools
  import opened PoolProperties
  import opened Packages
  import opened BundleApi
  import opened Sources

  /** Two builds of the same set of sources, in any order and with any repetitions, succeed
      together, report the same package and print the same text. */
  lemma BuildIsCanonical(env: Env, a: seq<BundleSource>, b: seq<BundleSource>,
                         p: map<Digest, Certificate>, q: map<Digest, Certificate>)
    requires forall s :: s in a <==> s in b
    requires NoCollision(env.crypto, Resolved(env, a))
    requires Holds(env.crypto, p, Resolved(env, a)) && Holds(env.crypto, q, Resolved(env, b))
    ensures Buildable(env, a) <==> Buildable(env, b)
    ensures DefaultID(env, a) == DefaultID(env, b)
    ensures p == q && PemText(p) == PemText(q)
  {
    assert Resolved(env, a) == Resolved(env, b);
    HoldsUnique(env.crypto, p, q, Resolved(env, a));
  }

  /** Whether a source is an error, and with which errors adding it can end, depends neither on the filters nor
      on the time. */
  lemma VerdictIgnoresFilters(env: Env, other: Env, s: BundleSource)
    requires other == env.(now := other.now, filterExpired := other.filterExpired,
                           filterNonCA := other.filterNonCA)
    ensures Usable(env, SourceTexts(env, s)) <==> Usable(other, SourceTexts(other, s))
    ensures SourceTexts(env, s) == SourceTexts(other, s)
    ensures forall e :: SourceFailsWith(env, s, e) <==> SourceFailsWith(other, s, e)
  {
    RefsIgnoreFilters(env, other, s);
  }

  /** The same environment at another time. */
  function At(env: Env, now: int): Env {
    env.(now := now)
  }

  predicate Unexpired(env: Env, c: Certificate, now: int) {
    env.filterExpired ==> now <= c.info.notAfter
  }

  lemma ResolvedAt(env: Env, now: int, sources: seq<BundleSource>, c: Certificate)
    requires env.now <= now || !env.filterExpired
    ensures c in Resolved(At(env, now), sources) <==> c in Resolved(env, sources) && Unexpired(env, c, now)
  {
    forall s | s in sources
      ensures SourceTexts(At(env, now), s) == SourceTexts(env, s)
    {
      RefsIgnoreFilters(env, At(env, now), s);
    }
    assert Keeps(At(env, now), c) <==> Keeps(env, c) && Unexpired(env, c, now);
    hide SourceTexts, Keeps;
    assert forall t :: c in Contribution(At(env, now), t) <==> c in Contribution(env, t) && Unexpired(env, c, now);
    hide Contribution;
    assert forall texts :: c in Contributions(At(env, now), texts) <==>
                           c in Contributions(env, texts) && Unexpired(env, c, now);
  }

  /** At a later time exactly the certificates are resolved that have not expired; without the filter, all. */
  lemma ResolvedLater(env: Env, now: int, sources: seq<BundleSource>)
    requires env.now <= now || !env.filterExpired
    ensures Resolved(At(env, now), sources) == set c | c in Resolved(env, sources) && Unexpired(env, c, now)
    ensures Resolved(At(env, now), sources) == Resolved(env, sources) <==>
            forall c :: c in Resolved(env, sources) ==> Unexpired(env, c, now)
    ensures !env.filterExpired ==> Resolved(At(env, now), sources) == Resolved(env, sources)
    ensures DefaultID(At(env, now), sources) == DefaultID(env, sources)
  {
    forall c
      ensures c in Resolved(At(env, now), sources) <==> c in Resolved(env, sources) && Unexpired(env, c, now)
    {
      ResolvedAt(env, now, sources, c);
    }
    hide Resolved;
  }

  lemma DefaultIDAt(env: Env, now: int, sources: seq<BundleSource>)
    ensures DefaultID(At(env, now), sources) == DefaultID(env, sources)
  {
  }

  /** Every resolved certificate parses to itself, so that a pool that holds what is resolved is sound. */
  lemma ResolvedIsSound(env: Env, sources: seq<BundleSource>, pool: map<Digest, Certificate>)
    requires Holds(env.crypto, pool, Resolved(env, sources))
    ensures Sound(env.crypto, pool)
  {
    hide ParseCertificate;
    forall c | c in Resolved(env, sources)
      ensures ParseCertificate(env.crypto, c.raw) == Accept(c)
    {
      var s :| s in sources && SourceTexts(env, s).Some? && c in Contributions(env, SourceTexts(env, s).value);
      var t :| t in SourceTexts(env, s).value && c in Contribution(env, t);
      AdmittedParse(env.crypto, Blocks(t));
    }
    hide Resolved;
  }

  /** At another time a build succeeds iff the sources are usable, as they were, and some certificate is left. */
  lemma BuildableAt(env: Env, now: int, sources: seq<BundleSource>)
    requires Buildable(env, sources)
    ensures Buildable(At(env, now), sources) <==> Resolved(At(env, now), sources) != {}
  {
    forall s | s in sources
      ensures Usable(At(env, now), SourceTexts(At(env, now), s))
    {
      VerdictIgnoresFilters(env, At(env, now), s);
    }
    hide Resolved, SourceTexts;
  }

  lemma RefsIgnoreFilters(env: Env, other: Env, s: BundleSource)
    requires env.configMaps == other.configMaps && env.secrets == other.secrets
    requires env.configMapFaults == other.configMapFaults && env.secretFaults == other.secretFaults
    requires env.package == other.package
    ensures SourceTexts(env, s) == SourceTexts(other, s)
  {
  }

  /** A package that was accepted when it was loaded never makes the default source fail, under any filter
      options: a build that fails has another reason. */
  lemma ValidPackageBuilds(env: Env, sources: seq<BundleSource>, s: BundleSource, e: SourceError)
    requires env.package.Some? && Valid(env.crypto, env.package.value) && s in sources && UsesDefault(s)
    requires BuildFailsWith(env, sources, e)
    ensures Usable(env, SourceTexts(env, s)) && !SourceFailsWith(env, s, e)
    ensures || (exists o :: o in sources && !UsesDefault(o) && SourceFailsWith(env, o, e))
            || (e == NotFoundError && Resolved(env, sources) == {})
  {
    hide Resolved, AcceptsText, ReadTexts, RefFailsWith;
    if o :| o in sources && SourceFailsWith(env, o, e) {
      assert !UsesDefault(o);
    }
  }

  lemma ObjectFailure(env: Env, ref: SourceObjectKeySelector, obj: SourceObject)
    ensures (exists e :: ObjectFailsWith(env, ref, obj, e)) <==> !Usable(env, ObjectTexts(ref, obj))
  {
    hide ObjectTexts, AllAccepted;
    if !Usable(env, ObjectTexts(ref, obj)) {
      var e := if ObjectTexts(ref, obj).Some? then InvalidPEMError
               else if ref.key != "" then NotFoundError else InvalidSecretError;
      assert ObjectFailsWith(env, ref, obj, e);
    }
  }

  lemma RefFailure(env: Env, objects: map<string, SourceObject>, faults: ReadFaults, ref: SourceObjectKeySelector)
    ensures (exists e :: RefFailsWith(env, objects, faults, ref, e)) <==> !Usable(env, ReadTexts(objects, faults, ref))
  {
    UsableReference(env, objects, ref);
    hide ObjectTexts, RefTexts, AllAccepted;
    forall n | n in objects
      ensures (exists e :: ObjectFailsWith(env, ref, objects[n], e)) <==> !Usable(env, ObjectTexts(ref, objects[n]))
    {
      ObjectFailure(env, ref, objects[n]);
    }
    hide ObjectFailsWith, Usable;
    if faults(ref.name, ref.selector) {
      assert RefFailsWith(env, objects, faults, ref, OtherError);
    } else if RefNames(objects, ref).None? {
      assert RefFailsWith(env, objects, faults, ref, if ref.name != "" then NotFoundError else OtherError);
    } else if n :| n in RefNames(objects, ref).value && !Usable(env, ObjectTexts(ref, objects[n])) {
      var e :| ObjectFailsWith(env, ref, objects[n], e);
      assert RefFailsWith(env, objects, faults, ref, e);
    }
  }

  lemma SourceFailure(env: Env, s: BundleSource)
    requires !Untyped(s)
    ensures (exists e :: SourceFailsWith(env, s, e)) <==> !Usable(env, SourceTexts(env, s))
  {
    hide AcceptsText, RefFailsWith, ReadTexts;
    if s.configMap.Some? {
      RefFailure(env, env.configMaps, env.configMapFaults, s.configMap.value);
    } else if s.secret.Some? {
      RefFailure(env, env.secrets, env.secretFaults, s.secret.value);
    }
    forall e
      ensures SourceFailsWith(env, s, e) ==> !Usable(env, SourceTexts(env, s))
    {
    }
    if !Usable(env, SourceTexts(env, s)) {
      var e := SomeFailure(env, s);
    }
  }

  lemma SomeFailure(env: Env, s: BundleSource) returns (e: SourceError)
    requires !Untyped(s) && !Usable(env, SourceTexts(env, s))
    ensures SourceFailsWith(env, s, e)
  {
    hide AcceptsText, RefFailsWith, ReadTexts;
    if s.configMap.Some? {
      RefFailure(env, env.configMaps, env.configMapFaults, s.configMap.value);
      e :| RefFailsWith(env, env.configMaps, env.configMapFaults, s.configMap.value, e);
    } else if s.secret.Some? {
      RefFailure(env, env.secrets, env.secretFaults, s.secret.value);
      e :| RefFailsWith(env, env.secrets, env.secretFaults, s.secret.value, e);
    } else if s.inLine == "" && env.package.None? {
      e := NotFoundError;
    } else {
      e := InvalidPEMError;
    }
  }

  /** A build can fail with some error exactly when it cannot succeed. */
  lemma FailuresExplained(env: Env, sources: seq<BundleSource>)
    requires !HasUntyped(sources)
    ensures (exists e :: BuildFailsWith(env, sources, e)) <==> !Buildable(env, sources)
  {
    hide SourceFailsWith, SourceTexts, Resolved, Usable;
    forall s | s in sources
      ensures (exists e :: SourceFailsWith(env, s, e)) <==> !Usable(env, SourceTexts(env, s))
    {
      SourceFailure(env, s);
    }
    if s :| s in sources && !Usable(env, SourceTexts(env, s)) {
      var e :| SourceFailsWith(env, s, e);
      assert BuildFailsWith(env, sources, e);
    } else if Resolved(env, sources) == {} {
      assert BuildFailsWith(env, sources, NotFoundError);
    }
  }

  /** Every certificate in a built pool comes from a selected text and passes the filters, and
      every such certificate is in the pool. */
  lemma BuildIsSoundAndComplete(env: Env, sources: seq<BundleSource>,
                                pool: map<Digest, Certificate>, c: Certificate)
    requires Buildable(env, sources) && NoCollision(env.crypto, Resolved(env, sources))
    requires Holds(env.crypto, pool, Resolved(env, sources))
    ensures (exists d :: d in pool && pool[d] == c) <==>
            Keeps(env, c) &&
            (exists s, t, i :: s in sources && t in SourceTexts(env, s).value
                               && 0 <= i < |Blocks(t)| && Judge(env.crypto, Blocks(t)[i]) == Accept(c))
  {
    forall t | AcceptsText(env.crypto, t)
      ensures c in Admitted(env.crypto, Blocks(t)) <==>
              exists i :: 0 <= i < |Blocks(t)| && Judge(env.crypto, Blocks(t)[i]) == Accept(c)
    {
      AdmittedIsAccepted(env.crypto, Blocks(t), c);
    }
    if c in Resolved(env, sources) {
      var d := env.crypto.sha256(c.raw);
      assert d in pool && pool[d] in Resolved(env, sources);
      assert pool[d] == c;
    }
    hide Judge;
    if Keeps(env, c) && exists s, t, i :: s in sources && t in SourceTexts(env, s).value
                               && 0 <= i < |Blocks(t)| && Judge(env.crypto, Blocks(t)[i]) == Accept(c) {
      var s, t, i :| s in sources && t in SourceTexts(env, s).value
                     && 0 <= i < |Blocks(t)| && Judge(env.crypto, Blocks(t)[i]) == Accept(c);
      assert c in Contribution(env, t);
      assert c in Contributions(env, SourceTexts(env, s).value);
      assert c in Resolved(env, sources);
    }
    if c in Resolved(env, sources) {
      var s :| s in sources && SourceTexts(env, s).Some? && c in Contributions(env, SourceTexts(env, s).value);
      var t :| t in SourceTexts(env, s).value && c in Contribution(env, t);
      assert AcceptsText(env.crypto, t);
      var i :| 0 <= i < |Blocks(t)| && Judge(env.crypto, Blocks(t)[i]) == Accept(c);
    }
  }

  lemma {:induction false} AdmittedIsAccepted(x: Crypto, blocks: seq<Block>, c: Certificate)
    requires !Rejects(x, blocks)
    ensures c in Admitted(x, blocks) <==>
            exists i :: 0 <= i < |blocks| && Judge(x, blocks[i]) == Accept(c)
  {
    hide Judge;
    if blocks != [] {
      var tail := blocks[1..];
      assert blocks == [blocks[0]] + tail;
      FirstBlock(x, blocks[0], tail);
      AdmittedIsAccepted(x, tail, c);
      if i: int :| 0 <= i < |tail| && Judge(x, tail[i]) == Accept(c) {
        assert Judge(x, blocks[i + 1]) == Accept(c);
      }
      if i: int :| 0 <= i < |blocks| && Judge(x, blocks[i]) == Accept(c) {
        assert i > 0 ==> Judge(x, tail[i - 1]) == Accept(c);
      }
    }
  }
}
