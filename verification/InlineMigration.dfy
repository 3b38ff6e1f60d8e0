/**
 Lists of inline texts before and after their migration: when they build alike into the same certificates in
 every environment, in terms of the blocks of the texts and of their fold.
 */
module InlineMigration {
  import opened Prelude
  import opened Pem
  import opened CertPools
  import opened BundleApi
  import opened Sources
  import BuildProperties
  import opened Conversion
  import opened ConversionProperties
  import opened Migration

  // ---------- Texts as sets of blocks ----------

  function BlockSet(blocks: seq<Block>): set<Block> {
    set b | b in blocks
  }

  /** No parser accepts the block. */
  predicate Hopeless(b: Block) {
    b.tag != CERTIFICATE || b.headers
  }

  predicate AnyHopeless(blocks: set<Block>) {
    exists b :: b in blocks && Hopeless(b)
  }

  predicate AllPass(x: Crypto, blocks: set<Block>) {
    forall b :: b in blocks ==> !Judge(x, b).Reject?
  }

  ghost predicate Yields(env: Env, blocks: set<Block>, c: Certificate) {
    Keeps(env, c) && exists b :: b in blocks && Judge(env.crypto, b) == Accept(c)
  }

  ghost predicate YieldsSome(env: Env, blocks: set<Block>) {
    exists c :: Yields(env, blocks, c)
  }

  lemma TextIsItsBlocks(env: Env, text: string, c: Certificate)
    ensures AcceptsText(env.crypto, text) <==> AllPass(env.crypto, BlockSet(Blocks(text)))
    ensures AcceptsText(env.crypto, text) ==> (c in Contribution(env, text) <==> Yields(env, BlockSet(Blocks(text)), c))
  {
    hide Judge, Keeps, Blocks;
    var blocks := Blocks(text);
    forall i | 0 <= i < |blocks|
      ensures blocks[i] in BlockSet(blocks)
    {
    }
    if AcceptsText(env.crypto, text) {
      BuildProperties.AdmittedIsAccepted(env.crypto, blocks, c);
    }
  }

  lemma {:induction false} BlocksOfParts(texts: seq<string>, b: Block)
    ensures b in BlocksOfAll(texts) <==> exists t :: t in texts && b in Blocks(t)
  {
    hide Blocks;
    if texts != [] {
      var n := |texts| - 1;
      BlocksOfParts(texts[..n], b);
      assert texts == texts[..n] + [texts[n]];
    }
  }

  /** Folding loses no block. */
  lemma {:induction false} FoldHasAllBlocks(texts: seq<string>, b: Block)
    requires b in BlocksOfAll(texts)
    ensures b in Blocks(FoldTexts(texts))
  {
    if texts != [] {
      var n := |texts| - 1;
      var acc, last := FoldTexts(texts[..n]), texts[n];
      assert b in BlocksOfAll(texts[..n]) || b in Blocks(last);
      if b in BlocksOfAll(texts[..n]) {
        FoldHasAllBlocks(texts[..n], b);
      }
      if last != "" && acc != "" {
        JoinHasAllBlocks(acc, last, b);
      } else {
        RunNothing(Outside);
      }
    }
  }

  lemma JoinHasAllBlocks(a: string, b: string, block: Block)
    requires block in Blocks(a) || block in Blocks(b)
    ensures block in Blocks(JoinTexts(a, b))
  {
    hide JoinTexts, Run, Completes;
    RunJoined(a, b);
    RunFromAnyState(Final(a), b);
    var more := Run(Final(a), b).0;
    if block in Blocks(b) {
      assert more == Blocks(b) || more[1..] == Blocks(b);
      assert block in more;
    }
  }

  lemma {:induction false} FoldIsNotEmpty(texts: seq<string>)
    requires exists t :: t in texts && t != ""
    ensures FoldTexts(texts) != ""
  {
    var n := |texts| - 1;
    var t :| t in texts && t != "";
    if texts[n] == "" {
      assert texts == texts[..n] + [texts[n]];
      assert t in texts[..n];
      FoldIsNotEmpty(texts[..n]);
    }
  }

  // ---------- Lists of inline texts ----------

  predicate OnlyInlineTexts(sources: seq<BundleSource>) {
    sources != [] && forall s :: s in sources ==> s == InlineSource(s.inLine) && s.inLine != ""
  }

  function Parts(sources: seq<BundleSource>): set<Block> {
    BlockSet(BlocksOfAll(InlineTexts(sources)))
  }

  /** A list of inline texts builds iff all its blocks pass and one yields a certificate; and into those. */
  lemma InlineBuilds(env: Env, sources: seq<BundleSource>)
    requires OnlyInlineTexts(sources)
    ensures Buildable(env, sources) <==> AllPass(env.crypto, Parts(sources)) && YieldsSome(env, Parts(sources))
    ensures AllPass(env.crypto, Parts(sources)) ==>
              forall c :: c in Resolved(env, sources) <==> Yields(env, Parts(sources), c)
  {
    InlinePass(env, sources);
    if AllPass(env.crypto, Parts(sources)) {
      forall c
        ensures c in Resolved(env, sources) <==> Yields(env, Parts(sources), c)
      {
        InlineYields(env, sources, c);
      }
    }
    hide Resolved, SourceTexts, AllPass, Yields, Parts, OnlyInlineTexts;
    if YieldsSome(env, Parts(sources)) {
      var c :| Yields(env, Parts(sources), c);
    }
    if AllPass(env.crypto, Parts(sources)) && Resolved(env, sources) != {} {
      var c :| c in Resolved(env, sources);
      assert Yields(env, Parts(sources), c);
    }
  }

  lemma InlinePass(env: Env, sources: seq<BundleSource>)
    requires OnlyInlineTexts(sources)
    ensures (forall s :: s in sources ==> Usable(env, SourceTexts(env, s))) <==> AllPass(env.crypto, Parts(sources))
  {
    hide AcceptsText, Judge, Blocks, BlocksOfAll, InlineTexts;
    forall s | s in sources
      ensures Usable(env, SourceTexts(env, s)) <==> AllPass(env.crypto, BlockSet(Blocks(s.inLine)))
      ensures BlockSet(Blocks(s.inLine)) <= Parts(sources)
    {
      var c := Certificate([], CertInfo(0, false));
      assert SourceTexts(env, s) == Some({s.inLine});
      TextIsItsBlocks(env, s.inLine, c);
      InlineTextOf(sources, s.inLine);
      forall b | b in Blocks(s.inLine)
        ensures b in BlocksOfAll(InlineTexts(sources))
      {
        BlocksOfParts(InlineTexts(sources), b);
      }
    }
    forall b | b in Parts(sources)
      ensures exists s :: s in sources && b in BlockSet(Blocks(s.inLine))
    {
      PartOf(sources, b);
    }
    hide SourceTexts, Usable, BlockSet, Parts, OnlyInlineTexts;
  }

  lemma PartOf(sources: seq<BundleSource>, b: Block)
    requires b in Parts(sources)
    ensures exists s :: s in sources && b in BlockSet(Blocks(s.inLine))
  {
    hide Blocks, BlocksOfAll, InlineTexts;
    BlocksOfParts(InlineTexts(sources), b);
    var t :| t in InlineTexts(sources) && b in Blocks(t);
    InlineTextOf(sources, t);
    var s :| s in sources && s.inLine == t;
    assert b in BlockSet(Blocks(s.inLine));
  }

  lemma InlineYields(env: Env, sources: seq<BundleSource>, c: Certificate)
    requires OnlyInlineTexts(sources) && AllPass(env.crypto, Parts(sources))
    ensures c in Resolved(env, sources) <==> Yields(env, Parts(sources), c)
  {
    ResolvedIs(env, sources, c);
    InlinePass(env, sources);
    hide AcceptsText, Judge, Blocks, BlocksOfAll, InlineTexts, Contribution, Keeps, Resolved;
    forall s | s in sources
      ensures Contributes(env, s, c) <==> Yields(env, BlockSet(Blocks(s.inLine)), c)
      ensures BlockSet(Blocks(s.inLine)) <= Parts(sources)
    {
      assert SourceTexts(env, s) == Some({s.inLine});
      TextIsItsBlocks(env, s.inLine, c);
      InlineTextOf(sources, s.inLine);
      forall b | b in Blocks(s.inLine)
        ensures b in BlocksOfAll(InlineTexts(sources))
      {
        BlocksOfParts(InlineTexts(sources), b);
      }
    }
    if Yields(env, Parts(sources), c) {
      var b :| b in Parts(sources) && Judge(env.crypto, b) == Accept(c);
      PartOf(sources, b);
      var s :| s in sources && b in BlockSet(Blocks(s.inLine));
      assert Yields(env, BlockSet(Blocks(s.inLine)), c);
    }
    hide Contributes, Parts, BlockSet;
  }

  // ---------- Exactly when ----------

  /** Both lists build, into the same certificates, or neither does. */
  ghost predicate BuildAlike(env: Env, a: seq<BundleSource>, b: seq<BundleSource>) {
    && (Buildable(env, a) <==> Buildable(env, b))
    && (Buildable(env, a) ==> Resolved(env, a) == Resolved(env, b))
  }

  /** The same for two sets of blocks. */
  ghost predicate SetsAlike(env: Env, parts: set<Block>, fold: set<Block>) {
    && (AllPass(env.crypto, parts) && YieldsSome(env, parts) <==> AllPass(env.crypto, fold) && YieldsSome(env, fold))
    && (AllPass(env.crypto, parts) && YieldsSome(env, parts) ==>
          forall c :: Yields(env, parts, c) <==> Yields(env, fold, c))
  }

  /** The parts can never build; or the fold has no new block; or neither can ever build. */
  predicate Harmless(parts: set<Block>, fold: set<Block>) {
    AnyHopeless(parts) || fold == parts || (parts == {} && AnyHopeless(fold))
  }

  lemma HopelessNeverPass(x: Crypto, blocks: set<Block>)
    requires AnyHopeless(blocks)
    ensures !AllPass(x, blocks)
  {
  }

  lemma HarmlessIsAlike(env: Env, parts: set<Block>, fold: set<Block>)
    requires parts <= fold && Harmless(parts, fold)
    ensures SetsAlike(env, parts, fold)
  {
    if AnyHopeless(parts) {
      assert AnyHopeless(fold);
      HopelessNeverPass(env.crypto, parts);
      HopelessNeverPass(env.crypto, fold);
    } else if fold != parts {
      HopelessNeverPass(env.crypto, fold);
    }
    hide AllPass;
  }

  /** An environment whose parser accepts everything. */
  ghost function PermissiveEnv(env: Env): Env {
    env.(crypto := env.crypto.(parseX509 := der => X509(CertInfo(0, true))),
         filterExpired := false, filterNonCA := false)
  }

  lemma PermissiveJudge(env: Env, b: Block)
    ensures Judge(PermissiveEnv(env).crypto, b)
         == if Hopeless(b) then Reject else Accept(Certificate(b.bytes, CertInfo(0, true)))
    ensures Keeps(PermissiveEnv(env), Certificate(b.bytes, CertInfo(0, true)))
  {
  }

  lemma PermissivePasses(env: Env, blocks: set<Block>)
    ensures AllPass(PermissiveEnv(env).crypto, blocks) <==> !AnyHopeless(blocks)
    ensures !AnyHopeless(blocks) ==> (YieldsSome(PermissiveEnv(env), blocks) <==> blocks != {})
  {
    forall b | b in blocks
      ensures Judge(PermissiveEnv(env).crypto, b).Reject? <==> Hopeless(b)
    {
      PermissiveJudge(env, b);
    }
    if blocks != {} && !AnyHopeless(blocks) {
      var b :| b in blocks;
      PermissiveJudge(env, b);
      assert Yields(PermissiveEnv(env), blocks, Certificate(b.bytes, CertInfo(0, true)));
    }
    hide Judge, Hopeless;
  }

  lemma HarmfulIsNotAlike(env: Env, parts: set<Block>, fold: set<Block>)
    requires parts <= fold && !Harmless(parts, fold)
    ensures !SetsAlike(PermissiveEnv(env), parts, fold)
  {
    PermissivePasses(env, parts);
    PermissivePasses(env, fold);
    if !AnyHopeless(fold) && parts != {} {
      var b :| b in fold && b !in parts;
      var c := Certificate(b.bytes, CertInfo(0, true));
      PermissiveJudge(env, b);
      assert Yields(PermissiveEnv(env), fold, c);
      forall o | o in parts
        ensures Judge(PermissiveEnv(env).crypto, o) != Accept(c)
      {
        PermissiveJudge(env, o);
        assert o != b && !Hopeless(o) && !Hopeless(b);
      }
      assert !Yields(PermissiveEnv(env), parts, c);
    }
    hide AllPass, Yields;
  }

  lemma FoldedParts(sources: seq<BundleSource>)
    requires OnlyInlineTexts(sources)
    ensures var text := FoldTexts(InlineTexts(sources));
            && text != "" && SourcesBack(sources) == [InlineSource(text)] && OnlyInlineTexts(SourcesBack(sources))
            && Parts(SourcesBack(sources)) == BlockSet(Blocks(text))
            && Parts(sources) <= BlockSet(Blocks(text))
  {
    var texts := InlineTexts(sources);
    assert sources[0] in sources && texts[0] == sources[0].inLine && texts[0] in texts;
    FoldIsNotEmpty(texts);
    var text := FoldTexts(texts);
    forall i | 0 <= i < |sources|
      ensures !IsReference(sources[i]) && sources[i].useDefaultCAs.None?
    {
      assert sources[i] in sources;
    }
    hide FoldTexts, Blocks;
    OnlyInline(sources, text);
    assert InlineTexts([InlineSource(text)]) == [text];
    assert BlocksOfAll([text]) == [] + Blocks(text) by {
      assert [text][..0] == [];
    }
    forall b | b in BlocksOfAll(texts)
      ensures b in Blocks(text)
    {
      FoldHasAllBlocks(texts, b);
    }
  }

  ghost function EmptyEnv(): Env {
    Env(Crypto(der => seq(32, _ => 0), der => X509Error("")), map[], map[], (n, l) => false, (n, l) => false,
        None, t => "", 0, false, false)
  }

  lemma SetsExactly(parts: set<Block>, fold: set<Block>)
    requires parts <= fold
    ensures (forall env :: SetsAlike(env, parts, fold)) <==> Harmless(parts, fold)
  {
    hide SetsAlike, Harmless, EmptyEnv, PermissiveEnv;
    if Harmless(parts, fold) {
      forall env
        ensures SetsAlike(env, parts, fold)
      {
        HarmlessIsAlike(env, parts, fold);
      }
    } else {
      HarmfulIsNotAlike(EmptyEnv(), parts, fold);
    }
  }

  /** A list of inline texts builds alike before and after migration, into the same certificates, in every
      environment if and only if one of its blocks can never be a certificate, or the fold has no other blocks,
      or there are no blocks at all and one of the fold can never be a certificate. */
  lemma InlineExactly(sources: seq<BundleSource>)
    requires OnlyInlineTexts(sources)
    ensures (forall env :: BuildAlike(env, sources, SourcesBack(sources))) <==>
            Harmless(Parts(sources), BlockSet(Blocks(FoldTexts(InlineTexts(sources)))))
  {
    hide *;
    FoldedParts(sources);
    forall env
      ensures BuildAlike(env, sources, SourcesBack(sources)) <==>
              SetsAlike(env, Parts(sources), Parts(SourcesBack(sources)))
    {
      ListsAreSets(env, sources, SourcesBack(sources));
    }
    SetsExactly(Parts(sources), Parts(SourcesBack(sources)));
  }

  lemma ListsAreSets(env: Env, a: seq<BundleSource>, b: seq<BundleSource>)
    requires OnlyInlineTexts(a) && OnlyInlineTexts(b)
    ensures BuildAlike(env, a, b) <==> SetsAlike(env, Parts(a), Parts(b))
  {
    InlineBuilds(env, a);
    InlineBuilds(env, b);
    hide Buildable, Resolved, AllPass, YieldsSome, Yields, Parts, OnlyInlineTexts;
    if AllPass(env.crypto, Parts(a)) && AllPass(env.crypto, Parts(b)) {
      if forall c :: Yields(env, Parts(a), c) <==> Yields(env, Parts(b), c) {
        assert Resolved(env, a) == Resolved(env, b);
      }
    }
  }
}
