/**
 What certificate pools promise: printing and parsing undo each other, the printed text
 determines the pool, and a pool depends only on the set of certificates that went into it.
 */
module PoolProperties {
  import opened Prelude
  import opened Digests
  import opened Pem
  import opened CertPools

  // ---------- The contents of a pool as a set ----------

  /** The pool holds exactly `certs`, up to digest collisions. */
  ghost predicate Holds(x: Crypto, pool: map<Digest, Certificate>, certs: set<Certificate>) {
    && (forall c :: c in certs ==> x.sha256(c.raw) in pool)
    && (forall d :: d in pool ==> pool[d] in certs && x.sha256(pool[d].raw) == d)
  }

  ghost predicate NoCollision(x: Crypto, certs: set<Certificate>) {
    forall c, d :: c in certs && d in certs && x.sha256(c.raw) == x.sha256(d.raw) ==> c == d
  }

  ghost function Kept(filters: seq<Filter>, certs: seq<Certificate>): set<Certificate> {
    set c | c in certs && Passes(filters, c)
  }

  /** The certificates that a text contributes through the filters. */
  ghost function CertsOf(x: Crypto, filters: seq<Filter>, text: string): set<Certificate> {
    Kept(filters, Admitted(x, Blocks(text)))
  }

  lemma HoldsUnique(x: Crypto, a: map<Digest, Certificate>, b: map<Digest, Certificate>,
                    certs: set<Certificate>)
    requires NoCollision(x, certs) && Holds(x, a, certs) && Holds(x, b, certs)
    ensures a == b
  {
    forall d | d in a
      ensures d in b && a[d] == b[d]
    {
      assert x.sha256(a[d].raw) in b;
    }
    forall d | d in b
      ensures d in a
    {
      assert x.sha256(b[d].raw) in a;
    }
  }

  /** A pool tells which certificates it holds. */
  lemma HoldsTells(x: Crypto, pool: map<Digest, Certificate>, a: set<Certificate>, b: set<Certificate>)
    requires NoCollision(x, a + b) && Holds(x, pool, a) && Holds(x, pool, b)
    ensures a == b
  {
    forall c | c in a + b
      ensures c in a && c in b
    {
      var d := x.sha256(c.raw);
      assert d in pool && pool[d] in a && pool[d] in b && x.sha256(pool[d].raw) == d;
      assert pool[d] == c;
    }
  }

  lemma {:induction false} InsertHolds(x: Crypto, filters: seq<Filter>, pool: map<Digest, Certificate>,
                                       held: set<Certificate>, certs: seq<Certificate>)
    requires Holds(x, pool, held)
    ensures Holds(x, Insert(x, filters, pool, certs), held + Kept(filters, certs))
    decreases |certs|
  {
    if certs == [] {
      assert held + Kept(filters, certs) == held;
    } else {
      var c, tail := certs[0], certs[1..];
      assert forall d :: d in certs <==> d == c || d in tail;
      if Passes(filters, c) {
        var d := x.sha256(c.raw);
        assert pool[d := c][d] == c;
        InsertHolds(x, filters, pool[d := c], held + {c}, tail);
        assert held + {c} + Kept(filters, tail) == held + Kept(filters, certs);
      } else {
        InsertHolds(x, filters, pool, held, tail);
        assert Kept(filters, tail) == Kept(filters, certs);
      }
    }
  }

  /** Reading a text adds exactly the certificates the text contributes. */
  lemma ReadTextHolds(x: Crypto, filters: seq<Filter>, pool: map<Digest, Certificate>,
                      held: set<Certificate>, text: string)
    requires Holds(x, pool, held)
    ensures Holds(x, ReadText(x, filters, pool, text), held + CertsOf(x, filters, text))
  {
    InsertHolds(x, filters, pool, held, Admitted(x, Blocks(text)));
  }

  lemma EmptyIffNothingHeld(x: Crypto, pool: map<Digest, Certificate>, certs: set<Certificate>)
    requires Holds(x, pool, certs)
    ensures |pool| == 0 <==> certs == {}
  {
    if certs != {} {
      var c :| c in certs;
      assert x.sha256(c.raw) in pool;
    }
    if |pool| != 0 {
      var d :| d in pool;
      assert pool[d] in certs;
    }
  }

  /** The text is accepted, so all its blocks count: what two block lists contribute together. */
  lemma {:induction false} AdmittedAppend(x: Crypto, a: seq<Block>, b: seq<Block>)
    ensures Rejects(x, a + b) <==> Rejects(x, a) || Rejects(x, b)
    ensures !Rejects(x, a) ==> Admitted(x, a + b) == Admitted(x, a) + Admitted(x, b)
  {
    hide Judge;
    if a == [] {
      assert a + b == b;
    } else {
      var tail := a[1..];
      FirstBlock(x, a[0], tail);
      FirstBlock(x, a[0], tail + b);
      assert a == [a[0]] + tail && a + b == [a[0]] + (tail + b);
      AdmittedAppend(x, tail, b);
    }
  }

  // ---------- Soundness is kept ----------

  lemma {:induction false} AdmittedParse(x: Crypto, blocks: seq<Block>)
    ensures forall c :: c in Admitted(x, blocks) ==> ParseCertificate(x, c.raw) == Accept(c)
  {
    if blocks != [] {
      AdmittedParse(x, blocks[1..]);
    }
  }

  /** Pools filled from text only hold certificates that parse to themselves, under their digest. */
  lemma SoundAfterReading(x: Crypto, filters: seq<Filter>, pool: map<Digest, Certificate>, text: string)
    requires Sound(x, pool)
    ensures Sound(x, ReadText(x, filters, pool, text))
  {
    hide ParseCertificate;
    var certs := Admitted(x, Blocks(text));
    AdmittedParse(x, Blocks(text));
    var held := set d | d in pool :: pool[d];
    InsertHolds(x, filters, pool, held, certs);
    var pool' := Insert(x, filters, pool, certs);
    forall d | d in pool'
      ensures x.sha256(pool'[d].raw) == d && ParseCertificate(x, pool'[d].raw) == Accept(pool'[d])
    {
      assert pool'[d] in held || pool'[d] in certs;
    }
  }

  // ---------- Printing and parsing ----------

  /** An encoded block without its last newline. */
  function Core(raw: seq<Byte>): string {
    BEGIN + CERTIFICATE + DASHES + NEWLINE + Wrap(Base64.Encode(raw)) + END + CERTIFICATE + DASHES
  }

  function Cores(certs: seq<Certificate>): seq<string> {
    seq(|certs|, i requires 0 <= i < |certs| => Core(certs[i].raw))
  }

  predicate Bare(s: string) {
    s != "" && !IsSpace(s[0]) && !IsSpace(s[|s| - 1]) && s[|s| - 1] != '\n'
  }

  lemma TrimNewlineOnly(s: string)
    requires Bare(s)
    ensures TrimSpace(s + NEWLINE) == s
  {
    assert (s + NEWLINE)[..|s|] == s;
    assert TrimSpaceLeft(s + NEWLINE) == s + NEWLINE;
    assert TrimSpaceRight(s) == s;
  }

  lemma CoreIsBare(raw: seq<Byte>)
    ensures Bare(Core(raw)) && EncodeBlock(CERTIFICATE, raw) == Core(raw) + NEWLINE
    ensures TrimSpace(EncodeBlock(CERTIFICATE, raw)) == Core(raw)
  {
    hide Wrap;
    hide Base64.Encode;
    hide TrimSpace;
    var s := Core(raw);
    assert s[0] == BEGIN[0] && s[|s| - 1] == DASHES[4];
    TrimNewlineOnly(s);
  }

  lemma {:induction false} JoinedCores(certs: seq<Certificate>)
    requires certs != []
    ensures Bare(JoinLines(Cores(certs)))
    ensures EncodeAll(CERTIFICATE, RawOf(certs)) == JoinLines(Cores(certs)) + NEWLINE
  {
    hide EncodeBlock;
    hide Core;
    CoreIsBare(certs[0].raw);
    assert RawOf(certs)[1..] == RawOf(certs[1..]) && Cores(certs)[1..] == Cores(certs[1..]);
    var first := Core(certs[0].raw);
    if |certs| == 1 {
      assert EncodeAll(CERTIFICATE, RawOf(certs)[1..]) == "";
      assert first + NEWLINE + "" == first + NEWLINE;
    } else {
      JoinedCores(certs[1..]);
      var others := JoinLines(Cores(certs[1..]));
      assert first + NEWLINE + (others + NEWLINE) == (first + NEWLINE + others) + NEWLINE;
    }
  }

  /** The printed pool is its split texts joined by newlines. */
  lemma PemIsJoinedSplit(pool: map<Digest, Certificate>)
    ensures PemText(pool) == JoinLines(SplitTexts(InOrder(pool)))
  {
    var certs := InOrder(pool);
    forall i | 0 <= i < |certs|
      ensures SplitTexts(certs)[i] == Cores(certs)[i]
    {
      CoreIsBare(certs[i].raw);
    }
    assert SplitTexts(certs) == Cores(certs);
    if certs == [] {
      assert RawOf(certs) == [] && Cores(certs) == [];
    } else {
      JoinedCores(certs);
      TrimNewlineOnly(JoinLines(Cores(certs)));
    }
  }

  /** The blocks of a printed pool are its certificates in order. */
  lemma PrintedBlocks(pool: map<Digest, Certificate>)
    ensures Blocks(PemText(pool)) == BlocksOf(CERTIFICATE, RawOf(InOrder(pool)))
  {
    hide Run;
    hide BlocksOf;
    var certs := InOrder(pool);
    PlainWithoutB(CERTIFICATE);
    DecodeEncodeAll(CERTIFICATE, RawOf(certs));
    if certs != [] {
      JoinedCores(certs);
      var text := JoinLines(Cores(certs));
      TrimNewlineOnly(text);
      RunFinalNewline(Outside, text);
    } else {
      assert RawOf(certs) == [];
    }
  }

  lemma {:induction false} AdmittedBack(x: Crypto, certs: seq<Certificate>)
    requires forall i :: 0 <= i < |certs| ==> ParseCertificate(x, certs[i].raw) == Accept(certs[i])
    ensures var blocks := BlocksOf(CERTIFICATE, RawOf(certs));
            !Rejects(x, blocks) && Admitted(x, blocks) == certs
  {
    hide ParseCertificate;
    var blocks := BlocksOf(CERTIFICATE, RawOf(certs));
    if certs != [] {
      AdmittedBack(x, certs[1..]);
      var tail := BlocksOf(CERTIFICATE, RawOf(certs[1..]));
      assert blocks == [blocks[0]] + tail;
      FirstBlock(x, blocks[0], tail);
    }
  }

  lemma InOrderElements(pool: map<Digest, Certificate>)
    ensures forall c :: c in InOrder(pool) <==> exists d :: d in pool && pool[d] == c
  {
    var ds, certs := Listing(pool.Keys), InOrder(pool);
    forall d | d in pool
      ensures pool[d] in certs
    {
      assert d in ds;
      var i :| 0 <= i < |ds| && ds[i] == d;
      assert certs[i] == pool[d];
    }
    forall c | c in certs
      ensures exists d :: d in pool && pool[d] == c
    {
      var i :| 0 <= i < |certs| && certs[i] == c;
      assert ds[i] in ds;
    }
  }

  /** The certificates of a pool are listed strictly by digest, each exactly once. */
  lemma OrderedByDigest(x: Crypto, pool: map<Digest, Certificate>)
    requires Sound(x, pool)
    ensures var certs := InOrder(pool);
            && (forall i, j :: 0 <= i < j < |certs| ==> Before(x.sha256(certs[i].raw), x.sha256(certs[j].raw)))
            && (forall i, j :: 0 <= i < j < |certs| ==> certs[i] != certs[j])
            && (forall c :: c in certs <==> exists d :: d in pool && pool[d] == c)
  {
    hide ParseCertificate;
    var ds, certs := Listing(pool.Keys), InOrder(pool);
    InOrderElements(pool);
    forall i, j | 0 <= i < j < |certs|
      ensures Before(x.sha256(certs[i].raw), x.sha256(certs[j].raw)) && certs[i] != certs[j]
    {
      assert ds[i] in ds && ds[j] in ds;
      BeforeTotal(ds[i], ds[j]);
      BeforeTotal(ds[i], ds[i]);
    }
  }

  lemma SoundInOrder(x: Crypto, pool: map<Digest, Certificate>)
    requires Sound(x, pool)
    ensures forall i :: 0 <= i < |InOrder(pool)| ==>
              ParseCertificate(x, InOrder(pool)[i].raw) == Accept(InOrder(pool)[i])
  {
    hide ParseCertificate;
    InOrderElements(pool);
    forall i | 0 <= i < |InOrder(pool)|
      ensures ParseCertificate(x, InOrder(pool)[i].raw) == Accept(InOrder(pool)[i])
    {
      assert InOrder(pool)[i] in InOrder(pool);
    }
  }

  /** Inserting the certificates of a pool into an empty one gives the pool back. */
  lemma InsertBack(x: Crypto, pool: map<Digest, Certificate>)
    requires Sound(x, pool)
    ensures Insert(x, [], map[], InOrder(pool)) == pool
  {
    hide Insert, InOrder, ParseCertificate;
    var certs, held := InOrder(pool), set d | d in pool :: pool[d];
    InOrderElements(pool);
    InsertHolds(x, [], map[], {}, certs);
    assert {} + Kept([], certs) == held;
    HoldsUnique(x, Insert(x, [], map[], certs), pool, held);
  }

  /** Parsing the printed text of a pool into a fresh unfiltered pool gives the same pool back. */
  lemma ParsePrinted(x: Crypto, pool: map<Digest, Certificate>)
    requires Sound(x, pool)
    ensures AcceptsText(x, PemText(pool))
    ensures ReadText(x, [], map[], PemText(pool)) == pool
  {
    PrintedBlocks(pool);
    SoundInOrder(x, pool);
    AdmittedBack(x, InOrder(pool));
    InsertBack(x, pool);
    hide PemText, InOrder, Insert, Admitted, Rejects, Blocks, BlocksOf, ParseCertificate;
  }

  // ---------- Texts that contribute nothing ----------

  /** A text none of whose certificates passes the filters leaves the pool as it was; that is no error by itself. */
  lemma NothingPasses(x: Crypto, filters: seq<Filter>, pool: map<Digest, Certificate>, text: string)
    requires forall c :: c in Admitted(x, Blocks(text)) ==> !Passes(filters, c)
    ensures ReadText(x, filters, pool, text) == pool
  {
    hide Blocks;
    InsertNothing(x, filters, pool, Admitted(x, Blocks(text)));
  }

  lemma {:induction false} InsertNothing(x: Crypto, filters: seq<Filter>, pool: map<Digest, Certificate>,
                                         certs: seq<Certificate>)
    requires forall c :: c in certs ==> !Passes(filters, c)
    ensures Insert(x, filters, pool, certs) == pool
    decreases |certs|
  {
    if certs != [] {
      assert certs[0] in certs;
      InsertNothing(x, filters, pool, certs[1..]);
    }
  }

  function Parsed(x: Crypto, ders: seq<seq<Byte>>): seq<Certificate>
    requires forall i :: 0 <= i < |ders| ==> x.parseX509(ders[i]).X509?
  {
    seq(|ders|, i requires 0 <= i < |ders| => Certificate(ders[i], x.parseX509(ders[i]).info))
  }

  /** A text of nothing but certificates that the filters refuse, expired ones for instance, is accepted without an
      error, however many there are; and so is a text without any. */
  lemma RefusedTextIsAccepted(x: Crypto, filters: seq<Filter>, pool: map<Digest, Certificate>, ders: seq<seq<Byte>>)
    requires forall i :: 0 <= i < |ders| ==> x.parseX509(ders[i]).X509?
    requires forall i :: 0 <= i < |ders| ==> !Passes(filters, Parsed(x, ders)[i])
    ensures AcceptsText(x, EncodeAll(CERTIFICATE, ders))
    ensures ReadText(x, filters, pool, EncodeAll(CERTIFICATE, ders)) == pool
  {
    hide Passes, Parsed, Admitted, Rejects, Blocks, ReadText, EncodeAll;
    AdmittedFromText(x, ders);
    NothingPasses(x, filters, pool, EncodeAll(CERTIFICATE, ders));
  }

  lemma AdmittedFromText(x: Crypto, ders: seq<seq<Byte>>)
    requires forall i :: 0 <= i < |ders| ==> x.parseX509(ders[i]).X509?
    ensures var text := EncodeAll(CERTIFICATE, ders);
            AcceptsText(x, text) && Admitted(x, Blocks(text)) == Parsed(x, ders) && |Parsed(x, ders)| == |ders|
  {
    PlainWithoutB(CERTIFICATE);
    hide Run, PlainTag, EncodeAll, Hex;
    var certs := Parsed(x, ders);
    DecodeEncodeAll(CERTIFICATE, ders);
    assert RawOf(certs) == ders;
    hide BlocksOf, RawOf;
    AdmittedBack(x, certs);
    hide Admitted, Rejects;
  }

  /** A text is refused only for one of its blocks: it is accepted iff every block is a certificate without headers
      that parses, or the known one that is skipped. */
  lemma AcceptedExactly(x: Crypto, text: string)
    ensures AcceptsText(x, text) <==>
            forall i :: 0 <= i < |Blocks(text)| ==>
              var b := Blocks(text)[i];
              b.tag == CERTIFICATE && !b.headers
              && (x.parseX509(b.bytes).X509? || ParseCertificate(x, b.bytes).Skip?)
  {
    hide Blocks;
  }

  /** Any text read through any filters, printed and read again: the same certificates. */
  lemma ReadPrintRead(x: Crypto, filters: seq<Filter>, text: string)
    ensures var pool := ReadText(x, filters, map[], text);
            AcceptsText(x, PemText(pool)) && ReadText(x, [], map[], PemText(pool)) == pool
  {
    SoundAfterReading(x, filters, map[], text);
    ParsePrinted(x, ReadText(x, filters, map[], text));
  }

  /** Two pools print the same text exactly when they hold the same certificates. */
  lemma PrintInjective(x: Crypto, a: map<Digest, Certificate>, b: map<Digest, Certificate>)
    requires Sound(x, a) && Sound(x, b)
    ensures PemText(a) == PemText(b) <==> a == b
  {
    hide PemText;
    ParsePrinted(x, a);
    ParsePrinted(x, b);
  }
}
