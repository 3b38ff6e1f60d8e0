/**
 The certificate pool: a set of certificates keyed by SHA-256 digest, filled from PEM text
 through filters and printed in digest order.

 SHA-256 and X.509 parsing are parameters (`Crypto`): every result holds for all of them.
 */
module CertPools {
  import opened Prelude
  import opened Digests
  import opened Pem

  const CERTIFICATE := "CERTIFICATE"
  const NEGATIVE_SERIAL_FINGERPRINT := "88497f01602f3154246ae28c4d5aef10f1d87ebb76626f4ae0b7f95ba7968799"
  const NEGATIVE_SERIAL_ERROR := "x509: negative serial number"

  // ---------- Certificates ----------

  datatype CertInfo = CertInfo(notAfter: int, isCA: bool)

  datatype Certificate = Certificate(raw: seq<Byte>, info: CertInfo)

  datatype X509Result = X509(info: CertInfo) | X509Error(message: string)

  datatype Crypto = Crypto(sha256: seq<Byte> -> Digest, parseX509: seq<Byte> -> X509Result)

  /** What a PEM block contributes: a certificate, nothing (a known incompatible certificate),
      or a reason to reject the whole text. */
  datatype Verdict = Accept(cert: Certificate) | Skip | Reject

  type Filter = Certificate -> bool

  function HexDigit(n: nat): char
    requires n < 16
  {
    if n < 10 then ('0' as int + n) as char else ('a' as int + (n - 10)) as char
  }

  function Hex(bytes: seq<Byte>): string {
    if bytes == [] then ""
    else [HexDigit(bytes[0] / 16), HexDigit(bytes[0] % 16)] + Hex(bytes[1..])
  }

  /** One certificate with a negative serial number is skipped; every other certificate that does
      not parse is rejected. */
  function ParseCertificate(x: Crypto, der: seq<Byte>): (v: Verdict)
    ensures v.Accept? ==> v.cert.raw == der
  {
    match x.parseX509(der)
    case X509(info) => Accept(Certificate(der, info))
    case X509Error(message) =>
      if Hex(x.sha256(der)) == NEGATIVE_SERIAL_FINGERPRINT && HasSuffix(message, NEGATIVE_SERIAL_ERROR)
      then Skip
      else Reject
  }

  lemma {:induction false} HexInjective(a: seq<Byte>, b: seq<Byte>)
    requires Hex(a) == Hex(b)
    ensures a == b
  {
    if a != [] && b != [] {
      assert Hex(a)[0] == Hex(b)[0] && Hex(a)[1] == Hex(b)[1];
      assert HexDigit(a[0] / 16) == HexDigit(b[0] / 16) && HexDigit(a[0] % 16) == HexDigit(b[0] % 16);
      assert a[0] == b[0];
      assert Hex(a)[2..] == Hex(a[1..]) && Hex(b)[2..] == Hex(b[1..]);
      HexInjective(a[1..], b[1..]);
      assert a == [a[0]] + a[1..] && b == [b[0]] + b[1..];
    }
  }

  /** At most one digest is ever skipped: a certificate that parses never is, and beside a skipped one exactly
      those are that have its digest and fail for their serial number. */
  lemma SkipsOneDigest(x: Crypto, skipped: seq<Byte>, der: seq<Byte>)
    requires ParseCertificate(x, skipped).Skip?
    ensures Hex(x.sha256(skipped)) == NEGATIVE_SERIAL_FINGERPRINT
    ensures ParseCertificate(x, der).Accept? <==> x.parseX509(der).X509?
    ensures ParseCertificate(x, der).Skip? <==>
            x.sha256(der) == x.sha256(skipped) && x.parseX509(der).X509Error?
            && HasSuffix(x.parseX509(der).message, NEGATIVE_SERIAL_ERROR)
  {
    if ParseCertificate(x, der).Skip? {
      HexInjective(x.sha256(der), x.sha256(skipped));
    }
    hide Hex;
  }

  /** Only CERTIFICATE blocks without headers are allowed. */
  function Judge(x: Crypto, block: Block): Verdict {
    if block.tag != CERTIFICATE || block.headers then Reject else ParseCertificate(x, block.bytes)
  }

  // ---------- What a text contributes ----------

  predicate Rejects(x: Crypto, blocks: seq<Block>) {
    exists i :: 0 <= i < |blocks| && Judge(x, blocks[i]).Reject?
  }

  /** The certificates before the first rejected block, in order. */
  function Admitted(x: Crypto, blocks: seq<Block>): seq<Certificate> {
    if blocks == [] then []
    else match Judge(x, blocks[0])
      case Accept(cert) => [cert] + Admitted(x, blocks[1..])
      case Skip => Admitted(x, blocks[1..])
      case Reject => []
  }

  predicate Passes(filters: seq<Filter>, cert: Certificate) {
    forall i :: 0 <= i < |filters| ==> filters[i](cert)
  }

  /** The pool after adding certificates one after the other. */
  function Insert(x: Crypto, filters: seq<Filter>, pool: map<Digest, Certificate>,
                  certs: seq<Certificate>): map<Digest, Certificate>
    decreases |certs|
  {
    if certs == [] then pool
    else
      var pool' := if Passes(filters, certs[0]) then pool[x.sha256(certs[0].raw) := certs[0]] else pool;
      Insert(x, filters, pool', certs[1..])
  }

  /** Reading a whole text into a pool: the pool that results, whether or not the text is rejected. */
  function ReadText(x: Crypto, filters: seq<Filter>, pool: map<Digest, Certificate>, text: string)
    : map<Digest, Certificate>
  {
    Insert(x, filters, pool, Admitted(x, Blocks(text)))
  }

  predicate AcceptsText(x: Crypto, text: string) {
    !Rejects(x, Blocks(text))
  }

  /** Every certificate sits under its own digest and parses to itself. */
  ghost predicate Sound(x: Crypto, pool: map<Digest, Certificate>) {
    forall d :: d in pool ==>
      x.sha256(pool[d].raw) == d && ParseCertificate(x, pool[d].raw) == Accept(pool[d])
  }

  // ---------- Printing ----------

  predicate IsSpace(c: char) {
    c == ' ' || '\t' <= c <= '\r' || c == 0x85 as char || c == 0xA0 as char
  }

  function TrimSpaceLeft(s: string): string {
    if s != "" && IsSpace(s[0]) then TrimSpaceLeft(s[1..]) else s
  }

  function TrimSpaceRight(s: string): string {
    if s != "" && IsSpace(s[|s| - 1]) then TrimSpaceRight(s[..|s| - 1]) else s
  }

  function TrimSpace(s: string): string {
    TrimSpaceRight(TrimSpaceLeft(s))
  }

  /** The certificates of a pool in digest order. */
  ghost function InOrder(pool: map<Digest, Certificate>): seq<Certificate> {
    var ds := Listing(pool.Keys);
    seq(|ds|, i requires 0 <= i < |ds| => assert ds[i] in ds; pool[ds[i]])
  }

  function RawOf(certs: seq<Certificate>): seq<seq<Byte>> {
    seq(|certs|, i requires 0 <= i < |certs| => certs[i].raw)
  }

  ghost function PemText(pool: map<Digest, Certificate>): string {
    TrimSpace(EncodeAll(CERTIFICATE, RawOf(InOrder(pool))))
  }

  function SplitTexts(certs: seq<Certificate>): seq<string> {
    seq(|certs|, i requires 0 <= i < |certs| => TrimSpace(EncodeBlock(CERTIFICATE, certs[i].raw)))
  }

  function JoinLines(texts: seq<string>): string {
    if texts == [] then "" else if |texts| == 1 then texts[0]
    else texts[0] + NEWLINE + JoinLines(texts[1..])
  }

  // ---------- The pool ----------

  class CertPool {
    const crypto: Crypto
    var certificates: map<Digest, Certificate>
    var filters: seq<Filter>

    constructor (crypto: Crypto, now: int, filterExpired: bool, filterNonCA: bool)
      ensures this.crypto == crypto && certificates == map[]
      ensures forall c :: Passes(filters, c) <==>
                (filterExpired ==> now <= c.info.notAfter) && (filterNonCA ==> c.info.isCA)
    {
      this.crypto := crypto;
      certificates := map[];
      filters := [];
      new;
      if filterExpired {
        AppendFilter((c: Certificate) => !(now > c.info.notAfter));
      }
      if filterNonCA {
        AppendFilter((c: Certificate) => c.info.isCA);
      }
    }

    method AppendFilter(f: Filter)
      modifies this`filters
      ensures filters == old(filters) + [f]
      ensures forall c :: Passes(filters, c) <==> Passes(old(filters), c) && f(c)
    {
      filters := filters + [f];
      assert forall c :: Passes(filters, c) ==> filters[|filters| - 1](c);
      assert forall i :: 0 <= i < |filters| - 1 ==> filters[i] == old(filters)[i];
    }

    method AddCert(cert: Certificate) returns (added: bool)
      modifies this`certificates
      ensures added == Passes(filters, cert)
      ensures certificates == Insert(crypto, filters, old(certificates), [cert])
    {
      var i := 0;
      while i < |filters|
        invariant 0 <= i <= |filters|
        invariant forall j :: 0 <= j < i ==> filters[j](cert)
      {
        if !filters[i](cert) {
          return false;
        }
        i := i + 1;
      }
      certificates := certificates[crypto.sha256(cert.raw) := cert];
      added := true;
    }

    /** Succeeds iff no block of the text is rejected; in both cases the pool gains exactly the
        certificates before the first rejected block that pass the filters. */
    method AddCertsFromPEM(pemData: Option<string>) returns (ok: bool)
      modifies this`certificates
      ensures ok <==> pemData.Some? && AcceptsText(crypto, pemData.value)
      ensures pemData.None? ==> certificates == old(certificates)
      ensures pemData.Some? ==>
                certificates == ReadText(crypto, filters, old(certificates), pemData.value)
    {
      if pemData.None? {
        return false;
      }
      var rest := pemData.value;
      ghost var todo := Blocks(rest);
      ghost var all := todo;
      while true
        invariant todo == Blocks(rest)
        invariant Rejects(crypto, all) <==> Rejects(crypto, todo)
        invariant ReadText(crypto, filters, old(certificates), pemData.value)
               == Insert(crypto, filters, certificates, Admitted(crypto, todo))
        decreases |rest|
      {
        var (block, next) := Decode(rest);
        DecodeUnrolls(Outside, rest);
        if block.None? {
          break;
        }
        ghost var tail := Blocks(next);
        FirstBlock(crypto, block.value, tail);
        assert todo == [block.value] + tail && todo[1..] == tail;
        var verdict := Judge(crypto, block.value);
        match verdict {
          case Reject =>
            return false;
          case Skip =>
          case Accept(cert) =>
            InsertFirst(crypto, filters, certificates, cert, Admitted(crypto, tail));
            var _ := AddCert(cert);
        }
        rest, todo := next, tail;
      }
      ok := true;
    }

    method Size() returns (n: nat)
      ensures n == |certificates|
    {
      n := |certificates|;
    }

    /** Every certificate once, strictly ordered by digest. */
    method Certificates() returns (certs: seq<Certificate>)
      ensures certs == InOrder(certificates)
      ensures |certs| == |certificates|
    {
      var digests := Sort(certificates.Keys);
      ListingUnique(digests, Listing(certificates.Keys), certificates.Keys);
      certs := [];
      var i := 0;
      while i < |digests|
        invariant 0 <= i <= |digests|
        invariant certs == InOrder(certificates)[..i]
      {
        assert digests[i] in digests;
        certs := certs + [certificates[digests[i]]];
        i := i + 1;
      }
    }

    method PEM() returns (text: string)
      ensures text == PemText(certificates)
    {
      var certs := Certificates();
      if |certificates| == 0 {
        assert RawOf(certs) == [];
        return "";
      }
      var buffer := "";
      var i := 0;
      while i < |certs|
        invariant 0 <= i <= |certs|
        invariant buffer == EncodeAll(CERTIFICATE, RawOf(certs)[..i])
      {
        EncodeAllAppend(CERTIFICATE, RawOf(certs)[..i], certs[i].raw);
        assert RawOf(certs)[..i + 1] == RawOf(certs)[..i] + [certs[i].raw];
        buffer := buffer + EncodeBlock(CERTIFICATE, certs[i].raw);
        i := i + 1;
      }
      assert RawOf(certs)[..i] == RawOf(certs);
      text := TrimSpace(buffer);
    }

    method PEMSplit() returns (texts: seq<string>)
      ensures texts == SplitTexts(InOrder(certificates))
    {
      var certs := Certificates();
      texts := [];
      var i := 0;
      while i < |certs|
        invariant 0 <= i <= |certs|
        invariant texts == SplitTexts(certs)[..i]
      {
        texts := texts + [TrimSpace(EncodeBlock(CERTIFICATE, certs[i].raw))];
        i := i + 1;
      }
    }
  }

  lemma FirstBlock(x: Crypto, block: Block, tail: seq<Block>)
    ensures Rejects(x, [block] + tail) <==> Judge(x, block).Reject? || Rejects(x, tail)
    ensures Admitted(x, [block] + tail) == match Judge(x, block)
            case Accept(cert) => [cert] + Admitted(x, tail)
            case Skip => Admitted(x, tail)
            case Reject => []
  {
    hide Judge;
    var blocks := [block] + tail;
    assert blocks[0] == block && blocks[1..] == tail;
    assert forall i :: 0 <= i < |tail| ==> tail[i] == blocks[i + 1];
    if Rejects(x, tail) {
      var i :| 0 <= i < |tail| && Judge(x, tail[i]).Reject?;
      assert Judge(x, blocks[i + 1]).Reject?;
    }
  }

  lemma InsertFirst(x: Crypto, filters: seq<Filter>, pool: map<Digest, Certificate>,
                    cert: Certificate, certs: seq<Certificate>)
    ensures Insert(x, filters, pool, [cert] + certs)
         == Insert(x, filters, Insert(x, filters, pool, [cert]), certs)
  {
    assert ([cert] + certs)[1..] == certs;
    assert [cert][1..] == [];
  }

  lemma {:induction false} EncodeAllAppend(tag: string, blobs: seq<seq<Byte>>, last: seq<Byte>)
    ensures EncodeAll(tag, blobs + [last]) == EncodeAll(tag, blobs) + EncodeBlock(tag, last)
  {
    hide EncodeBlock;
    if blobs == [] {
      assert blobs + [last] == [last] && [last][1..] == [];
    } else {
      assert (blobs + [last])[1..] == blobs[1..] + [last];
      EncodeAllAppend(tag, blobs[1..], last);
    }
  }
}
