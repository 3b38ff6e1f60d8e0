/**
 Default CA packages: a named, versioned PEM bundle that is validated when it is loaded.
 */
module Packages {
  import opened Prelude
  import opened CertPools

  datatype Package = Package(name: string, bundle: string, version: string)

  /** The readable identity of a package; `hashText` is the hexadecimal digest prefix of a text. */
  function StringID(hashText: string -> string, p: Package): string {
    p.name + "-" + p.version + "-" + hashText(p.bundle)
  }

  predicate Valid(x: Crypto, p: Package) {
    AcceptsText(x, p.bundle) && p.name != "" && p.version != ""
  }

  method Validate(x: Crypto, p: Package) returns (ok: bool)
    ensures ok <==> Valid(x, p)
  {
    var pool := new CertPool(x, 0, false, false);
    ok := pool.AddCertsFromPEM(Some(p.bundle));
    ok := ok && p.name != "" && p.version != "";
  }

  /** Loads a package from decoded JSON; `None` stands for JSON that does not decode. */
  method LoadPackage(x: Crypto, decoded: Option<Package>) returns (p: Option<Package>)
    ensures p == if decoded.Some? && Valid(x, decoded.value) then decoded else None
  {
    if decoded.None? {
      return None;
    }
    var ok := Validate(x, decoded.value);
    p := if ok then decoded else None;
  }
}
