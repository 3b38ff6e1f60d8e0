/**
 SHA-256 digests as values, with the byte order in which certificate pools list them.
 */
module Digests {
  import opened Prelude

  type Digest = d: seq<Byte> | |d| == 32 witness seq(32, _ => 0)

  predicate Sorted(ds: seq<Digest>) {
    forall i, j :: 0 <= i < j < |ds| ==> Before(ds[i], ds[j])
  }

  /** `ds` is the sorted listing of `digests`. */
  ghost predicate Lists(ds: seq<Digest>, digests: set<Digest>) {
    Sorted(ds) && forall d :: d in ds <==> d in digests
  }

  /** A set of digests has one sorted listing. */
  lemma {:induction false} ListingUnique(a: seq<Digest>, b: seq<Digest>, digests: set<Digest>)
    requires Lists(a, digests) && Lists(b, digests)
    ensures a == b
    decreases |digests|
  {
    if digests == {} {
      HasFirst(a);
      HasFirst(b);
    } else {
      var x :| x in digests;
      assert x in a && x in b;
      FirstIsLeast(a, b, digests);
      TailLists(a, digests);
      TailLists(b, digests);
      ListingUnique(a[1..], b[1..], digests - {a[0]});
      assert a == [a[0]] + a[1..] && b == [b[0]] + b[1..];
    }
  }

  lemma HasFirst(ds: seq<Digest>)
    ensures ds != [] ==> ds[0] in ds
  {
  }

  lemma FirstIsLeast(a: seq<Digest>, b: seq<Digest>, digests: set<Digest>)
    requires Lists(a, digests) && Lists(b, digests) && a != [] && b != []
    ensures a[0] == b[0]
  {
    assert b[0] in digests && b[0] in a;
    assert a[0] in digests && a[0] in b;
    BeforeTotal(a[0], b[0]);
  }

  lemma TailLists(ds: seq<Digest>, digests: set<Digest>)
    requires Lists(ds, digests) && ds != []
    ensures ds[0] in digests && Lists(ds[1..], digests - {ds[0]})
  {
    BeforeTotal(ds[0], ds[0]);
    assert ds[0] in ds;
    assert ds == [ds[0]] + ds[1..];
  }

  /** Where `d` belongs in a sorted listing. */
  method Position(ds: seq<Digest>, d: Digest) returns (k: nat)
    requires Sorted(ds) && d !in ds
    ensures k <= |ds|
    ensures forall i :: 0 <= i < k ==> Before(ds[i], d)
    ensures forall i :: k <= i < |ds| ==> Before(d, ds[i])
  {
    k := 0;
    while k < |ds| && Before(ds[k], d)
      invariant k <= |ds|
      invariant forall i :: 0 <= i < k ==> Before(ds[i], d)
    {
      k := k + 1;
    }
    forall i | k <= i < |ds|
      ensures Before(d, ds[i])
    {
      BeforeTotal(ds[k], d);
      if i > k {
        BeforeTransitive(d, ds[k], ds[i]);
      }
    }
  }

  /** The sorted listing of a set of digests, whatever the order in which the set is visited. */
  method Sort(digests: set<Digest>) returns (ds: seq<Digest>)
    ensures Lists(ds, digests)
    ensures |ds| == |digests|
  {
    ds := [];
    var rest := digests;
    while rest != {}
      invariant rest <= digests
      invariant Lists(ds, digests - rest)
      invariant |ds| + |rest| == |digests|
      decreases |rest|
    {
      var d :| d in rest;
      assert d !in digests - rest;
      var k := Position(ds, d);
      ghost var before := ds;
      ds := ds[..k] + [d] + ds[k..];
      InsertLists(before, k, d, digests - rest);
      assert digests - rest + {d} == digests - (rest - {d});
      rest := rest - {d};
    }
    assert digests - rest == digests;
  }

  lemma InsertLists(ds: seq<Digest>, k: nat, d: Digest, digests: set<Digest>)
    requires Lists(ds, digests) && d !in digests && k <= |ds|
    requires forall i :: 0 <= i < k ==> Before(ds[i], d)
    requires forall i :: k <= i < |ds| ==> Before(d, ds[i])
    ensures Lists(ds[..k] + [d] + ds[k..], digests + {d})
  {
    assert ds == ds[..k] + ds[k..];
  }

  /** The sorted listing as a value: there is exactly one. */
  ghost function Listing(digests: set<Digest>): (ds: seq<Digest>)
    ensures Lists(ds, digests)
  {
    ListingExists(digests);
    var ds: seq<Digest> :| Lists(ds, digests);
    ds
  }

  lemma {:induction false} ListingExists(digests: set<Digest>)
    ensures exists ds: seq<Digest> :: Lists(ds, digests)
    decreases |digests|
  {
    if digests == {} {
      assert Lists([], digests);
    } else {
      var d := Least(digests);
      ListingExists(digests - {d});
      var tail: seq<Digest> :| Lists(tail, digests - {d});
      assert forall i :: 0 <= i < |tail| ==> tail[i] in tail;
      assert Lists([d] + tail, digests);
    }
  }

  lemma {:induction false} Least(digests: set<Digest>) returns (m: Digest)
    requires digests != {}
    ensures m in digests && forall d :: d in digests && d != m ==> Before(m, d)
    decreases |digests|
  {
    m :| m in digests;
    var rest := digests - {m};
    if rest != {} {
      var least := Least(rest);
      BeforeTotal(m, least);
      forall d | d in rest && d != least && Before(m, least)
        ensures Before(m, d)
      {
        BeforeTransitive(m, least, d);
      }
      m := if Before(m, least) then m else least;
    }
  }
}
