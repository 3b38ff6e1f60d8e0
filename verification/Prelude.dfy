/**
 What every module shares: optional values, bytes, the few string tests the system relies on, and
 the order of byte strings.
 */
module Prelude {

  datatype Option<+T> = None | Some(value: T)

  type Byte = b: int | 0 <= b < 256

  predicate HasPrefix(s: string, prefix: string) {
    |prefix| <= |s| && s[..|prefix|] == prefix
  }

  predicate HasSuffix(s: string, suffix: string) {
    |suffix| <= |s| && s[|s| - |suffix|..] == suffix
  }

  // ---------- Sequences ----------

  lemma PrefixCancels<T>(x: seq<T>, a: seq<T>, b: seq<T>)
    ensures x + a == x + b <==> a == b
  {
    if x + a == x + b {
      assert a == (x + a)[|x|..] && b == (x + b)[|x|..];
    }
  }

  lemma SuffixCancels<T>(a: seq<T>, b: seq<T>, x: seq<T>)
    ensures a + x == b + x <==> a == b
  {
    if a + x == b + x {
      assert |a| == |b|;
      assert a == (a + x)[..|a|] && b == (b + x)[..|b|];
    }
  }

  // ---------- Lexicographic order ----------

  /** Lexicographic order on byte strings, as bytes.Compare defines it. */
  predicate Before(a: seq<int>, b: seq<int>) {
    b != [] && (a == [] || a[0] < b[0] || (a[0] == b[0] && Before(a[1..], b[1..])))
  }

  lemma {:induction false} BeforeTotal(a: seq<int>, b: seq<int>)
    ensures a == b || Before(a, b) || Before(b, a)
    ensures !(Before(a, b) && Before(b, a))
    ensures !Before(a, a)
  {
    if a != [] && b != [] && a[0] == b[0] {
      BeforeTotal(a[1..], b[1..]);
      assert a == [a[0]] + a[1..] && b == [b[0]] + b[1..];
    }
    if a != [] {
      BeforeTotal(a[1..], a[1..]);
    }
  }

  lemma {:induction false} BeforeTransitive(a: seq<int>, b: seq<int>, c: seq<int>)
    requires Before(a, b) && Before(b, c)
    ensures Before(a, c)
  {
    if a != [] && a[0] == b[0] == c[0] {
      BeforeTransitive(a[1..], b[1..], c[1..]);
    }
  }

  /** Up to `n` the strings agree, and there the first one ends or has the smaller byte. */
  predicate LessAt(a: seq<int>, b: seq<int>, n: nat) {
    n < |b| && n <= |a| && a[..n] == b[..n] && (n == |a| || a[n] < b[n])
  }

  lemma LessFurtherOn(a: seq<int>, b: seq<int>, n: nat)
    requires a != [] && b != []
    ensures LessAt(a, b, n + 1) <==> a[0] == b[0] && LessAt(a[1..], b[1..], n)
  {
    if n < |a| && n < |b| {
      assert a[..n + 1] == [a[0]] + a[1..][..n] && b[..n + 1] == [b[0]] + b[1..][..n];
    }
  }

  /** One byte string precedes another iff it is a proper prefix of it, or has the smaller byte where they first
      differ. */
  lemma {:induction false} BeforeExactly(a: seq<int>, b: seq<int>)
    ensures Before(a, b) <==> exists n: nat :: LessAt(a, b, n)
  {
    assert LessAt(a, b, 0) <==> b != [] && (a == [] || a[0] < b[0]);
    if a != [] && b != [] {
      BeforeExactly(a[1..], b[1..]);
      forall n: nat
        ensures LessAt(a, b, n + 1) <==> a[0] == b[0] && LessAt(a[1..], b[1..], n)
      {
        LessFurtherOn(a, b, n);
      }
      hide LessAt;
      if a[0] == b[0] && Before(a, b) {
        var m: nat :| LessAt(a[1..], b[1..], m);
        assert LessAt(a, b, m + 1);
      }
      if n: nat :| LessAt(a, b, n) {
        if n > 0 {
          LessFurtherOn(a, b, n - 1);
          assert LessAt(a[1..], b[1..], n - 1);
        }
      }
    }
  }
}
