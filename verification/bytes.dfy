/**
 * Byte strings as an ordered key space.  RocksDB's default comparator orders keys
 * bytewise on UNSIGNED bytes (memcmp), a shorter key first when one is a prefix of
 * the other; `Less` is that order.  The lemmas here are what the prefix scan of the
 * object store relies on.
 */
module Bytes {

  /** An unsigned byte. */
  newtype byte = b: int | 0 <= b < 256

  /** `p` is a prefix of `s`. */
  predicate IsPrefix(p: seq<byte>, s: seq<byte>) {
    |p| <= |s| && s[..|p|] == p
  }

  /** Strict lexicographic order on unsigned bytes. */
  predicate Less(a: seq<byte>, b: seq<byte>)
    decreases |a|
  {
    if |a| == 0 then |b| > 0
    else |b| > 0 && (a[0] < b[0] || (a[0] == b[0] && Less(a[1..], b[1..])))
  }

  predicate LessEq(a: seq<byte>, b: seq<byte>) {
    a == b || Less(a, b)
  }

  lemma {:induction false} LessIrreflexive(a: seq<byte>)
    ensures !Less(a, a)
  {
    if |a| > 0 {
      LessIrreflexive(a[1..]);
    }
  }

  lemma {:induction false} LessTransitive(a: seq<byte>, b: seq<byte>, c: seq<byte>)
    requires Less(a, b) && Less(b, c)
    ensures Less(a, c)
  {
    if |a| > 0 && a[0] == b[0] && b[0] == c[0] {
      LessTransitive(a[1..], b[1..], c[1..]);
    }
  }

  lemma LessAsymmetric(a: seq<byte>, b: seq<byte>)
    requires Less(a, b)
    ensures !Less(b, a)
  {
    if Less(b, a) {
      LessTransitive(a, b, a);
      LessIrreflexive(a);
    }
  }

  /** The order is total: any two distinct keys are comparable. */
  lemma {:induction false} LessTotal(a: seq<byte>, b: seq<byte>)
    ensures a == b || Less(a, b) || Less(b, a)
  {
    if |a| > 0 && |b| > 0 && a[0] == b[0] {
      LessTotal(a[1..], b[1..]);
      if a[1..] == b[1..] {
        assert a == [a[0]] + a[1..] && b == [b[0]] + b[1..];
      }
    }
  }

  /** A proper prefix sorts before the longer key. */
  lemma {:induction false} ProperPrefixIsLess(p: seq<byte>, s: seq<byte>)
    requires IsPrefix(p, s) && p != s
    ensures Less(p, s)
  {
    if |p| > 0 {
      assert p[0] == s[0];
      assert p[1..] == s[1..][..|p| - 1];
      ProperPrefixIsLess(p[1..], s[1..]);
    }
  }

  /**
   * The keys carrying prefix `p` form one contiguous run in key order, starting at the
   * first key not below `p`: a key `a` with `p <= a` that sorts before a key `b` having
   * prefix `p` has prefix `p` itself.
   */
  lemma {:induction false} PrefixRunIsContiguous(p: seq<byte>, a: seq<byte>, b: seq<byte>)
    requires LessEq(p, a) && Less(a, b) && IsPrefix(p, b)
    ensures IsPrefix(p, a)
  {
    if |p| > 0 && p != a {
      assert b[0] == p[0];
      if p[0] == a[0] {
        assert p[1..] == b[1..][..|p| - 1];
        PrefixRunIsContiguous(p[1..], a[1..], b[1..]);
        assert a[..|p|] == [a[0]] + a[1..][..|p| - 1];
      }
    }
  }

  /**
   * Comparing `k` against `p` position by position, as long as they agree, never reads
   * past the end of `k` when `p <= k`: agreement on all of `k` would make `k` a proper
   * prefix of `p`, hence smaller than `p`.
   */
  lemma AgreementStaysInBounds(p: seq<byte>, k: seq<byte>, i: nat)
    requires LessEq(p, k) && i < |p| && i <= |k| && k[..i] == p[..i]
    ensures i < |k|
  {
    if i == |k| {
      assert IsPrefix(k, p) && k != p;
      ProperPrefixIsLess(k, p);
      LessAsymmetric(k, p);
    }
  }
}
