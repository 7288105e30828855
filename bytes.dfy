/**
 * Byte strings and their lexicographic order.
 *
 * A LevelDB `Slice` or `std::string` key is a sequence of unsigned bytes.
 * `Less` below is the reference definition of the order that the bytewise
 * comparator promises: the first differing byte decides, and a proper prefix
 * sorts before the longer string.
 */
module Bytes {

  /** An unsigned 8-bit value (`uint8_t`). */
  type Byte = x: int | 0 <= x < 256

  /** Strict lexicographic order on byte strings. */
  predicate Less(a: seq<Byte>, b: seq<Byte>)
  {
    if |a| == 0 then |b| > 0
    else if |b| == 0 then false
    else a[0] < b[0] || (a[0] == b[0] && Less(a[1..], b[1..]))
  }

  predicate LessEq(a: seq<Byte>, b: seq<Byte>)
  {
    a == b || Less(a, b)
  }

  lemma {:induction false} LessIrreflexive(a: seq<Byte>)
    ensures !Less(a, a)
  {
    if |a| > 0 {
      LessIrreflexive(a[1..]);
    }
  }

  lemma {:induction false} LessTransitive(a: seq<Byte>, b: seq<Byte>, c: seq<Byte>)
    requires Less(a, b) && Less(b, c)
    ensures Less(a, c)
  {
    if |a| > 0 && a[0] == b[0] && b[0] == c[0] {
      LessTransitive(a[1..], b[1..], c[1..]);
    }
  }

  lemma {:induction false} LessTotal(a: seq<Byte>, b: seq<Byte>)
    ensures a == b || Less(a, b) || Less(b, a)
  {
    if |a| > 0 && |b| > 0 && a[0] == b[0] {
      LessTotal(a[1..], b[1..]);
      if a[1..] == b[1..] {
        assert a == [a[0]] + a[1..] && b == [b[0]] + b[1..];
      }
    }
  }

  lemma {:induction false} LessAsymmetric(a: seq<Byte>, b: seq<Byte>)
    requires Less(a, b)
    ensures !Less(b, a)
  {
    if |a| > 0 && |b| > 0 && a[0] == b[0] {
      LessAsymmetric(a[1..], b[1..]);
    }
  }

  /** Two strings that agree on `a[..d]` and differ first at `d` are ordered by that byte. */
  lemma {:induction false} LessAtDifference(a: seq<Byte>, b: seq<Byte>, d: nat)
    requires d < |a| && d < |b| && a[..d] == b[..d] && a[d] < b[d]
    ensures Less(a, b)
  {
    if d > 0 {
      assert a[0] == a[..d][0] == b[..d][0] == b[0];
      assert a[1..][..d - 1] == a[1..d] == a[..d][1..];
      assert b[1..][..d - 1] == b[1..d] == b[..d][1..];
      LessAtDifference(a[1..], b[1..], d - 1);
    }
  }

  /** A proper prefix sorts before the longer string. */
  lemma {:induction false} ProperPrefixLess(a: seq<Byte>, b: seq<Byte>)
    requires |a| < |b| && a == b[..|a|]
    ensures Less(a, b)
  {
    if |a| > 0 {
      assert a[0] == b[0];
      assert a[1..] == b[1..][..|a| - 1];
      ProperPrefixLess(a[1..], b[1..]);
    }
  }
}
