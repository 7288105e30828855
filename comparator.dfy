/**
 * The default bytewise comparator (`BytewiseComparatorImpl`) and the
 * abstract `Comparator` contract it implements.
 *
 * `Compare` three-way compares two byte strings the way `Slice::compare`
 * does (memcmp over the common length, then the shorter string first).
 * `FindShortestSeparator` and `FindShortSuccessor` shorten keys for index
 * blocks; the source changes its `std::string*` argument in place, which the
 * model expresses as a method that returns the new string.
 */
module Comparator {
  import opened Bytes

  function Min(x: nat, y: nat): nat
  {
    if x < y then x else y
  }

  // ---------------------------------------------------------------------
  // Three-way comparison

  /** memcmp over the first `n` bytes, with its sign normalised to -1, 0 or +1. */
  function Memcmp(a: seq<Byte>, b: seq<Byte>, n: nat): (r: int)
    requires n <= |a| && n <= |b|
    ensures -1 <= r <= 1
    ensures r == 0 <==> a[..n] == b[..n]
    ensures r < 0 ==> Less(a, b)
    ensures r > 0 ==> Less(b, a)
  {
    if n == 0 then 0
    else if a[0] < b[0] then -1
    else if a[0] > b[0] then 1
    else
      var r := Memcmp(a[1..], b[1..], n - 1);
      assert a[..n] == [a[0]] + a[1..][..n - 1];
      assert b[..n] == [b[0]] + b[1..][..n - 1];
      r
  }

  /** What memcmp-then-length decides, in terms of the lexicographic order. */
  lemma MemcmpThenLength(a: seq<Byte>, b: seq<Byte>)
    ensures var c := Memcmp(a, b, Min(|a|, |b|));
            && ((c < 0 || (c == 0 && |a| < |b|)) <==> Less(a, b))
            && ((c == 0 && |a| == |b|) <==> a == b)
            && ((c > 0 || (c == 0 && |a| > |b|)) <==> Less(b, a))
  {
    var m := Min(|a|, |b|);
    var c := Memcmp(a, b, m);
    LessIrreflexive(a);
    if c == 0 && |a| < |b| {
      ProperPrefixLess(a, b);
    } else if c == 0 && |a| > |b| {
      ProperPrefixLess(b, a);
    } else if c == 0 {
      assert a == a[..m] && b == b[..m];
    }
    if Less(a, b) { LessAsymmetric(a, b); }
    if Less(b, a) { LessAsymmetric(b, a); }
  }

  /** BytewiseComparatorImpl::Compare, i.e. Slice::compare. */
  function Compare(a: seq<Byte>, b: seq<Byte>): (r: int)
    ensures r < 0 <==> Less(a, b)
    ensures r == 0 <==> a == b
    ensures r > 0 <==> Less(b, a)
  {
    MemcmpThenLength(a, b);
    var c := Memcmp(a, b, Min(|a|, |b|));
    if c != 0 then c
    else if |a| < |b| then -1
    else if |a| > |b| then 1
    else 0
  }

  /** Swapping the arguments negates the result. */
  lemma CompareAntisymmetric(a: seq<Byte>, b: seq<Byte>)
    ensures Compare(a, b) == -Compare(b, a)
  {
    var r, s := Compare(a, b), Compare(b, a);
    assert -1 <= r <= 1 && -1 <= s <= 1 by {
      var m := Min(|a|, |b|);
      var c := Memcmp(a, b, m);
      var d := Memcmp(b, a, m);
    }
  }

  /** Compare is transitive: a three-way order that chains. */
  lemma CompareTransitive(a: seq<Byte>, b: seq<Byte>, c: seq<Byte>)
    requires Compare(a, b) < 0 && Compare(b, c) < 0
    ensures Compare(a, c) < 0
  {
    LessTransitive(a, b, c);
  }

  // ---------------------------------------------------------------------
  // Common prefix

  /** Length of the longest common prefix of `a` and `b`. */
  function CommonPrefixLength(a: seq<Byte>, b: seq<Byte>): (d: nat)
    ensures d <= |a| && d <= |b|
    ensures a[..d] == b[..d]
    ensures d < |a| && d < |b| ==> a[d] != b[d]
  {
    if |a| == 0 || |b| == 0 || a[0] != b[0] then 0
    else
      var d := 1 + CommonPrefixLength(a[1..], b[1..]);
      assert a[..d] == [a[0]] + a[1..][..d - 1];
      assert b[..d] == [b[0]] + b[1..][..d - 1];
      d
  }

  /** The lexicographic order is decided at the first differing position. */
  lemma LessAtFirstDifference(a: seq<Byte>, b: seq<Byte>)
    ensures var d := CommonPrefixLength(a, b);
            Less(a, b) <==> (d == |a| && d < |b|) || (d < |a| && d < |b| && a[d] < b[d])
  {
    var d := CommonPrefixLength(a, b);
    if d == |a| && d < |b| {
      assert a == b[..d];
      ProperPrefixLess(a, b);
    } else if d < |a| && d < |b| && a[d] < b[d] {
      LessAtDifference(a, b, d);
    } else if Less(a, b) {
      if d == |a| && d == |b| {
        LessIrreflexive(a);
      } else if d == |b| {
        assert b == a[..d];
        ProperPrefixLess(b, a);
        LessAsymmetric(a, b);
      } else {
        LessAtDifference(b, a, d);
        LessAsymmetric(a, b);
      }
    }
  }

  // ---------------------------------------------------------------------
  // FindShortestSeparator

  predicate IsPrefix(a: seq<Byte>, b: seq<Byte>)
  {
    |a| <= |b| && b[..|a|] == a
  }

  /** What FindShortestSeparator leaves in `*start`. */
  function ShortestSeparator(start: seq<Byte>, limit: seq<Byte>): seq<Byte>
  {
    var d := CommonPrefixLength(start, limit);
    if d >= Min(|start|, |limit|) then start
    else if start[d] < 0xff && start[d] + 1 < limit[d] then start[d := start[d] + 1][..d + 1]
    else start
  }

  method FindShortestSeparator(start: seq<Byte>, limit: seq<Byte>) returns (newStart: seq<Byte>)
    ensures newStart == ShortestSeparator(start, limit)
  {
    var minLength := Min(|start|, |limit|);
    var diffIndex := 0;
    while diffIndex < minLength && start[diffIndex] == limit[diffIndex]
      invariant diffIndex <= minLength
      invariant start[..diffIndex] == limit[..diffIndex]
    {
      assert start[..diffIndex + 1] == start[..diffIndex] + [start[diffIndex]];
      assert limit[..diffIndex + 1] == limit[..diffIndex] + [limit[diffIndex]];
      diffIndex := diffIndex + 1;
    }
    assert diffIndex == CommonPrefixLength(start, limit);
    newStart := start;
    if diffIndex >= minLength {
      // Do not shorten if one string is a prefix of the other.
    } else {
      var diffByte := start[diffIndex];
      if diffByte < 0xff && diffByte + 1 < limit[diffIndex] {
        newStart := newStart[diffIndex := diffByte + 1];
        newStart := newStart[..diffIndex + 1];
        SeparatorModified(start, limit);
        assert Compare(newStart, limit) < 0;
      }
    }
  }

  /** When one of the two strings is a prefix of the other, `start` is left unchanged. */
  lemma SeparatorUnchangedOnPrefix(start: seq<Byte>, limit: seq<Byte>)
    requires IsPrefix(start, limit) || IsPrefix(limit, start)
    ensures ShortestSeparator(start, limit) == start
  {
    var d := CommonPrefixLength(start, limit);
  }

  /**
   * When the separator changes `start`, the result is the common prefix
   * followed by the incremented first differing byte, is no longer than
   * `start`, and lies strictly between `start` and `limit`.
   */
  lemma SeparatorModified(start: seq<Byte>, limit: seq<Byte>)
    requires ShortestSeparator(start, limit) != start
    ensures var d := CommonPrefixLength(start, limit);
            var r := ShortestSeparator(start, limit);
            && d < |start| && d < |limit|
            && start[d] < 0xff && start[d] + 1 < limit[d]
            && |r| == d + 1 <= |start|
            && r == start[..d] + [start[d] + 1]
            && Less(start, r) && Less(r, limit)
  {
    var d := CommonPrefixLength(start, limit);
    var r := ShortestSeparator(start, limit);
    assert r == start[..d] + [start[d] + 1];
    assert r[..d] == start[..d];
    LessAtDifference(start, r, d);
    assert r[..d] == limit[..d];
    LessAtDifference(r, limit, d);
  }

  /** If `start` is not below `limit` (in particular if start > limit), it is left unchanged. */
  lemma SeparatorUnchangedUnlessBelow(start: seq<Byte>, limit: seq<Byte>)
    requires !Less(start, limit)
    ensures ShortestSeparator(start, limit) == start
  {
    if ShortestSeparator(start, limit) != start {
      SeparatorModified(start, limit);
      LessAtFirstDifference(start, limit);
      assert false;
    }
  }

  /** If start < limit, the new start lies in [start, limit). */
  lemma SeparatorInRange(start: seq<Byte>, limit: seq<Byte>)
    requires Less(start, limit)
    ensures var r := ShortestSeparator(start, limit);
            LessEq(start, r) && Less(r, limit)
  {
    if ShortestSeparator(start, limit) != start {
      SeparatorModified(start, limit);
    }
  }

  // ---------------------------------------------------------------------
  // FindShortSuccessor

  /** What FindShortSuccessor leaves in `*key`. */
  function ShortSuccessor(key: seq<Byte>): seq<Byte>
  {
    if |key| == 0 then []
    else if key[0] != 0xff then [key[0] + 1]
    else [key[0]] + ShortSuccessor(key[1..])
  }

  predicate AllFF(key: seq<Byte>)
  {
    forall j :: 0 <= j < |key| ==> key[j] == 0xff
  }

  /** The first byte that is not 0xff is incremented and the key is cut just after it. */
  lemma {:induction false} ShortSuccessorAt(key: seq<Byte>, i: nat)
    requires i < |key| && AllFF(key[..i]) && key[i] != 0xff
    ensures ShortSuccessor(key) == key[..i] + [key[i] + 1]
  {
    if i > 0 {
      assert key[0] == key[..i][0];
      assert key[1..][..i - 1] == key[..i][1..];
      ShortSuccessorAt(key[1..], i - 1);
      assert key[..i] == [key[0]] + key[1..][..i - 1];
    }
  }

  /** A key made only of 0xff bytes (the empty key included) is left unchanged. */
  lemma {:induction false} ShortSuccessorAllFF(key: seq<Byte>)
    requires AllFF(key)
    ensures ShortSuccessor(key) == key
  {
    if |key| > 0 {
      assert AllFF(key[1..]) by {
        forall j | 0 <= j < |key| - 1 ensures key[1..][j] == 0xff {
          assert key[1..][j] == key[j + 1];
        }
      }
      ShortSuccessorAllFF(key[1..]);
      assert key == [key[0]] + key[1..];
    }
  }

  /** Any other key gets a strictly greater successor that is no longer than itself. */
  lemma {:induction false} ShortSuccessorGreater(key: seq<Byte>)
    requires !AllFF(key)
    ensures Less(key, ShortSuccessor(key))
    ensures |ShortSuccessor(key)| <= |key|
  {
    if key[0] == 0xff {
      var j :| 0 <= j < |key| && key[j] != 0xff;
      assert key[1..][j - 1] == key[j];
      ShortSuccessorGreater(key[1..]);
    }
  }

  method FindShortSuccessor(key: seq<Byte>) returns (newKey: seq<Byte>)
    ensures newKey == ShortSuccessor(key)
  {
    var n := |key|;
    for i := 0 to n
      invariant AllFF(key[..i])
    {
      var b := key[i];
      if b != 0xff {
        newKey := key[i := b + 1];
        newKey := newKey[..i + 1];
        assert newKey == key[..i] + [b + 1];
        ShortSuccessorAt(key, i);
        return;
      }
      assert key[..i + 1] == key[..i] + [b];
    }
    // The key is a run of 0xff bytes: leave it alone.
    assert key[..n] == key;
    ShortSuccessorAllFF(key);
    newKey := key;
  }

  // ---------------------------------------------------------------------
  // The Comparator contract

  /** Compare's promise: negative, zero or positive exactly when a < b, a == b or a > b. */
  ghost predicate IsThreeWayComparison(cmp: (seq<Byte>, seq<Byte>) -> int)
  {
    forall a, b :: (cmp(a, b) < 0 <==> Less(a, b)) && (cmp(a, b) == 0 <==> a == b) && (cmp(a, b) > 0 <==> Less(b, a))
  }

  /** FindShortestSeparator's promise: if start < limit, the new start lies in [start, limit). */
  ghost predicate MeetsSeparatorContract(f: (seq<Byte>, seq<Byte>) -> seq<Byte>)
  {
    forall start, limit :: Less(start, limit) ==> LessEq(start, f(start, limit)) && Less(f(start, limit), limit)
  }

  /** FindShortSuccessor's promise: the new key is >= the old one. */
  ghost predicate MeetsSuccessorContract(f: seq<Byte> -> seq<Byte>)
  {
    forall key :: LessEq(key, f(key))
  }

  lemma BytewiseCompareIsThreeWay()
    ensures IsThreeWayComparison(Compare)
  {
  }

  lemma BytewiseSeparatorMeetsContract()
    ensures MeetsSeparatorContract(ShortestSeparator)
  {
    forall start, limit | Less(start, limit)
      ensures LessEq(start, ShortestSeparator(start, limit)) && Less(ShortestSeparator(start, limit), limit)
    {
      SeparatorInRange(start, limit);
    }
  }

  lemma BytewiseSuccessorMeetsContract()
    ensures MeetsSuccessorContract(ShortSuccessor)
  {
    forall key ensures LessEq(key, ShortSuccessor(key)) {
      if AllFF(key) {
        ShortSuccessorAllFF(key);
      } else {
        ShortSuccessorGreater(key);
      }
    }
  }

  /** The do-nothing implementation satisfies both shortening contracts. */
  lemma IdentityMeetsContracts()
    ensures MeetsSeparatorContract((start, limit) => start)
    ensures MeetsSuccessorContract(key => key)
  {
  }
}
