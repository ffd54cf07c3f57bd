/** Comparison of numbers by matching prefixes (crypto/gfe.hh). */
module Gfe {
  import opened Power
  import opened Bits

  /** The length that was cut off and the prefix; -1 for a hole. */
  type Prefix = (int, nat)

  predicate BitSet(v: nat, i: nat) { Shr(v, i) % 2 == 1 }

  /** The prefixes of v, the longest first. */
  function CoverPrefix(v: nat, i: nat): Prefix { (i, Shr(v, i)) }

  /** The prefixes of the numbers to the right of v that part from v in bit i: a hole where v has
      that bit itself. */
  function RightPrefix(v: nat, i: nat): Prefix {
    if BitSet(v, i) then (-1, 0) else (i, BitOr(Shr(v, i), 1))
  }

  /** cover_prefixes. */
  method CoverPrefixes(v: nat, k: nat) returns (r: seq<Prefix>)
    ensures |r| == k && forall i :: 0 <= i < k ==> r[i] == CoverPrefix(v, i)
  {
    r := [];
    for i := 0 to k
      invariant |r| == i && forall j :: 0 <= j < i ==> r[j] == CoverPrefix(v, j)
    {
      r := r + [(i, Shr(v, i))];
    }
  }

  /** right_prefixes. */
  method RightPrefixes(v: nat, k: nat) returns (r: seq<Prefix>)
    ensures |r| == k && forall i :: 0 <= i < k ==> r[i] == RightPrefix(v, i)
  {
    r := [];
    for i := 0 to k
      invariant |r| == i && forall j :: 0 <= j < i ==> r[j] == RightPrefix(v, j)
    {
      if BitSet(v, i) {
        r := r + [(-1, 0)];
      } else {
        r := r + [(i, BitOr(Shr(v, i), 1))];
      }
    }
  }

  /** The highest bit in which two numbers differ. */
  function TopDifference(x: nat, y: nat): nat
    decreases x + y
  {
    if x / 2 == y / 2 then 0 else 1 + TopDifference(x / 2, y / 2)
  }

  predicate Matches(x: nat, y: nat, i: nat) { CoverPrefix(y, i) == RightPrefix(x, i) }

  lemma {:induction false} EvenOrOne(x: nat)
    requires x % 2 == 0
    ensures BitOr(x, 1) == x + 1
  {
    assert BitOr(x / 2, 0) == x / 2;
  }

  lemma {:induction false} MatchesAtZero(x: nat, y: nat)
    ensures Matches(x, y, 0) <==> x % 2 == 0 && y == x + 1
  {
    if x % 2 == 0 { EvenOrOne(x); }
  }

  lemma {:induction false} MatchesAbove(x: nat, y: nat, i: nat)
    requires i > 0
    ensures Matches(x, y, i) <==> Matches(x / 2, y / 2, i - 1)
  {
  }

  /** The cover prefixes of y match the right prefixes of x in the highest bit in which they
      differ if x is below y, and nowhere else. */
  lemma {:induction false} OneMatchIffBelow(x: nat, y: nat, i: nat)
    ensures Matches(x, y, i) <==> x < y && i == TopDifference(x, y)
    decreases i
  {
    hide Matches;
    if i == 0 {
      MatchesAtZero(x, y);
    } else {
      MatchesAbove(x, y, i);
      OneMatchIffBelow(x / 2, y / 2, i - 1);
    }
  }

  lemma {:induction false} TopDifferenceFits(x: nat, y: nat, k: nat)
    requires x != y && x < Pow2(k) && y < Pow2(k)
    ensures TopDifference(x, y) < k
    decreases k
  {
    if x / 2 != y / 2 { TopDifferenceFits(x / 2, y / 2, k - 1); }
  }

  function MatchesBelow(x: nat, y: nat, k: nat): nat {
    if k == 0 then 0 else MatchesBelow(x, y, k - 1) + (if Matches(x, y, k - 1) then 1 else 0)
  }

  /** How many positions of the two lists match: one if x is below y, and none otherwise. */
  lemma {:induction false} MatchCount(x: nat, y: nat, k: nat)
    requires x < Pow2(k) && y < Pow2(k)
    ensures MatchesBelow(x, y, k) == if x < y then 1 else 0
  {
    if x < y { TopDifferenceFits(x, y, k); }
    CountTo(x, y, k);
  }

  lemma {:induction false} CountTo(x: nat, y: nat, j: nat)
    ensures MatchesBelow(x, y, j) == if x < y && TopDifference(x, y) < j then 1 else 0
  {
    hide Matches, TopDifference;
    if j > 0 {
      CountTo(x, y, j - 1);
      OneMatchIffBelow(x, y, j - 1);
    }
  }
}
