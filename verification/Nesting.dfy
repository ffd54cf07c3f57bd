/** Nested address prefixes: which prefixes of a filter list an address starts with, and how a
    node of an address trie keeps their number within a limit. */
module Nesting {
  import opened Power
  import opened Filters
  import opened TrieNode

  /** Nothing changed but addresses on one side, and only those of the filters in l. */
  ghost predicate OnlyAddr(before: seq<Filter>, after: seq<Filter>, l: seq<nat>, side: Side) {
    && |after| == |before|
    && (forall i :: 0 <= i < |after| ==> after[i] == WithAddr(before[i], side, Addr(after[i], side)))
    && (forall i :: 0 <= i < |after| && i !in l ==> after[i] == before[i])
  }

  /** The filters of l have proper prefixes, all below the node of level lev at addr. */
  ghost predicate PlacedBelow(fs: seq<Filter>, l: seq<nat>, side: Side, addr: nat, lev: int) {
    && InRange(fs, l)
    && forall q :: q in l ==> Within(Addr(fs[q], side), Len(fs[q], side), addr, lev)
  }

  /** The prefixes of the filters in l that address x starts with: the prefix nodes on the path
      from the root to x. */
  ghost function Cover(fs: seq<Filter>, l: seq<nat>, side: Side, x: nat): set<(nat, int)>
    requires InRange(fs, l)
  {
    set q | q in l && Covers(Addr(fs[q], side), Len(fs[q], side), x) :: (Addr(fs[q], side), Len(fs[q], side))
  }

  /** No address has more than limit nested prefixes. */
  ghost predicate NestedAtMost(fs: seq<Filter>, l: seq<nat>, side: Side, limit: int)
    requires InRange(fs, l)
  {
    forall x: nat :: |Cover(fs, l, side, x)| <= limit
  }

  ghost predicate AllAt(fs: seq<Filter>, l: seq<nat>, side: Side, lev: int) {
    forall q :: q in l ==> Ends(fs, side, lev, q)
  }

  ghost predicate NoneAt(fs: seq<Filter>, l: seq<nat>, side: Side, lev: int) {
    forall q :: q in l ==> !Ends(fs, side, lev, q)
  }

  /** When a node that has cur prefix nodes above it can take the filters of l: there is room
      for two more, or for one more and the filters agree on whether they end here. */
  ghost predicate Room(fs: seq<Filter>, l: seq<nat>, side: Side, lev: int, cur: int, nest: int) {
    || (l == [] && cur <= nest)
    || cur <= nest - 2
    || (cur == nest - 1 && (AllAt(fs, l, side, lev) || NoneAt(fs, l, side, lev)))
  }

  /** The split at the threshold leaves room in both children. */
  lemma {:induction false} RoomAfterSplit(fs: seq<Filter>, l: seq<nat>, side: Side, lev: int, cur: int, nest: int)
    requires cur <= nest - 1
    ensures Room(fs, Select(l, fs, side, lev), side, lev, cur, nest)
    ensures Room(fs, Reject(l, fs, side, lev), side, lev, cur, nest)
  {
    SelectMembers(l, |l|, fs, side, lev);
  }

  /** Where no split is made, any part of the list finds room. */
  lemma {:induction false} RoomWithoutSplit(fs: seq<Filter>, l: seq<nat>, part: seq<nat>, side: Side, lev: int,
                                            cur: int, nest: int)
    requires cur <= nest - 1 && InRange(fs, l)
    requires forall q :: q in l && q < |fs| ==> lev <= Len(fs[q], side) <= 32
    requires |l| <= 1 || cur < nest - 1 || NoneAt(fs, l, side, lev) || lev == 32
    requires forall q :: q in part ==> q in l
    ensures Room(fs, part, side, lev, cur, nest)
  {
    if cur == nest - 1 && !NoneAt(fs, l, side, lev) {
      assert AllAt(fs, l, side, lev);
    }
  }

  lemma {:induction false} NothingAdded(fs: seq<Filter>, side: Side, addr: nat, lev: int)
    ensures OnlyAddr(fs, fs, [], side) && PlacedBelow(fs, [], side, addr, lev)
  {
  }

  // ---------- facts about covers ----------

  lemma {:induction false} CoverSame(fs: seq<Filter>, fs': seq<Filter>, l: seq<nat>, side: Side, x: nat)
    requires InRange(fs, l) && InRange(fs', l) && forall q :: q in l ==> fs'[q] == fs[q]
    ensures Cover(fs', l, side, x) == Cover(fs, l, side, x)
  {
  }

  lemma {:induction false} CoverOfNone(fs: seq<Filter>, side: Side)
    ensures forall x: nat :: Cover(fs, [], side, x) == {}
  {
  }

  lemma {:induction false} CoverOutside(fs: seq<Filter>, l: seq<nat>, side: Side, addr: nat, lev: int, x: nat)
    requires PlacedBelow(fs, l, side, addr, lev) && !Covers(addr, lev, x)
    ensures Cover(fs, l, side, x) == {}
  {
  }

  lemma {:induction false} CardUnion<T>(a: set<T>, b: set<T>)
    ensures |a + b| <= |a| + |b|
  {
    assert a + b == a + (b - a);
    assert |b - a| <= |b|;
  }

  lemma {:induction false} CardSubset<T>(a: set<T>, b: set<T>)
    requires a <= b
    ensures |a| <= |b|
  {
    assert b == a + (b - a);
  }

  /** An address meets the prefixes of one child only. */
  lemma {:induction false} CoverOfParts(fs: seq<Filter>, l: seq<nat>, la: seq<nat>, lb: seq<nat>, side: Side, lev: int,
                                        aa: nat, ab: nat, x: nat)
    requires InRange(fs, l) && forall q :: q in l <==> q in la || q in lb
    requires PlacedBelow(fs, la, side, aa, lev) && PlacedBelow(fs, lb, side, ab, lev)
    requires aa + Span(lev) <= ab || ab + Span(lev) <= aa
    ensures Cover(fs, l, side, x) == Cover(fs, la, side, x) || Cover(fs, l, side, x) == Cover(fs, lb, side, x)
  {
    if Covers(aa, lev, x) {
      CoverOutside(fs, lb, side, ab, lev, x);
    } else {
      CoverOutside(fs, la, side, aa, lev, x);
    }
    assert Cover(fs, l, side, x) == Cover(fs, la, side, x) + Cover(fs, lb, side, x);
  }

  /** Two children that keep the limit one after the other keep it together. */
  lemma {:induction false} ChildrenNesting(fs1: seq<Filter>, fs2: seq<Filter>, l: seq<nat>, la: seq<nat>, lb: seq<nat>,
                                           side: Side, lev: int, aa: nat, ab: nat, cur: int, nest: int)
    requires InRange(fs2, l) && Parts(l, la, lb)
    requires PlacedBelow(fs2, la, side, aa, lev) && PlacedBelow(fs2, lb, side, ab, lev)
    requires aa + Span(lev) <= ab || ab + Span(lev) <= aa
    requires InRange(fs1, la) && forall q :: q in la && q < |fs2| && q < |fs1| ==> fs2[q] == fs1[q]
    requires forall x: nat :: cur + |Cover(fs1, la, side, x)| <= nest
    requires forall x: nat :: cur + |Cover(fs2, lb, side, x)| <= nest
    ensures forall x: nat :: cur + |Cover(fs2, l, side, x)| <= nest
  {
    forall x: nat
      ensures cur + |Cover(fs2, l, side, x)| <= nest
    {
      CoverSame(fs1, fs2, la, side, x);
      CoverOfParts(fs2, l, la, lb, side, lev, aa, ab, x);
    }
  }

  /** A node adds its own prefix to those below it. */
  lemma {:induction false} CoverOfNode(fs: seq<Filter>, l: seq<nat>, here: seq<nat>, rest: seq<nat>, side: Side,
                                       addr: nat, lev: int, x: nat)
    requires InRange(fs, l) && InRange(fs, rest) && forall q :: q in l <==> q in here || q in rest
    requires forall q :: q in here ==> q < |fs| && Addr(fs[q], side) == addr && Len(fs[q], side) == lev
    ensures |Cover(fs, l, side, x)| <= (if here == [] then 0 else 1) + |Cover(fs, rest, side, x)|
  {
    var own := if here == [] then {} else {(addr, lev)};
    assert Cover(fs, l, side, x) <= own + Cover(fs, rest, side, x);
    CardSubset(Cover(fs, l, side, x), own + Cover(fs, rest, side, x));
    CardUnion(own, Cover(fs, rest, side, x));
  }

  /** A node that has room for its list keeps the limit if its children do. */
  lemma {:induction false} NodeNesting(fs: seq<Filter>, fs2: seq<Filter>, l: seq<nat>, here: seq<nat>, rest: seq<nat>,
                                       side: Side, lev: nat, addr: nat, cur: int, nest: int)
    requires InRange(fs2, l) && InRange(fs2, rest) && forall q :: q in l <==> q in here || q in rest
    requires forall q :: q in here ==> q < |fs2| && Addr(fs2[q], side) == addr && Len(fs2[q], side) == lev
    requires AllAt(fs, l, side, lev) ==> rest == []
    requires NoneAt(fs, l, side, lev) ==> here == []
    requires var my := if here != [] then cur + 1 else cur;
             rest != [] && my <= nest - 1 ==> forall x: nat :: my + |Cover(fs2, rest, side, x)| <= nest
    ensures Room(fs, l, side, lev, cur, nest) ==> forall x: nat :: cur + |Cover(fs2, l, side, x)| <= nest
  {
    if Room(fs, l, side, lev, cur, nest) {
      forall x: nat
        ensures cur + |Cover(fs2, l, side, x)| <= nest
      {
        FirstIn(here);
        FirstIn(rest);
        CoverOfNode(fs2, l, here, rest, side, addr, lev, x);
        if rest == [] {
          assert Cover(fs2, rest, side, x) == {};
        }
      }
    }
  }

  lemma {:induction false} FirstIn(l: seq<nat>)
    ensures l != [] ==> l[0] in l
  {
  }

  lemma {:induction false} InRangeOf(fs: seq<Filter>, l: seq<nat>, part: seq<nat>)
    requires InRange(fs, l) && forall q :: q in part ==> q in l
    ensures InRange(fs, part)
  {
    forall j | 0 <= j < |part|
      ensures part[j] < |fs|
    {
      assert part[j] in part;
    }
  }

  /** What the two flags of the loop say. */
  lemma {:induction false} FlagsAfterTaking(fs: seq<Filter>, fs1: seq<Filter>, l: seq<nat>, side: Side, lev: nat,
                                            addr: nat)
    requires NoDup(l) && InRange(fs, l) && fs1 == Assigned(fs, l, |l|, side, lev, addr)
    ensures var here, rest := Select(l, fs, side, lev), Reject(l, fs, side, lev);
            && (Select(l, fs, side, lev + 1) != [] <==> !NoneAt(fs1, rest, side, lev + 1))
            && (AllAt(fs, l, side, lev) ==> rest == [])
            && (NoneAt(fs, l, side, lev) ==> here == [])
  {
    SelectMembers(l, |l|, fs, side, lev);
    SelectMembers(l, |l|, fs, side, lev + 1);
    AssignedIs(fs, l, |l|, side, lev, addr);
    assert l[..|l|] == l;
    FirstIn(Select(l, fs, side, lev));
    FirstIn(Reject(l, fs, side, lev));
    FirstIn(Select(l, fs, side, lev + 1));
  }

  // ---------- limits that cannot be kept, and limits that are always kept ----------

  /** The condition on a filter list and a limit under which some trie keeps the limit. */
  ghost predicate LimitFits(fs: seq<Filter>, l: seq<nat>, side: Side, nest: int) {
    || nest >= 2
    || (nest >= 0 && l == [])
    || (nest == 1 && (AllAt(fs, l, side, 0) || NoneAt(fs, l, side, 0)))
  }

  /** Without the condition proper prefixes break the limit wherever they are. */
  lemma {:induction false} LimitMustFit(fs: seq<Filter>, l: seq<nat>, side: Side, nest: int)
    requires PlacedBelow(fs, l, side, 0, 0) && !LimitFits(fs, l, side, nest)
    ensures !NestedAtMost(fs, l, side, nest)
  {
    hide IsPrefix, Cover;
    if l == [] {
      assert |Cover(fs, l, side, 0)| > nest;
    } else if nest <= 0 {
      assert l[0] in l;
      CoversItself(fs, l, side, l[0]);
    } else {
      var p :| p in l && Ends(fs, side, 0, p);
      var q :| q in l && !Ends(fs, side, 0, q);
      CoveredTwice(fs, l, side, p, q);
    }
  }

  lemma {:induction false} CoversItself(fs: seq<Filter>, l: seq<nat>, side: Side, q: nat)
    requires InRange(fs, l) && q in l && q < |fs|
    ensures |Cover(fs, l, side, Addr(fs[q], side))| >= 1
  {
    var x := Addr(fs[q], side);
    assert (x, Len(fs[q], side)) in Cover(fs, l, side, x);
  }

  lemma {:induction false} CoveredTwice(fs: seq<Filter>, l: seq<nat>, side: Side, p: nat, q: nat)
    requires PlacedBelow(fs, l, side, 0, 0) && p in l && q in l && Ends(fs, side, 0, p) && !Ends(fs, side, 0, q)
    ensures |Cover(fs, l, side, Addr(fs[q], side))| >= 2
  {
    hide IsPrefix;
    var x := Addr(fs[q], side);
    var pair := {(Addr(fs[p], side), 0), (x, Len(fs[q], side))};
    assert Covers(Addr(fs[p], side), 0, x);
    assert pair <= Cover(fs, l, side, x);
    CardSubset(pair, Cover(fs, l, side, x));
    assert |pair| == 2;
  }

  /** Where the limit is kept given room, the condition decides whether it is kept; it can be read
      off before the addresses are generated. */
  lemma {:induction false} LimitDecides(fs: seq<Filter>, fs': seq<Filter>, l: seq<nat>, side: Side, nest: int)
    requires InRange(fs, l) && OnlyAddr(fs, fs', l, side) && PlacedBelow(fs', l, side, 0, 0)
    requires Room(fs, l, side, 0, 0, nest) ==> forall x: nat :: |Cover(fs', l, side, x)| <= nest
    ensures NestedAtMost(fs', l, side, nest) <==> LimitFits(fs, l, side, nest)
  {
    hide Cover, IsPrefix;
    if LimitFits(fs, l, side, nest) {
      LimitGivesRoom(fs, l, side, nest);
    } else {
      assert LimitFits(fs', l, side, nest) ==> LimitFits(fs, l, side, nest);
      LimitMustFit(fs', l, side, nest);
    }
  }

  lemma {:induction false} LimitGivesRoom(fs: seq<Filter>, l: seq<nat>, side: Side, nest: int)
    requires InRange(fs, l) && LimitFits(fs, l, side, nest)
    ensures Room(fs, l, side, 0, 0, nest)
  {
  }

  /** The prefix lengths of the filters in l. */
  ghost function Lengths(fs: seq<Filter>, l: seq<nat>, side: Side): set<int>
    requires InRange(fs, l)
  {
    set q | q in l :: Len(fs[q], side)
  }

  /** Of each length an address starts with one prefix only, so it is never below more prefixes
      than there are lengths. */
  lemma {:induction false} CoverByLengths(fs: seq<Filter>, l: seq<nat>, side: Side, x: nat)
    requires PlacedBelow(fs, l, side, 0, 0)
    ensures |Cover(fs, l, side, x)| <= |Lengths(fs, l, side)|
  {
    var c := Cover(fs, l, side, x);
    forall a, b | a in c && b in c && a.1 == b.1
      ensures a == b
    {
      SamePrefix(a.0, b.0, a.1, x);
    }
    CardByLength(c, Lengths(fs, l, side));
  }

  lemma {:induction false} SamePrefix(p: nat, q: nat, len: int, x: nat)
    requires IsPrefix(p, len) && IsPrefix(q, len) && Covers(p, len, x) && Covers(q, len, x)
    ensures p == q
  {
    AddressCount();
    SpanFits(p, 32 - len, 32);
    AlignedUnique(p, x, 32 - len);
    AlignedUnique(q, x, 32 - len);
  }

  /** Pairs with different second components, all of them in d. */
  lemma {:induction false} CardByLength(c: set<(nat, int)>, d: set<int>)
    requires forall a, b :: a in c && b in c && a.1 == b.1 ==> a == b
    requires forall a :: a in c ==> a.1 in d
    ensures |c| <= |d|
  {
    if c != {} {
      var a :| a in c;
      CardByLength(c - {a}, d - {a.1});
    }
  }

  lemma {:induction false} Pick<T>(d: set<T>) returns (k: T)
    requires d != {}
    ensures k in d
  {
    k :| k in d;
  }

  /** Prefixes of every length in d, all at the same address. */
  lemma {:induction false} CardOfLengths(c: set<(nat, int)>, d: set<int>, addr: nat)
    requires forall k :: k in d ==> (addr, k) in c
    ensures |d| <= |c|
  {
    if d != {} {
      var k := Pick(d);
      CardOfLengths(c - {(addr, k)}, d - {k}, addr);
    }
  }

  // ---------- the skew of a node ----------

  /** The share h of the heavy child is the weight divided by d, rounded down; d is 2 less the skew. */
  predicate HeavyShare(weight: nat, d: real, h: int) { h as real * d <= weight as real < (h as real + 1.0) * d }

  lemma {:induction false} FloorIsShare(weight: nat, d: real)
    requires d > 0.0
    ensures HeavyShare(weight, d, (weight as real / d).Floor)
  {
    var w := weight as real;
    var q := w / d;
    QuotientTimes(w, d);
    RealShare(w, d, q, q.Floor as real);
  }

  lemma {:induction false} RealShare(w: real, d: real, q: real, x: real)
    requires d > 0.0 && q * d == w && x <= q < x + 1.0
    ensures x * d <= w && w < (x + 1.0) * d
  {
    var y := x + 1.0;
    Scaled(x, q, d);
    StrictlyScaled(q, y, d);
    assert w < y * d;
  }

  lemma {:induction false} QuotientTimes(x: real, d: real)
    requires d > 0.0
    ensures x / d * d == x
  {
  }

  lemma {:induction false} Scaled(a: real, b: real, d: real)
    requires a <= b && d >= 0.0
    ensures a * d <= b * d
  {
  }

  lemma {:induction false} StrictlyScaled(a: real, b: real, d: real)
    requires a < b && d > 0.0
    ensures a * d < b * d
  {
  }
}
