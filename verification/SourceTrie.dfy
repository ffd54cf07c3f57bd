/** sbintree (db_generator/sbintree.cc): generates source addresses for given prefix lengths by
    growing a binary trie, under a limit on the nesting of prefixes. */
module SourceTrie {
  import opened Filters
  import opened TrieNode
  import opened Nesting

  // ---------- one node of the trie ----------

  /** Where the loop over the list at a node leaves the filters. */
  lemma {:induction false} AfterTaking(fs: seq<Filter>, fs1: seq<Filter>, l: seq<nat>, lev: nat, addr: nat)
    requires NoDup(l) && InRange(fs, l) && fs1 == Assigned(fs, l, |l|, Source, lev, addr)
    requires forall q :: q in l && q < |fs| ==> lev <= fs[q].saLen <= 32
    ensures var here, rest := Select(l, fs, Source, lev), Reject(l, fs, Source, lev);
            && Parts(l, here, rest) && InRange(fs1, rest)
            && OnlyAddr(fs, fs1, here, Source)
            && (forall q :: q in here ==> q < |fs1| && fs1[q].sa == addr && fs1[q].saLen == lev)
            && (forall q :: q in rest && q < |fs1| ==> lev < fs1[q].saLen <= 32)
  {
    SelectParts(l, fs, Source, lev);
    SelectMembers(l, |l|, fs, Source, lev);
    AssignedIs(fs, l, |l|, Source, lev, addr);
    assert l[..|l|] == l;
    InRangeOf(fs, l, Reject(l, fs, Source, lev));
  }

  lemma {:induction false} NodeResult(fs: seq<Filter>, fs1: seq<Filter>, fs2: seq<Filter>, l: seq<nat>, here: seq<nat>,
                                      rest: seq<nat>, lev: nat, addr: nat)
    requires InRange(fs, l) && Parts(l, here, rest) && IsPrefix(addr, lev)
    requires OnlyAddr(fs, fs1, here, Source) && OnlyAddr(fs1, fs2, rest, Source)
    requires forall q :: q in here ==> q < |fs1| && fs1[q].sa == addr && fs1[q].saLen == lev
    requires PlacedBelow(fs2, rest, Source, addr, lev)
    ensures OnlyAddr(fs, fs2, l, Source) && PlacedBelow(fs2, l, Source, addr, lev)
    ensures forall q :: q in here ==> q < |fs2| && fs2[q].sa == addr && fs2[q].saLen == lev
  {
  }

  lemma {:induction false} LogOfParts(log: seq<nat>, log2: seq<nat>, l: seq<nat>, here: seq<nat>, rest: seq<nat>)
    requires Parts(l, here, rest) && multiset(log2) == multiset(log + here) + multiset(rest)
    ensures multiset(log2) == multiset(log) + multiset(l)
  {
  }

  // ---------- the two children ----------

  lemma {:induction false} PartsInRange(fs: seq<Filter>, l: seq<nat>, first: seq<nat>, second: seq<nat>)
    requires InRange(fs, l) && Parts(l, first, second)
    ensures InRange(fs, first) && InRange(fs, second) && NoDup(first) && NoDup(second)
    ensures forall q :: q in first ==> q in l && q !in second
    ensures forall q :: q in second ==> q in l
    ensures multiset(l) == multiset(first) + multiset(second)
  {
    InRangeOf(fs, l, first);
    InRangeOf(fs, l, second);
  }

  lemma {:induction false} SecondUntouched(fs: seq<Filter>, fs1: seq<Filter>, first: seq<nat>, second: seq<nat>,
                                           lev: nat, cur: int, nest: int)
    requires InRange(fs, second) && OnlyAddr(fs, fs1, first, Source) && forall q :: q in first ==> q !in second
    ensures InRange(fs1, second) && forall q :: q in second && q < |fs| ==> fs1[q] == fs[q]
    ensures Room(fs, second, Source, lev, cur, nest) ==> Room(fs1, second, Source, lev, cur, nest)
  {
  }

  lemma {:induction false} ChildrenResult(fs: seq<Filter>, fs1: seq<Filter>, fs2: seq<Filter>, l: seq<nat>,
                                          first: seq<nat>, second: seq<nat>, lev: nat, addr: nat, aa: nat, ab: nat)
    requires InRange(fs, l) && Parts(l, first, second) && lev < 32 && Span(lev) == 2 * Span(lev + 1)
    requires OnlyAddr(fs, fs1, first, Source) && OnlyAddr(fs1, fs2, second, Source)
    requires PlacedBelow(fs1, first, Source, aa, lev + 1) && PlacedBelow(fs2, second, Source, ab, lev + 1)
    requires addr <= aa <= addr + Span(lev + 1) && addr <= ab <= addr + Span(lev + 1)
    ensures OnlyAddr(fs, fs2, l, Source) && PlacedBelow(fs2, l, Source, addr, lev)
    ensures PlacedBelow(fs2, first, Source, aa, lev + 1)
    ensures InRange(fs1, first) && InRange(fs2, l) && forall q :: q in first && q < |fs2| && q < |fs1| ==>
            fs2[q] == fs1[q]
  {
  }

  /** Whether the list is long and deep enough to endanger the limit. */
  predicate AtThreshold(nest: int, lev: nat, size: nat, myNest: int, below: bool) {
    size > 1 && myNest >= nest - 1 && below && lev < 31
  }

  /** The filters that end at the next level, and the others. */
  predicate SharedByEnd(fs: seq<Filter>, l: seq<nat>, first: seq<nat>, second: seq<nat>, lev1: nat) {
    first == Select(l, fs, Source, lev1) && second == Reject(l, fs, Source, lev1)
  }

  /** One child gets all filters, or, where there are several, the first ones go to the light child and
      the heavy one gets its share. */
  predicate SharedFreely(l: seq<nat>, first: seq<nat>, second: seq<nat>, two: bool, d: real) {
    if !two then first == l && second == []
    else |l| > 1 && ((l == first + second && HeavyShare(|l|, d, |second|))
                     || (l == second + first && HeavyShare(|l|, d, |first|)))
  }

  class SBinTree {
    /** Maximum allowed nesting. */
    var nest: int
    /** Target skew for each level. */
    var skew: seq<real>
    /** The filters whose source address was written, in order. */
    ghost var written: seq<nat>

    ghost predicate Valid()
      reads this
    {
      |skew| == 33 && forall i :: 0 <= i < 33 ==> 0.0 <= skew[i] <= 1.0
    }

    constructor (nest: int, skew: seq<real>)
      requires |skew| == 33 && forall i :: 0 <= i < 33 ==> 0.0 <= skew[i] <= 1.0
      ensures Valid() && this.nest == nest && this.skew == skew && written == []
    {
      this.nest, this.skew, written := nest, skew, [];
    }

    /** At the nesting threshold: filters that end at the next level go to one child. */
    method SplitByEnd(filters: array<Filter>, lev1: nat, l: seq<nat>) returns (nestList: seq<nat>, otherList: seq<nat>)
      requires InRange(filters[..], l)
      ensures nestList == Select(l, filters[..], Source, lev1) && otherList == Reject(l, filters[..], Source, lev1)
    {
      ghost var fs := filters[..];
      nestList, otherList := [], [];
      var list := l;
      for i := 0 to |l|
        invariant list == l[i..]
        invariant nestList == SelectTo(l, i, fs, Source, lev1) && otherList == RejectTo(l, i, fs, Source, lev1)
      {
        var fptr := list[0];
        if filters[fptr].saLen == lev1 {
          nestList := nestList + [fptr];
        } else {
          otherList := otherList + [fptr];
        }
        list := list[1..];
      }
    }

    /** Otherwise with two children: the first filters, as many as the skew leaves, go to the
        light child. */
    method SplitBySkew(lev: nat, l: seq<nat>) returns (hvyList: seq<nat>, liteList: seq<nat>)
      requires Valid() && lev < 33
      ensures l == liteList + hvyList
      ensures |liteList| <= |hvyList| + 1
      ensures HeavyShare(|l|, 2.0 - skew[lev], |hvyList|)
    {
      var hvy := (|l| as real / (2.0 - skew[lev])).Floor;
      SkewBounds(|l|, skew[lev]);
      FloorIsShare(|l|, 2.0 - skew[lev]);
      hide HeavyShare;
      var lite := |l| - hvy;
      hvyList, liteList := l, [];
      for i := 0 to lite
        invariant i <= |l|
        invariant liteList == l[..i] && hvyList == l[i..]
      {
        liteList := liteList + [hvyList[0]];
        hvyList := hvyList[1..];
      }
    }

    /** How a node's remaining filters are shared out. The first list is handed on first, to
        child 1 if firstOne holds and else to child 0; the second one, if two holds, to the other child. */
    method Divide(filters: array<Filter>, lev: nat, l: seq<nat>, myNest: int, below: bool)
      returns (first: seq<nat>, second: seq<nat>, firstOne: bool, two: bool)
      requires Valid() && lev < 32 && l != [] && NoDup(l) && InRange(filters[..], l)
      requires forall q :: q in l && q < filters.Length ==> lev < filters[q].saLen <= 32
      requires below <==> !NoneAt(filters[..], l, Source, lev + 1)
      ensures Parts(l, first, second) && (!two ==> second == [])
      ensures if AtThreshold(nest, lev, |l|, myNest, below) then
                two && SharedByEnd(filters[..], l, first, second, lev + 1)
              else SharedFreely(l, first, second, two, 2.0 - skew[lev])
      ensures myNest <= nest - 1 ==>
                Room(filters[..], first, Source, lev + 1, myNest, nest)
                    && Room(filters[..], second, Source, lev + 1, myNest, nest)
    {
      var path1: bool := *;
      hide SharedFreely;
      if |l| > 1 && myNest >= nest - 1 && below && lev < 31 {
        first, second := SplitByEnd(filters, lev + 1, l);
        SelectParts(l, filters[..], Source, lev + 1);
        two := true;
        firstOne := if |first| > |second| then path1 else !path1;
        if myNest <= nest - 1 {
          RoomAfterSplit(filters[..], l, Source, lev + 1, myNest, nest);
        }
      } else {
        first, second, firstOne, two := DivideFreely(lev, l, path1);
        if myNest <= nest - 1 {
          RoomWithoutSplit(filters[..], l, first, Source, lev + 1, myNest, nest);
          RoomWithoutSplit(filters[..], l, second, Source, lev + 1, myNest, nest);
        }
      }
    }

    /** Branching probability and skew: one child or two. */
    method DivideFreely(lev: nat, l: seq<nat>, path1: bool)
      returns (first: seq<nat>, second: seq<nat>, firstOne: bool, two: bool)
      requires Valid() && lev < 32 && l != [] && NoDup(l)
      ensures Parts(l, first, second) && (!two ==> second == [])
      ensures SharedFreely(l, first, second, two, 2.0 - skew[lev])
    {
      var single: bool := *;
      if single || |l| == 1 {
        first, second, two, firstOne := l, [], false, path1;
      } else {
        var hvy, lite := SplitBySkew(lev, l);
        SliceParts(l, |lite|);
        assert l[..|lite|] == lite && l[|lite|..] == hvy;
        two, firstOne := true, false;
        if path1 { first, second := lite, hvy; } else { first, second := hvy, lite; }
      }
    }

    /** The first half of add_node: assign this node's address and count its nesting. */
    method EnterNode(filters: array<Filter>, lev: nat, addr: nat, l: seq<nat>, currNest: int)
      returns (rest: seq<nat>, myNest: int, below: bool, ghost here: seq<nat>)
      requires NoDup(l) && InRange(filters[..], l)
      requires forall q :: q in l && q < filters.Length ==> lev <= filters[q].saLen <= 32
      modifies filters, this`written
      ensures Parts(l, here, rest) && InRange(filters[..], rest)
      ensures OnlyAddr(old(filters[..]), filters[..], here, Source)
      ensures forall q :: q in here ==> q < filters.Length && filters[..][q].sa == addr && filters[..][q].saLen == lev
      ensures forall q :: q in rest && q < filters.Length ==> lev < filters[q].saLen <= 32
      ensures AllAt(old(filters[..]), l, Source, lev) ==> rest == []
      ensures NoneAt(old(filters[..]), l, Source, lev) ==> here == []
      ensures myNest == if here != [] then currNest + 1 else currNest
      ensures below <==> !NoneAt(filters[..], rest, Source, lev + 1)
      ensures written == old(written) + here
    {
      ghost var fs := filters[..];
      var nestFlag;
      rest, nestFlag, below, written := TakeHere(filters, l, Source, lev, addr, written);
      here := Select(l, fs, Source, lev);
      AfterTaking(fs, filters[..], l, lev, addr);
      FlagsAfterTaking(fs, filters[..], l, Source, lev, addr);
      myNest := if nestFlag then currNest + 1 else currNest;
    }

    /** add_node: the filters of l that end at this node get its address, the others go on to
        the children. */
    method AddNode(filters: array<Filter>, lev: nat, addr: nat, l: seq<nat>, currNest: int)
      requires Valid() && NoDup(l) && InRange(filters[..], l)
      requires lev <= 32 && IsPrefix(addr, lev)
      requires forall q :: q in l && q < filters.Length ==> lev <= filters[q].saLen <= 32
      modifies filters, this`written
      ensures OnlyAddr(old(filters[..]), filters[..], l, Source)
      ensures PlacedBelow(filters[..], l, Source, addr, lev)
      ensures multiset(written) == multiset(old(written)) + multiset(l)
      ensures Room(old(filters[..]), l, Source, lev, currNest, nest) ==>
                forall x: nat :: currNest + |Cover(filters[..], l, Source, x)| <= nest
      decreases 33 - lev, 1
    {
      ghost var fs := filters[..];
      var rest, myNest, below;
      ghost var here;
      rest, myNest, below, here := EnterNode(filters, lev, addr, l, currNest);
      ghost var fs1 := filters[..];
      if rest != [] {
        AddChildren(filters, lev, addr, rest, myNest, below);
      }
      NodeResult(fs, fs1, filters[..], l, here, rest, lev, addr);
      NodeNesting(fs, filters[..], l, here, rest, Source, lev, addr, currNest, nest);
      LogOfParts(old(written), written, l, here, rest);
    }

    /** The second half of add_node, for a list that is not empty. */
    method AddChildren(filters: array<Filter>, lev: nat, addr: nat, l: seq<nat>, myNest: int, below: bool)
      requires Valid() && NoDup(l) && InRange(filters[..], l) && l != []
      requires lev < 32 && IsPrefix(addr, lev)
      requires forall q :: q in l && q < filters.Length ==> lev < filters[q].saLen <= 32
      requires below <==> !NoneAt(filters[..], l, Source, lev + 1)
      modifies filters, this`written
      ensures OnlyAddr(old(filters[..]), filters[..], l, Source)
      ensures PlacedBelow(filters[..], l, Source, addr, lev)
      ensures multiset(written) == multiset(old(written)) + multiset(l)
      ensures myNest <= nest - 1 ==> forall x: nat :: myNest + |Cover(filters[..], l, Source, x)| <= nest
      decreases 33 - lev, 0
    {
      hide Cover, NoneAt, IsPrefix, Parts, NoDup, Room, OnlyAddr, PlacedBelow, SharedByEnd, SharedFreely, AtThreshold;
      hide InRange, Covers, Addr0, Addr1, Span;
      ChildAddresses(addr, lev);
      var addr0, addr1 := Addr0(addr, lev), Addr1(addr, lev);
      var first, second, firstOne, two := Divide(filters, lev, l, myNest, below);
      var aa, ab := if firstOne then addr1 else addr0, if firstOne then addr0 else addr1;
      ghost var fs := filters[..];
      PartsInRange(fs, l, first, second);
      AddNode(filters, lev + 1, aa, first, myNest);
      ghost var fs1 := filters[..];
      SecondUntouched(fs, fs1, first, second, lev + 1, myNest, nest);
      if two {
        AddNode(filters, lev + 1, ab, second, myNest);
      } else {
        CoverOfNone(fs1, Source);
        NothingAdded(fs1, Source, ab, lev + 1);
      }
      ChildrenResult(fs, fs1, filters[..], l, first, second, lev, addr, aa, ab);
      if myNest <= nest - 1 {
        ChildrenNesting(fs1, filters[..], l, first, second, Source, lev + 1, aa, ab, myNest, nest);
      }
    }

    /** build_tree. Every filter of the list gets exactly one source address, a prefix of the
        filter's own length; the nesting limit is kept exactly when LimitFits holds of the list
        and the limit, whatever the branching choices. */
    method BuildTree(flist: seq<nat>, filters: array<Filter>)
      requires Valid() && NoDup(flist) && InRange(filters[..], flist)
      requires forall q :: q in flist && q < filters.Length ==> 0 <= filters[q].saLen <= 32
      modifies filters, this`written
      ensures OnlyAddr(old(filters[..]), filters[..], flist, Source)
      ensures forall q :: q in flist ==> q < filters.Length && IsPrefix(filters[q].sa, filters[q].saLen)
      ensures multiset(written) == multiset(old(written)) + multiset(flist)
      ensures InRange(filters[..], flist)
      ensures NestedAtMost(filters[..], flist, Source, nest) <==> LimitFits(old(filters[..]), flist, Source, nest)
    {
      var tempList := [];
      for i := 0 to |flist|
        invariant tempList == flist[..i]
      {
        tempList := tempList + [flist[i]];
      }
      assert flist[..|flist|] == flist;
      ZeroLow(32);
      AddNode(filters, 0, 0, tempList, 0);
      LimitDecides(old(filters[..]), filters[..], flist, Source, nest);
    }
  }

  lemma {:induction false} SkewBounds(size: nat, skew: real)
    requires 0.0 <= skew <= 1.0
    ensures size <= 2 * (size as real / (2.0 - skew)).Floor + 1
    ensures (size as real / (2.0 - skew)).Floor <= size
  {
    var d := 2.0 - skew;
    var h := size as real / d;
    QuotientTimes(size as real, d);
    SmallQuotient(size, d, h);
  }

  lemma {:induction false} SmallQuotient(size: nat, d: real, h: real)
    requires 1.0 <= d <= 2.0 && h * d == size as real
    ensures size <= 2 * h.Floor + 1 && h.Floor <= size
  {
    NotNegative(h, d);
    BetweenHalfAndAll(size as real, d, h);
  }

  lemma {:induction false} BetweenHalfAndAll(w: real, d: real, h: real)
    requires 1.0 <= d <= 2.0 && h >= 0.0 && h * d == w
    ensures h <= w <= 2.0 * h
  {
    Swapped(d, h);
    Scaled(1.0, d, h);
    Scaled(d, 2.0, h);
  }

  lemma {:induction false} NotNegative(h: real, d: real)
    requires d > 0.0 && h * d >= 0.0
    ensures h >= 0.0
  {
    if h < 0.0 { StrictlyScaled(h, 0.0, d); }
  }

  lemma {:induction false} Swapped(a: real, b: real)
    ensures a * b == b * a
  {
  }
}
