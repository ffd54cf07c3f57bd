/** Packet filters (db_generator/stdinc.h), lists of filter indices, and address prefixes. */
module Filters {
  import opened Power

  /** The fields that address generation and duplicate removal work on. Addresses are 32 bits wide. */
  datatype Filter = Filter(
    sa: nat, da: nat, saLen: int, daLen: int,
    spLo: int, spHi: int, dpLo: int, dpHi: int,
    prot: int, flags: nat, flagsMask: nat)

  /** Which of a filter's two address prefixes. */
  datatype Side = Source | Destination

  function Len(f: Filter, side: Side): int { if side.Source? then f.saLen else f.daLen }
  function Addr(f: Filter, side: Side): nat { if side.Source? then f.sa else f.da }
  function WithAddr(f: Filter, side: Side, addr: nat): Filter {
    if side.Source? then f.(sa := addr) else f.(da := addr)
  }

  // ---------- lists of filter indices ----------

  ghost predicate NoDup(l: seq<nat>) {
    forall i, j :: 0 <= i < j < |l| ==> l[i] != l[j]
  }

  /** Filter q's prefix ends at level lev. */
  predicate Ends(fs: seq<Filter>, side: Side, lev: int, q: nat) {
    q < |fs| && Len(fs[q], side) == lev
  }

  /** Of the first i elements those whose prefix ends at level lev, in order. */
  function SelectTo(l: seq<nat>, i: nat, fs: seq<Filter>, side: Side, lev: int): seq<nat>
    requires i <= |l|
  {
    if i == 0 then []
    else if Ends(fs, side, lev, l[i - 1]) then SelectTo(l, i - 1, fs, side, lev) + [l[i - 1]]
    else SelectTo(l, i - 1, fs, side, lev)
  }

  /** And the others. */
  function RejectTo(l: seq<nat>, i: nat, fs: seq<Filter>, side: Side, lev: int): seq<nat>
    requires i <= |l|
  {
    if i == 0 then []
    else if Ends(fs, side, lev, l[i - 1]) then RejectTo(l, i - 1, fs, side, lev)
    else RejectTo(l, i - 1, fs, side, lev) + [l[i - 1]]
  }

  function Select(l: seq<nat>, fs: seq<Filter>, side: Side, lev: int): seq<nat> { SelectTo(l, |l|, fs, side, lev) }
  function Reject(l: seq<nat>, fs: seq<Filter>, side: Side, lev: int): seq<nat> { RejectTo(l, |l|, fs, side, lev) }

  /** The filters after the first i of the list were given the address, if they end at lev. */
  ghost function Assigned(fs: seq<Filter>, l: seq<nat>, i: nat, side: Side, lev: int, addr: nat): (r: seq<Filter>)
    requires i <= |l|
    ensures |r| == |fs|
  {
    if i == 0 then fs
    else
      var r := Assigned(fs, l, i - 1, side, lev, addr);
      if Ends(fs, side, lev, l[i - 1]) then r[l[i - 1] := WithAddr(r[l[i - 1]], side, addr)] else r
  }

  lemma {:induction false} AssignedIs(fs: seq<Filter>, l: seq<nat>, i: nat, side: Side, lev: int, addr: nat)
    requires i <= |l|
    ensures var r := Assigned(fs, l, i, side, lev, addr);
            forall k: nat :: k < |fs| ==>
              (r[k] == if Ends(fs, side, lev, k) && k in l[..i] then WithAddr(fs[k], side, addr) else fs[k])
  {
    if i > 0 {
      AssignedIs(fs, l, i - 1, side, lev, addr);
      assert l[..i] == l[..i - 1] + [l[i - 1]];
    }
  }

  lemma {:induction false} SelectMembers(l: seq<nat>, i: nat, fs: seq<Filter>, side: Side, lev: int)
    requires i <= |l|
    ensures forall q :: q in SelectTo(l, i, fs, side, lev) <==> q in l[..i] && Ends(fs, side, lev, q)
    ensures forall q :: q in RejectTo(l, i, fs, side, lev) <==> q in l[..i] && !Ends(fs, side, lev, q)
  {
    if i > 0 {
      SelectMembers(l, i - 1, fs, side, lev);
      assert l[..i] == l[..i - 1] + [l[i - 1]];
    }
  }

  lemma {:induction false} SelectNoDup(l: seq<nat>, i: nat, fs: seq<Filter>, side: Side, lev: int)
    requires NoDup(l) && i <= |l|
    ensures NoDup(SelectTo(l, i, fs, side, lev)) && NoDup(RejectTo(l, i, fs, side, lev))
  {
    if i > 0 {
      SelectNoDup(l, i - 1, fs, side, lev);
      SelectMembers(l, i - 1, fs, side, lev);
      assert l[i - 1] !in l[..i - 1];
    }
  }

  /** Two parts of a list: every element in one of them. */
  ghost predicate Parts(l: seq<nat>, a: seq<nat>, b: seq<nat>) {
    && NoDup(a) && NoDup(b)
    && (forall q :: q in l <==> q in a || q in b)
    && (forall q :: q in a ==> q !in b)
    && multiset(l) == multiset(a) + multiset(b)
  }

  lemma {:induction false} SelectParts(l: seq<nat>, fs: seq<Filter>, side: Side, lev: int)
    requires NoDup(l)
    ensures Parts(l, Select(l, fs, side, lev), Reject(l, fs, side, lev))
  {
    SelectNoDup(l, |l|, fs, side, lev);
    SelectMembers(l, |l|, fs, side, lev);
    SelectSplits(l, |l|, fs, side, lev);
    assert l[..|l|] == l;
  }

  lemma {:induction false} SliceParts(l: seq<nat>, i: nat)
    requires NoDup(l) && i <= |l|
    ensures Parts(l, l[..i], l[i..]) && Parts(l, l[i..], l[..i])
  {
    assert l == l[..i] + l[i..];
  }

  /** Selecting and rejecting split the list. */
  lemma {:induction false} SelectSplits(l: seq<nat>, i: nat, fs: seq<Filter>, side: Side, lev: int)
    requires i <= |l|
    ensures multiset(SelectTo(l, i, fs, side, lev)) + multiset(RejectTo(l, i, fs, side, lev)) == multiset(l[..i])
    ensures |SelectTo(l, i, fs, side, lev)| + |RejectTo(l, i, fs, side, lev)| == i
  {
    if i > 0 {
      var x := l[i - 1];
      var a, b := SelectTo(l, i - 1, fs, side, lev), RejectTo(l, i - 1, fs, side, lev);
      SelectSplits(l, i - 1, fs, side, lev);
      assert l[..i] == l[..i - 1] + [x];
      AppendOne(l[..i - 1], x);
      AppendOne(a, x);
      AppendOne(b, x);
      SplitGrows(multiset(a), multiset(b), multiset(l[..i - 1]), x);
    }
  }

  lemma {:induction false} SplitGrows(a: multiset<nat>, b: multiset<nat>, m: multiset<nat>, x: nat)
    requires a + b == m
    ensures a + multiset{x} + b == m + multiset{x} && a + (b + multiset{x}) == m + multiset{x}
  {
  }

  lemma {:induction false} AppendOne(l: seq<nat>, x: nat)
    ensures multiset(l + [x]) == multiset(l) + multiset{x}
  {
  }

  // ---------- prefixes ----------

  const ADDRESSES: nat := 0x1_0000_0000

  lemma {:induction false} AddressCount()
    ensures Pow2(32) == ADDRESSES
  {
    assert Pow2(8) == 256;
    Pow2Add(8, 8);
    Pow2Add(16, 16);
  }

  function Shl(x: nat, k: nat): nat { if k == 0 then x else Shl(x, k - 1) * 2 % ADDRESSES }

  predicate LowZeros(x: nat, k: nat) { k == 0 || (x % 2 == 0 && LowZeros(x / 2, k - 1)) }

  /** Number of addresses under a prefix of the given length. */
  function Span(len: int): (s: nat)
    ensures s >= 1
  {
    if 0 <= len <= 32 then Pow2(32 - len) else 1
  }

  /** A prefix that is written with zeros below its length. */
  predicate IsPrefix(addr: nat, len: int) {
    0 <= len <= 32 && addr < ADDRESSES && LowZeros(addr, 32 - len)
  }

  /** Address x starts with the prefix. */
  predicate Covers(addr: nat, len: int, x: nat) {
    addr <= x < addr + Span(len)
  }

  /** A proper prefix that lies below the node of level lev at addr. */
  predicate Within(prefix: nat, len: int, addr: nat, lev: int) {
    IsPrefix(prefix, len) && addr <= prefix && prefix + Span(len) <= addr + Span(lev)
  }

  /** The tries' address arithmetic for the two children of the node at addr. */
  function Addr0(addr: nat, lev: nat): nat
    requires lev < 32
  {
    if lev == 0 then 0 else Shl(Shr(addr, 32 - lev), 32 - lev)
  }

  function Addr1(addr: nat, lev: nat): nat
    requires lev < 32
  {
    if lev == 0 then 0x8000_0000 else Shl((Shl(Shr(addr, 32 - lev), 1) + 1) % ADDRESSES, 31 - lev)
  }

  lemma {:induction false} ZeroLow(k: nat)
    ensures LowZeros(0, k)
  {
    if k > 0 { ZeroLow(k - 1); }
  }

  lemma {:induction false} ShiftBack(x: nat, k: nat)
    requires LowZeros(x, k) && x < ADDRESSES
    ensures Shl(Shr(x, k), k) == x
  {
    if k > 0 {
      ShiftBack(x / 2, k - 1);
    }
  }

  /** Setting the highest of the k low zeros of x. */
  lemma {:induction false} ShiftBackOne(x: nat, k: nat)
    requires 0 < k <= 32 && LowZeros(x, k) && x + Pow2(k - 1) < ADDRESSES
    ensures Shl(2 * Shr(x, k) + 1, k - 1) == x + Pow2(k - 1)
    ensures LowZeros(x, k - 1) && LowZeros(x + Pow2(k - 1), k - 1)
  {
    if k > 1 {
      ShiftBackOne(x / 2, k - 1);
      assert (x + Pow2(k - 1)) / 2 == x / 2 + Pow2(k - 2);
    } else {
      assert Shr(x, 1) == Shr(x / 2, 0);
    }
  }

  lemma {:induction false} ShrBound(x: nat, k: nat, n: nat)
    requires k <= n && x < Pow2(n)
    ensures Shr(x, k) < Pow2(n - k)
  {
    if k > 0 { ShrBound(x / 2, k - 1, n - 1); }
  }

  lemma {:induction false} SpanFits(x: nat, k: nat, n: nat)
    requires k <= n && x < Pow2(n) && LowZeros(x, k)
    ensures x + Pow2(k) <= Pow2(n)
  {
    if k > 0 { SpanFits(x / 2, k - 1, n - 1); }
  }

  /** Only one number with k low zeros is the start of the block that addr lies in. */
  lemma {:induction false} AlignedUnique(p: nat, addr: nat, k: nat)
    requires addr < ADDRESSES && LowZeros(p, k) && p <= addr < p + Pow2(k)
    ensures Shl(Shr(addr, k), k) == p
  {
    if k > 0 {
      AlignedUnique(p / 2, addr / 2, k - 1);
    }
  }

  /** The shifts give the lower and the upper half of the node's addresses. */
  lemma {:induction false} ChildAddresses(addr: nat, lev: nat)
    requires lev < 32 && IsPrefix(addr, lev)
    ensures Span(lev) == 2 * Span(lev + 1) && addr + Span(lev) <= ADDRESSES
    ensures Addr0(addr, lev) == addr && Addr1(addr, lev) == addr + Span(lev + 1)
    ensures IsPrefix(addr, lev + 1) && IsPrefix(addr + Span(lev + 1), lev + 1)
  {
    AddressCount();
    SpanFits(addr, 32 - lev, 32);
    ShiftBackOne(addr, 32 - lev);
    if lev == 0 {
      assert Pow2(32) == 2 * Pow2(31);
    } else {
      InnerChildAddresses(addr, lev);
    }
  }

  lemma {:induction false} InnerChildAddresses(addr: nat, lev: nat)
    requires 0 < lev < 32 && IsPrefix(addr, lev) && addr + Span(lev + 1) < ADDRESSES
    ensures Addr0(addr, lev) == addr && Addr1(addr, lev) == addr + Span(lev + 1)
  {
    var c := Shr(addr, 32 - lev);
    ShiftBack(addr, 32 - lev);
    ShiftBackOne(addr, 32 - lev);
    InnerShr(addr, lev);
    HalfRoom(c, lev);
    calc {
      Addr1(addr, lev);
      Shl((Shl(c, 1) + 1) % ADDRESSES, 31 - lev);
      Shl(2 * c + 1, 31 - lev);
      addr + Pow2(31 - lev);
    }
  }

  lemma {:induction false} InnerShr(addr: nat, lev: nat)
    requires 0 < lev < 32 && addr < ADDRESSES
    ensures Shr(addr, 32 - lev) < Pow2(lev)
  {
    AddressCount();
    ShrBound(addr, 32 - lev, 32);
  }

  lemma {:induction false} HalfRoom(c: nat, lev: nat)
    requires 0 < lev < 32 && c < Pow2(lev)
    ensures (Shl(c, 1) + 1) % ADDRESSES == 2 * c + 1
  {
    AddressCount();
    Pow2Monotone(lev, 31);
    assert Shl(c, 0) == c;
  }
}
