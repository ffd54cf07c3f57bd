/** How dbintree correlates destination addresses with source addresses (db_generator/dbintree.cc):
    where the nesting limit is out of reach a destination address follows the source address bit by
    bit, up to the level at which it is made to turn away from it. */
module DestFollow {
  import opened Power
  import opened Filters
  import opened TrieNode
  import opened Nesting
  import opened DestRun

  // ---------- bits of addresses ----------

  /** The bit of an address that decides below level lev, highest bit first. */
  function BitAt(x: nat, lev: nat): nat
    requires lev < 32
  {
    Shr(x, 31 - lev) % 2
  }

  /** The first k bits are the same. */
  predicate SameBits(x: nat, y: nat, k: nat)
    requires k <= 32
  {
    Shr(x, 32 - k) == Shr(y, 32 - k)
  }

  lemma {:induction false} ShlFirst(x: nat, k: nat)
    requires k > 0
    ensures Shl(x, k) == Shl(x * 2 % ADDRESSES, k - 1)
  {
    if k > 1 { ShlFirst(x, k - 1); }
  }

  lemma {:induction false} ShrOfSum(x: nat, m: nat, k: nat)
    ensures Shr(x + Pow2(m + k), k) == Shr(x, k) + Pow2(m)
    decreases k
  {
    if k > 0 {
      assert (x + Pow2(m + k)) / 2 == x / 2 + Pow2(m + k - 1);
      ShrOfSum(x / 2, m, k - 1);
    }
  }

  /** The shifts of the source yield that bit. */
  lemma {:induction false} ShiftsGiveBit(x: nat, lev: nat)
    requires x < ADDRESSES && lev < 32
    ensures Shr(Shl(x, lev), 31) == BitAt(x, lev)
    decreases lev
  {
    hide Shr, BitAt;
    if lev == 0 {
      HighestBit(x);
    } else {
      ShlFirst(x, lev);
      ShiftsGiveBit(x * 2 % ADDRESSES, lev - 1);
      DoubledBit(x, lev);
    }
  }

  lemma {:induction false} HighestBit(x: nat)
    requires x < ADDRESSES
    ensures Shr(Shl(x, 0), 31) == BitAt(x, 0)
  {
    AddressCount();
    ShrBound(x, 31, 32);
    assert Pow2(1) == 2;
  }

  lemma {:induction false} DoubledBit(x: nat, lev: nat)
    requires x < ADDRESSES && 0 < lev < 32
    ensures BitAt(x * 2 % ADDRESSES, lev - 1) == BitAt(x, lev)
  {
    hide Pow2;
    var half := ADDRESSES / 2;
    var y := if x < half then x else x - half;
    assert x * 2 % ADDRESSES == 2 * y;
    assert Shr(2 * y, 32 - lev) == Shr(y, 31 - lev);
    if x >= half {
      HalfIs();
      ShrOfSum(y, lev, 31 - lev);
      EvenPower(lev);
    }
  }

  lemma {:induction false} HalfIs()
    ensures Pow2(31) == ADDRESSES / 2
  {
    AddressCount();
  }

  lemma {:induction false} EvenPower(k: nat)
    requires k > 0
    ensures Pow2(k) % 2 == 0
  {
  }

  /** All addresses of an aligned block have the same highest bits. */
  lemma {:induction false} ShrOfCovered(p: nat, x: nat, k: nat)
    requires LowZeros(p, k) && p <= x < p + Pow2(k)
    ensures Shr(x, k) == Shr(p, k)
  {
    if k > 0 { ShrOfCovered(p / 2, x / 2, k - 1); }
  }

  /** The child that the bit of the address says is the one that holds the address. */
  lemma {:induction false} BitChooses(addr: nat, lev: nat, x: nat)
    requires lev < 32 && IsPrefix(addr, lev) && Covers(addr, lev, x) && x < ADDRESSES
    ensures BitAt(x, lev) < 2 && Covers(KidAddr(addr, lev, BitAt(x, lev) == 1), lev + 1, x)
    ensures forall y: nat :: Covers(KidAddr(addr, lev, BitAt(x, lev) == 0), lev + 1, y) ==>
              SameBits(x, y, lev) && BitAt(y, lev) != BitAt(x, lev)
  {
    ChildAddresses(addr, lev);
    BitOfHalf(addr, lev, x);
    forall y: nat | Covers(KidAddr(addr, lev, BitAt(x, lev) == 0), lev + 1, y)
      ensures SameBits(x, y, lev) && BitAt(y, lev) != BitAt(x, lev)
    {
      BitOfHalf(addr, lev, y);
      ShrOfCovered(addr, x, 32 - lev);
      ShrOfCovered(addr, y, 32 - lev);
    }
  }

  lemma {:induction false} BitOfHalf(addr: nat, lev: nat, x: nat)
    requires lev < 32 && IsPrefix(addr, lev) && Covers(addr, lev, x)
    ensures BitAt(x, lev) == if x < addr + Span(lev + 1) then 0 else 1
  {
    hide Shr, LowZeros, IsPrefix;
    var k := 31 - lev;
    HalfStarts(addr, lev);
    if x < addr + Span(lev + 1) {
      ShrOfCovered(addr, x, k);
    } else {
      ShrOfCovered(addr + Pow2(k), x, k);
      ShrOfSum(addr, 0, k);
    }
  }

  lemma {:induction false} HalfStarts(addr: nat, lev: nat)
    requires lev < 32 && IsPrefix(addr, lev)
    ensures Span(lev) == 2 * Pow2(31 - lev) && Span(lev + 1) == Pow2(31 - lev) && Pow2(0) == 1
    ensures LowZeros(addr, 31 - lev) && LowZeros(addr + Pow2(31 - lev), 31 - lev) && Shr(addr, 31 - lev) % 2 == 0
  {
    hide Shr, LowZeros;
    ChildAddresses(addr, lev);
    IsLowZeros(addr, lev);
    IsLowZeros(addr + Span(lev + 1), lev + 1);
    IsLowZeros(addr, lev + 1);
    EvenShr(addr, 31 - lev);
  }

  lemma {:induction false} IsLowZeros(addr: nat, len: nat)
    requires IsPrefix(addr, len)
    ensures LowZeros(addr, 32 - len)
  {
  }

  lemma {:induction false} EvenShr(x: nat, k: nat)
    requires LowZeros(x, k + 1)
    ensures Shr(x, k) % 2 == 0
  {
    if k > 0 { EvenShr(x / 2, k - 1); }
  }

  // ---------- one filter ----------

  lemma {:induction false} InMeansCount(l: seq<nat>, q: nat)
    ensures q in l <==> Count(l, q) > 0
  {
  }

  /** A filter that was not written is unchanged. */
  lemma {:induction false} NotWritten(s: Run, s': Run, addr: nat, lev: int, q: nat)
    requires Wrote(s, s', addr, lev) && Count(Writes(s, s'), q) == 0 && q < |s.fs|
    ensures q < |s'.fs| && s'.fs[q] == s.fs[q]
  {
    InMeansCount(Writes(s, s'), q);
  }

  lemma {:induction false} OnlyDaWritten(s: Run, s': Run, addr: nat, lev: int, q: nat)
    requires Wrote(s, s', addr, lev) && q < |s.fs|
    ensures q < |s'.fs| && s'.fs[q] == s.fs[q].(da := s'.fs[q].da)
  {
    assert s'.fs[q] == WithAddr(s.fs[q], Destination, Addr(s'.fs[q], Destination));
  }

  /** The bit that Place looks at. */
  lemma {:induction false} PlaceBit(f: Filter, lev: nat)
    requires f.sa < ADDRESSES && lev < 32
    ensures Bit(f, lev) == BitAt(f.sa, lev)
  {
    ShiftsGiveBit(f.sa, lev);
  }

  /** The list of the child that a bit leads to. */
  function ListOf(p: Spread, one: bool): seq<nat> { if one then p.l1 else p.l0 }

  /** The filter waits in the child that its source address does not lead to. */
  predicate TurnedAt(t: Tree, lev: nat, sa: nat, q: nat)
    requires lev < 32
  {
    t.Node? && t.Kid(BitAt(sa, lev) == 0).Node? && q in t.Kid(BitAt(sa, lev) == 0).stubs
  }

  lemma {:induction false} PushedStubs(t: Tree, one: bool, f: nat)
    requires t.Node?
    ensures var r := t.Pushed(one, f);
            && r.Node? && r.stubs == t.stubs && r.Kid(one).Node? && f in r.Kid(one).stubs
            && r.Kid(!one) == t.Kid(!one)
            && (t.Kid(one).Node? ==> t.Kid(one).stubs <= r.Kid(one).stubs)
  {
  }

  /** Placing one filter leaves those placed before where they are. */
  lemma {:induction false} PlaceKeeps(ps: Params, lev: nat, fs: seq<Filter>, f: nat, p: Spread, sa: nat, q: nat)
    requires lev < 32 && p.tree.Node?
    ensures var r := Place(ps, lev, fs, f, p);
            && r.tree.Node? && p.n <= r.n && p.tree.stubs <= r.tree.stubs
            && (TurnedAt(p.tree, lev, sa, q) ==> TurnedAt(r.tree, lev, sa, q))
            && (forall one :: q in ListOf(p, one) ==> q in ListOf(r, one))
  {
    hide Tree.Pushed, Bit, BitAt;
    if f < |fs| {
      PushedStubs(p.tree, Bit(fs[f], lev) == 0, f);
    }
  }

  /** Whether q turns at this level, and the number that decided it if one was drawn. */
  predicate Sent(ps: Params, f: Filter, lev: nat, n: nat, p: Spread, q: nat, turned: bool, k: nat)
    requires lev < 32
  {
    && (turned ==>
          TurnedAt(p.tree, lev, f.sa, q) && (f.saLen == lev + 1 || (n <= k < p.n && ps.draw(k) > ps.corr[lev + 1])))
    && (!turned ==>
          && q in ListOf(p, BitAt(f.sa, lev) == 1) && f.saLen > lev + 1
          && n <= k < p.n && ps.draw(k) <= ps.corr[lev + 1])
  }

  lemma {:induction false} PlaceSends(ps: Params, lev: nat, fs: seq<Filter>, q: nat, p: Spread, n: nat)
    returns (turned: bool)
    requires lev < 32 && p.tree.Node? && q < |fs| && fs[q].sa < ADDRESSES && fs[q].saLen > lev && n <= p.n
    ensures Sent(ps, fs[q], lev, n, Place(ps, lev, fs, q, p), q, turned, p.n)
  {
    hide Tree.Pushed, Bit, BitAt;
    PlaceBit(fs[q], lev);
    BitIsBit(fs[q].sa, lev);
    PushedStubs(p.tree, Bit(fs[q], lev) == 0, q);
    turned := fs[q].saLen == lev + 1 || ps.draw(p.n) > ps.corr[lev + 1];
  }

  lemma {:induction false} BitIsBit(x: nat, lev: nat)
    requires lev < 32
    ensures BitAt(x, lev) < 2
  {
  }

  lemma {:induction false} SpreadSends(ps: Params, lev: nat, fs: seq<Filter>, l: seq<nat>, i: nat, t: Tree, n: nat,
                                       q: nat)
    returns (turned: bool, k: nat)
    requires lev < 32 && i <= |l| && t.Node? && q in l[..i]
    requires q < |fs| && fs[q].sa < ADDRESSES && fs[q].saLen > lev
    ensures Sent(ps, fs[q], lev, n, SpreadTo(ps, lev, fs, l, i, t, n), q, turned, k)
  {
    hide Place, BitAt, TurnedAt;
    var p := SpreadTo(ps, lev, fs, l, i - 1, t, n);
    assert l[..i] == l[..i - 1] + [l[i - 1]];
    SpreadCounts(ps, lev, fs, l, i - 1, t, n);
    if l[i - 1] == q {
      k := p.n;
      turned := PlaceSends(ps, lev, fs, q, p, n);
    } else {
      turned, k := SpreadSends(ps, lev, fs, l, i - 1, t, n, q);
      PlaceKeeps(ps, lev, fs, l[i - 1], p, fs[q].sa, q);
    }
  }

  lemma {:induction false} SpreadCounts(ps: Params, lev: nat, fs: seq<Filter>, l: seq<nat>, i: nat, t: Tree, n: nat)
    requires lev < 32 && i <= |l| && t.Node?
    ensures var p := SpreadTo(ps, lev, fs, l, i, t, n); n <= p.n && t.stubs <= p.tree.stubs
  {
    hide Place;
    if i > 0 {
      SpreadCounts(ps, lev, fs, l, i - 1, t, n);
      PlaceKeeps(ps, lev, fs, l[i - 1], SpreadTo(ps, lev, fs, l, i - 1, t, n), 0, 0);
    }
  }

  // ---------- the first phase ----------

  lemma {:induction false} PassKids(ps: Params, t: Tree, one: bool, lev: nat, addr: nat, l: seq<nat>, my: int, s: Run)
    requires t.Node? && lev < 32
    ensures var r := Pass(ps, t, one, lev, addr, l, my, s).tree;
            && r.stubs == t.stubs && r.Kid(!one) == t.Kid(!one)
            && (t.Kid(one).Node? ==> r.Kid(one).Node? && t.Kid(one).stubs <= r.Kid(one).stubs)
    decreases 32 - lev, 0
  {
    hide AddStub, KidAddr;
    if l != [] {
      var t1 := t.Weighted(one, |l|);
      AddStubStubs(ps, t1.Kid(one), lev + 1, KidAddr(addr, lev, one), l, my, s);
    }
  }

  /** The stub list of a node only grows. */
  lemma {:induction false} AddStubStubs(ps: Params, t: Tree, lev: nat, addr: nat, l: seq<nat>, cur: int, s: Run)
    requires t.Node?
    ensures t.stubs <= AddStub(ps, t, lev, addr, l, cur, s).tree.stubs
    decreases if lev < 32 then 32 - lev else 0, 1
  {
    hide Entered, Select, Reject, SpreadTo, Pass;
    var rest := Reject(l, s.fs, Destination, lev);
    var s1 := Entered(s, l, lev, addr);
    var t1 := if Select(l, s.fs, Destination, lev) != [] then t.Marked() else t;
    var my := if t1.valid then cur + 1 else cur;
    if lev < 32 {
      var p := SpreadTo(ps, lev, s1.fs, rest, |rest|, t1, s1.n);
      SpreadCounts(ps, lev, s1.fs, rest, |rest|, t1, s1.n);
      var s2 := s1.(n := p.n);
      var g := Pass(ps, p.tree, false, lev, addr, p.l0, my, s2);
      PassKids(ps, p.tree, false, lev, addr, p.l0, my, s2);
      PassKids(ps, g.tree, true, lev, addr, p.l1, my, g.run);
    }
  }

  lemma {:induction false} AddStubDraws(ps: Params, t: Tree, lev: nat, addr: nat, l: seq<nat>, cur: int, s: Run)
    requires t.Node?
    ensures s.n <= AddStub(ps, t, lev, addr, l, cur, s).run.n
    decreases if lev < 32 then 32 - lev else 0, 2
  {
    hide Select, Reject, GoDown;
    var rest := Reject(l, s.fs, Destination, lev);
    var t1 := if Select(l, s.fs, Destination, lev) != [] then t.Marked() else t;
    var my := if t1.valid then cur + 1 else cur;
    if lev < 32 { GoDownDraws(ps, t1, lev, addr, rest, my, Entered(s, l, lev, addr)); }
  }

  lemma {:induction false} GoDownDraws(ps: Params, t: Tree, lev: nat, addr: nat, l: seq<nat>, my: int, s: Run)
    requires t.Node? && lev < 32
    ensures s.n <= GoDown(ps, t, lev, addr, l, my, s).run.n
    decreases 32 - lev, 1
  {
    hide SpreadTo, Pass;
    var p := SpreadTo(ps, lev, s.fs, l, |l|, t, s.n);
    SpreadCounts(ps, lev, s.fs, l, |l|, t, s.n);
    var g := Pass(ps, p.tree, false, lev, addr, p.l0, my, s.(n := p.n));
    PassDraws(ps, p.tree, false, lev, addr, p.l0, my, s.(n := p.n));
    PassDraws(ps, g.tree, true, lev, addr, p.l1, my, g.run);
  }

  lemma {:induction false} PassDraws(ps: Params, t: Tree, one: bool, lev: nat, addr: nat, l: seq<nat>, my: int, s: Run)
    requires t.Node? && lev < 32
    ensures s.n <= Pass(ps, t, one, lev, addr, l, my, s).run.n
    decreases 32 - lev, 0
  {
    hide AddStub, KidAddr;
    if l != [] {
      AddStubDraws(ps, t.Weighted(one, |l|).Kid(one), lev + 1, KidAddr(addr, lev, one), l, my, s);
    }
  }

  /** Among the numbers drawn from one point of the run to another there is one that breaks the
      correlation below level lev, or one that holds it. */
  ghost predicate Broke(ps: Params, lev: nat, from: nat, to: nat)
    requires lev < 32
  {
    exists n: nat {:trigger ps.draw(n)} :: from <= n < to && ps.draw(n) > ps.corr[lev + 1]
  }

  ghost predicate Held(ps: Params, lev: nat, from: nat, to: nat)
    requires lev < 32
  {
    exists n: nat {:trigger ps.draw(n)} :: from <= n < to && ps.draw(n) <= ps.corr[lev + 1]
  }

  /** From level lev on filter f follows its source address to level turn: to the end of its
      destination prefix, or to the level at which it turns away. */
  ghost predicate Turns(ps: Params, f: Filter, lev: nat, turn: nat, from: nat, to: nat) {
    && lev <= turn <= 32 && turn < f.saLen && turn <= f.daLen
    && (forall i :: lev <= i < turn ==> Held(ps, i, from, to))
    && (turn < f.daLen ==> turn < 32 && (f.saLen == turn + 1 || Broke(ps, turn, from, to)))
  }

  lemma {:induction false} TurnsWider(ps: Params, f: Filter, lev: nat, turn: nat, from: nat, to: nat, from': nat,
                                      to': nat)
    requires Turns(ps, f, lev, turn, from, to) && from' <= from && to <= to'
    ensures Turns(ps, f, lev, turn, from', to')
  {
    hide Held, Broke;
    forall i | lev <= i < turn
      ensures Held(ps, i, from', to')
    {
      DrawnWider(ps, i, from, to, from', to');
    }
    if turn < 32 { DrawnWider(ps, turn, from, to, from', to'); }
  }

  lemma {:induction false} DrawnWider(ps: Params, lev: nat, from: nat, to: nat, from': nat, to': nat)
    requires lev < 32 && from' <= from && to <= to'
    ensures Held(ps, lev, from, to) ==> Held(ps, lev, from', to')
    ensures Broke(ps, lev, from, to) ==> Broke(ps, lev, from', to')
  {
  }

  lemma {:induction false} TurnsNext(ps: Params, f: Filter, lev: nat, turn: nat, from: nat, mid: nat, to: nat)
    requires lev < 32 && from <= mid && Held(ps, lev, from, to) && Turns(ps, f, lev + 1, turn, mid, to)
    ensures Turns(ps, f, lev, turn, from, to)
  {
    hide Held, Broke;
    TurnsWider(ps, f, lev + 1, turn, mid, to, from, to);
  }

  /** At level turn filter q waits off the path of its source address. */
  ghost predicate OffPath(t: Tree, lev: nat, turn: nat, sa: nat, q: nat)
    requires turn < 32
    decreases turn - lev
  {
    && t.Node? && lev <= turn
    && if lev == turn then TurnedAt(t, lev, sa, q) else OffPath(t.Kid(BitAt(sa, lev) == 1), lev + 1, turn, sa, q)
  }

  lemma {:induction false} TurnedWaits(t: Tree, lev: nat, sa: nat, q: nat)
    requires lev < 32 && TurnedAt(t, lev, sa, q)
    ensures Waits(t, q) >= Waits(t.Kid(BitAt(sa, lev) == 0), q) >= 1
  {
    InMeansCount(t.Kid(BitAt(sa, lev) == 0).stubs, q);
  }

  lemma {:induction false} OffPathWaits(t: Tree, lev: nat, turn: nat, sa: nat, q: nat)
    requires turn < 32 && OffPath(t, lev, turn, sa, q)
    ensures Waits(t, q) >= 1
    decreases turn - lev
  {
    hide BitAt;
    if lev == turn {
      TurnedWaits(t, lev, sa, q);
    } else {
      OffPathWaits(t.Kid(BitAt(sa, lev) == 1), lev + 1, turn, sa, q);
    }
  }

  /** The filter and the node that it has followed its source address to. */
  ghost predicate OnPath(ps: Params, t: Tree, lev: nat, addr: nat, l: seq<nat>, cur: int, s: Run, q: nat) {
    && t.Node? && lev <= 32 && IsPrefix(addr, lev) && Fit(t, lev, LensOf(s.fs)) && cur <= lev && ps.nest >= 34
    && q < |s.fs| && s.fs[q].sa < ADDRESSES && Covers(addr, lev, s.fs[q].sa) && lev < s.fs[q].saLen
    && Waits(t, q) == 0 && Count(l, q) == 1
  }

  /** Either the whole prefix has followed the source address, or it waits where it turned. */
  ghost predicate Arrived(f: Filter, g: Grown, lev: nat, turn: nat, q: nat)
    requires turn <= 32
  {
    && q < |g.run.fs|
    && if turn == f.daLen then
         Waits(g.tree, q) == 0 && IsPrefix(g.run.fs[q].da, f.daLen) && Covers(g.run.fs[q].da, f.daLen, f.sa)
       else turn < 32 && Waits(g.tree, q) == 1 && OffPath(g.tree, lev, turn, f.sa, q)
  }

  lemma {:induction false} EnterDraws(s: Run, l: seq<nat>, lev: nat, addr: nat)
    ensures Entered(s, l, lev, addr).n == s.n
  {
  }

  lemma {:induction false} StubFollows(ps: Params, t: Tree, lev: nat, addr: nat, l: seq<nat>, cur: int, s: Run, q: nat)
    returns (turn: nat)
    requires OnPath(ps, t, lev, addr, l, cur, s, q) && EndBelow(l, LensOf(s.fs), lev)
    ensures var g := AddStub(ps, t, lev, addr, l, cur, s);
            Turns(ps, s.fs[q], lev, turn, s.n, g.run.n) && Arrived(s.fs[q], g, lev, turn, q)
    decreases 33 - lev, 3
  {
    hide Wrote, EndBelow, IsPrefix, Covers, Fit, Waits, Count, Entered, GoDown, LensOf, Reject, Select, OffPath;
    var here, rest := Select(l, s.fs, Destination, lev), Reject(l, s.fs, Destination, lev);
    var s1 := Entered(s, l, lev, addr);
    var t1 := if here != [] then t.Marked() else t;
    var my := if t1.valid then cur + 1 else cur;
    EnterWrites(s, l, lev, addr, q);
    WroteLens(s, s1, addr, lev);
    OnlyDaWritten(s, s1, addr, lev, q);
    EnterDraws(s, l, lev, addr);
    ValidFits(t, lev, LensOf(s.fs), q);
    if s.fs[q].daLen == lev {
      turn := lev;
      EndsHere(s, l, lev, addr, q);
      if lev < 32 {
        GoDownConserves(ps, t1, lev, addr, rest, my, s1, q);
        GoDownDraws(ps, t1, lev, addr, rest, my, s1);
        NotWritten(s1, GoDown(ps, t1, lev, addr, rest, my, s1).run, addr, lev, q);
      } else {
        KeptFits(t1, rest, lev, LensOf(s.fs), q);
      }
    } else {
      GoesOn(s, l, lev, addr, q);
      turn := GoDownFollows(ps, t1, lev, addr, rest, my, s1, q);
    }
  }

  lemma {:induction false} EndsHere(s: Run, l: seq<nat>, lev: nat, addr: nat, q: nat)
    requires EndBelow(l, LensOf(s.fs), lev) && IsPrefix(addr, lev)
    requires q < |s.fs| && Count(l, q) == 1 && s.fs[q].daLen == lev
    ensures Entered(s, l, lev, addr).fs[q].da == addr && Count(Reject(l, s.fs, Destination, lev), q) == 0
  {
    InMeansCount(l, q);
    InMeansCount(Reject(l, s.fs, Destination, lev), q);
    SelectMembers(l, |l|, s.fs, Destination, lev);
    assert l[..|l|] == l;
    EnterWrites(s, l, lev, addr, q);
  }

  lemma {:induction false} GoesOn(s: Run, l: seq<nat>, lev: nat, addr: nat, q: nat)
    requires EndBelow(l, LensOf(s.fs), lev) && IsPrefix(addr, lev)
    requires q < |s.fs| && Count(l, q) == 1 && s.fs[q].daLen != lev
    ensures lev < s.fs[q].daLen <= 32 && Entered(s, l, lev, addr).fs[q] == s.fs[q]
    ensures Count(Reject(l, s.fs, Destination, lev), q) == 1
  {
    InMeansCount(l, q);
    InMeansCount(Select(l, s.fs, Destination, lev), q);
    SelectMembers(l, |l|, s.fs, Destination, lev);
    assert l[..|l|] == l;
    LensAt(s.fs, q);
    EnterWrites(s, l, lev, addr, q);
    NotWritten(s, Entered(s, l, lev, addr), addr, lev, q);
  }

  /** Of a child's new subtree and of all that was drawn for it. */
  lemma {:induction false} PassFollows(ps: Params, t: Tree, one: bool, lev: nat, addr: nat, l: seq<nat>, my: int,
                                       s: Run, q: nat)
    returns (turn: nat)
    requires lev < 32 && OnPath(ps, t, lev, addr, l, my - 1, s, q) && EndBelow(l, LensOf(s.fs), lev + 1)
    requires s.fs[q].saLen > lev + 1 && one == (BitAt(s.fs[q].sa, lev) == 1)
    ensures var g := Pass(ps, t, one, lev, addr, l, my, s);
            Turns(ps, s.fs[q], lev + 1, turn, s.n, g.run.n) && Arrived(s.fs[q], g, lev, turn, q)
    decreases 33 - lev, 0
  {
    hide Wrote, EndBelow, IsPrefix, Covers, Fit, Waits, Count, AddStub, LensOf, Tree.Weighted, KidAddr, BitAt;
    InMeansCount(l, q);
    var t1 := t.Weighted(one, |l|);
    WeightedFits(t, one, |l|, lev, LensOf(s.fs), q);
    KidAddresses(addr, lev, one);
    BitChooses(addr, lev, s.fs[q].sa);
    KidWaits(t1, one, q);
    var r := AddStub(ps, t1.Kid(one), lev + 1, KidAddr(addr, lev, one), l, my, s);
    turn := StubFollows(ps, t1.Kid(one), lev + 1, KidAddr(addr, lev, one), l, my, s, q);
    AddStubConserves(ps, t1.Kid(one), lev + 1, KidAddr(addr, lev, one), l, my, s, q);
    WithKidFits(t1, one, r.tree, lev, LensOf(s.fs), q);
  }

  lemma {:induction false} KidWaits(t: Tree, one: bool, q: nat)
    requires t.Node?
    ensures Waits(t.Kid(one), q) <= Waits(t, q)
  {
  }

  lemma {:induction false} GoDownFollows(ps: Params, t: Tree, lev: nat, addr: nat, l: seq<nat>, my: int, s: Run, q: nat)
    returns (turn: nat)
    requires lev < 32 && OnPath(ps, t, lev, addr, l, my - 1, s, q) && EndBelow(l, LensOf(s.fs), lev + 1)
    requires s.fs[q].daLen > lev
    ensures var g := GoDown(ps, t, lev, addr, l, my, s);
            Turns(ps, s.fs[q], lev, turn, s.n, g.run.n) && Arrived(s.fs[q], g, lev, turn, q)
    decreases 33 - lev, 2
  {
    hide Wrote, EndBelow, IsPrefix, Covers, Fit, Waits, Count, SpreadTo, Pass, LensOf, BitAt, TurnedAt;
    var p := SpreadTo(ps, lev, s.fs, l, |l|, t, s.n);
    assert l[..|l|] == l;
    InMeansCount(l, q);
    SpreadConserves(ps, lev, s.fs, l, |l|, t, s.n, q);
    SpreadBelow(ps, lev, s.fs, l, |l|, t, s.n);
    var turned, k := SpreadSends(ps, lev, s.fs, l, |l|, t, s.n, q);
    SpreadCounts(ps, lev, s.fs, l, |l|, t, s.n);
    var s1 := s.(n := p.n);
    if turned {
      turn := lev;
      StaysTurned(ps, p, lev, addr, my, s1, q);
      if s.fs[q].saLen != lev + 1 { assert ps.draw(k) > ps.corr[lev + 1]; }
    } else {
      turn := PassesOn(ps, p, lev, addr, my, s1, q);
      var to := GoDown(ps, t, lev, addr, l, my, s).run.n;
      assert Held(ps, lev, s.n, to) by { assert ps.draw(k) <= ps.corr[lev + 1]; }
      TurnsNext(ps, s.fs[q], lev, turn, s.n, p.n, to);
    }
  }

  ghost function BothPasses(ps: Params, p: Spread, lev: nat, addr: nat, my: int, s: Run): (r: Grown)
    requires lev < 32 && p.tree.Node?
    ensures r.tree.Node?
  {
    var g := Pass(ps, p.tree, false, lev, addr, p.l0, my, s);
    Pass(ps, g.tree, true, lev, addr, p.l1, my, g.run)
  }

  /** What the loop over the list has made of it. */
  ghost predicate Placed(ps: Params, p: Spread, lev: nat, addr: nat, my: int, s: Run, q: nat) {
    && p.tree.Node? && lev < 32 && IsPrefix(addr, lev) && Fit(p.tree, lev, LensOf(s.fs))
    && my <= lev + 1 && ps.nest >= 34
    && EndBelow(p.l0, LensOf(s.fs), lev + 1) && EndBelow(p.l1, LensOf(s.fs), lev + 1)
    && q < |s.fs| && s.fs[q].sa < ADDRESSES && Covers(addr, lev, s.fs[q].sa) && lev < s.fs[q].daLen
    && PlacedIn(p, q) == 1
  }

  lemma {:induction false} StaysTurned(ps: Params, p: Spread, lev: nat, addr: nat, my: int, s: Run, q: nat)
    requires Placed(ps, p, lev, addr, my, s, q) && TurnedAt(p.tree, lev, s.fs[q].sa, q)
    ensures var h := BothPasses(ps, p, lev, addr, my, s); s.n <= h.run.n && Arrived(s.fs[q], h, lev, lev, q)
  {
    hide Wrote, EndBelow, IsPrefix, Covers, Fit, Waits, Count, Pass, LensOf, BitAt;
    var g := Pass(ps, p.tree, false, lev, addr, p.l0, my, s);
    var h := Pass(ps, g.tree, true, lev, addr, p.l1, my, g.run);
    TurnedWaits(p.tree, lev, s.fs[q].sa, q);
    PassKids(ps, p.tree, false, lev, addr, p.l0, my, s);
    PassDraws(ps, p.tree, false, lev, addr, p.l0, my, s);
    PassConserves(ps, p.tree, false, lev, addr, p.l0, my, s, q);
    TurnedWaits(g.tree, lev, s.fs[q].sa, q);
    WroteLens(s, g.run, addr, lev);
    PassKids(ps, g.tree, true, lev, addr, p.l1, my, g.run);
    PassDraws(ps, g.tree, true, lev, addr, p.l1, my, g.run);
    PassConserves(ps, g.tree, true, lev, addr, p.l1, my, g.run, q);
    TurnedWaits(h.tree, lev, s.fs[q].sa, q);
    OnlyDaWritten(s, g.run, addr, lev, q);
    OnlyDaWritten(g.run, h.run, addr, lev, q);
  }

  lemma {:induction false} PassesOn(ps: Params, p: Spread, lev: nat, addr: nat, my: int, s: Run, q: nat)
    returns (turn: nat)
    requires Placed(ps, p, lev, addr, my, s, q) && s.fs[q].saLen > lev + 1
    requires q in ListOf(p, BitAt(s.fs[q].sa, lev) == 1)
    ensures var h := BothPasses(ps, p, lev, addr, my, s);
            && s.n <= h.run.n && Turns(ps, s.fs[q], lev + 1, turn, s.n, h.run.n)
            && Arrived(s.fs[q], h, lev, turn, q)
    decreases 33 - lev, 1
  {
    hide Wrote, EndBelow, IsPrefix, Covers, Fit, Waits, Count, Pass, LensOf, BitAt, OffPath, Held, Broke;
    var g := Pass(ps, p.tree, false, lev, addr, p.l0, my, s);
    var h := Pass(ps, g.tree, true, lev, addr, p.l1, my, g.run);
    InMeansCount(ListOf(p, BitAt(s.fs[q].sa, lev) == 1), q);
    PassConserves(ps, p.tree, false, lev, addr, p.l0, my, s, q);
    PassDraws(ps, p.tree, false, lev, addr, p.l0, my, s);
    WroteLens(s, g.run, addr, lev);
    PassDraws(ps, g.tree, true, lev, addr, p.l1, my, g.run);
    PassConserves(ps, g.tree, true, lev, addr, p.l1, my, g.run, q);
    if BitAt(s.fs[q].sa, lev) == 1 {
      NotWritten(s, g.run, addr, lev, q);
      turn := PassFollows(ps, g.tree, true, lev, addr, p.l1, my, g.run, q);
      TurnsWider(ps, s.fs[q], lev + 1, turn, g.run.n, h.run.n, s.n, h.run.n);
    } else {
      turn := PassFollows(ps, p.tree, false, lev, addr, p.l0, my, s, q);
      TurnsWider(ps, s.fs[q], lev + 1, turn, s.n, g.run.n, s.n, h.run.n);
      PassKids(ps, g.tree, true, lev, addr, p.l1, my, g.run);
      StaysArrived(s.fs[q], g, h, lev, addr, turn, q);
    }
  }

  lemma {:induction false} StaysArrived(f: Filter, g: Grown, h: Grown, lev: nat, addr: nat, turn: nat, q: nat)
    requires lev < turn <= 32 && Arrived(f, g, lev, turn, q) && g.tree.Node? && h.tree.Node?
    requires BitAt(f.sa, lev) != 1 && h.tree.Kid(false) == g.tree.Kid(false) && Wrote(g.run, h.run, addr, lev)
    requires Waits(h.tree, q) + Count(Writes(g.run, h.run), q) == Waits(g.tree, q)
    ensures Arrived(f, h, lev, turn, q)
  {
    hide Wrote, Waits, Count, IsPrefix, Covers, BitAt;
    if turn == f.daLen {
      NotWritten(g.run, h.run, addr, lev, q);
    } else {
      OffPathWaits(h.tree, lev, turn, f.sa, q);
      OnlyDaWritten(g.run, h.run, addr, lev, q);
    }
  }

  // ---------- the second phase ----------

  /** The first turn bits are those of the source address, the next one is not. */
  predicate TurnedAway(da: nat, sa: nat, turn: nat)
    requires turn < 32
  {
    SameBits(sa, da, turn) && BitAt(da, turn) != BitAt(sa, turn)
  }

  /** The child in which the filter waits. */
  function Way(sa: nat, lev: nat, turn: nat): bool
    requires lev < 32
  {
    if lev == turn then BitAt(sa, lev) == 0 else BitAt(sa, lev) == 1
  }

  /** The filter waits off the path of its source address, and nowhere else. */
  ghost predicate Astray(t: Tree, lev: nat, addr: nat, s: Run, q: nat, turn: nat) {
    && lev <= turn < 32 && t.Node? && Fit(t, lev, LensOf(s.fs)) && IsPrefix(addr, lev)
    && q < |s.fs| && s.fs[q].sa < ADDRESSES && Covers(addr, lev, s.fs[q].sa)
    && OffPath(t, lev, turn, s.fs[q].sa, q)
  }

  lemma {:induction false} AstrayWaits(t: Tree, lev: nat, addr: nat, s: Run, q: nat, turn: nat)
    requires Astray(t, lev, addr, s, q, turn) && Waits(t, q) == 1
    ensures var way := Way(s.fs[q].sa, lev, turn);
            && Count(t.stubs, q) == 0 && Waits(t.Kid(way), q) == 1 && Waits(t.Kid(!way), q) == 0
            && HasStubs(t.Kid(way))
  {
    hide Fit, IsPrefix, Covers, Count, BitAt, HasStubs;
    var sa, way := s.fs[q].sa, Way(s.fs[q].sa, lev, turn);
    if lev == turn {
      TurnedWaits(t, lev, sa, q);
    } else {
      OffPathWaits(t.Kid(way), lev + 1, turn, sa, q);
    }
    if !HasStubs(t.Kid(way)) { NoStubs(t.Kid(way), q); }
  }

  lemma {:induction false} FinishTurns(ps: Params, t: Tree, lev: nat, addr: nat, flist: seq<nat>, cur: int, s: Run,
                                       q: nat, turn: nat)
    requires Astray(t, lev, addr, s, q, turn) && Waits(t, q) == 1
    requires EndBelow(flist, LensOf(s.fs), lev) && Count(flist, q) == 0
    ensures var r := Finish(ps, t, lev, addr, flist, cur, s);
            q < |r.fs| && TurnedAway(r.fs[q].da, s.fs[q].sa, turn)
    decreases 33 - lev, 3
  {
    hide Wrote, EndBelow, IsPrefix, Covers, Waits, Fit, Count, Entered, FinishDown, LensOf, Reject, Select, TurnedAway;
    hide OffPath, Way;
    AstrayWaits(t, lev, addr, s, q, turn);
    var l := flist + t.stubs;
    var rest := Reject(l, s.fs, Destination, lev);
    var s1 := Entered(s, l, lev, addr);
    CountJoins(flist, t.stubs, q);
    OrBareFits(t, flist, lev, LensOf(s.fs), q);
    EnterWrites(s, l, lev, addr, q);
    WroteLens(s, s1, addr, lev);
    NotWritten(s, s1, addr, lev, q);
    var t1 := if Select(l, s.fs, Destination, lev) != [] then t.Marked() else t;
    ValidFits(t, lev, LensOf(s.fs), q);
    MarkedIsAstray(t, lev, addr, s1, q, turn);
    var my := if t1.valid then cur + 1 else cur;
    var below := Select(l, s.fs, Destination, lev + 1) != [];
    DownTurns(ps, t1, lev, addr, rest, below, my, s1, q, turn);
  }

  lemma {:induction false} MarkedIsAstray(t: Tree, lev: nat, addr: nat, s: Run, q: nat, turn: nat)
    requires Astray(t, lev, addr, s, q, turn)
    ensures Astray(t.Marked(), lev, addr, s, q, turn)
  {
  }

  lemma {:induction false} DownTurns(ps: Params, t: Tree, lev: nat, addr: nat, l: seq<nat>, below: bool, my: int,
                                     s: Run, q: nat, turn: nat)
    requires Astray(t, lev, addr, s, q, turn) && Waits(t, q) == 1
    requires EndBelow(l, LensOf(s.fs), lev + 1) && Count(l, q) == 0
    ensures var r := FinishDown(ps, t, lev, addr, l, below, my, s);
            q < |r.fs| && TurnedAway(r.fs[q].da, s.fs[q].sa, turn)
    decreases 33 - lev, 2
  {
    hide Wrote, EndBelow, IsPrefix, Covers, Waits, Fit, Count, FinishKid, Choose, LensOf, TurnedAway, OffPath, Way;
    var sh := Choose(ps, t, lev, l, below, my, s.fs, s.n);
    ChooseShares(ps, t, lev, l, below, my, s.fs, s.n, q);
    AstrayWaits(t, lev, addr, s, q, turn);
    var way := Way(s.fs[q].sa, lev, turn);
    var s1 := s.(n := sh.n);
    var s2 := FinishKid(ps, t, sh.firstOne, lev, addr, sh, my, s1);
    FinishKidConserves(ps, t, sh.firstOne, lev, addr, sh, l, my, s1, q);
    WroteLens(s1, s2, addr, lev);
    OnlyDaWritten(s1, s2, addr, lev, q);
    FinishKidConserves(ps, t, !sh.firstOne, lev, addr, sh, l, my, s2, q);
    if sh.firstOne == way {
      KidTurns(ps, t, lev, addr, sh, l, my, s1, q, turn);
      NotWritten(s2, FinishKid(ps, t, !sh.firstOne, lev, addr, sh, my, s2), addr, lev, q);
    } else {
      NotWritten(s1, s2, addr, lev, q);
      KidTurns(ps, t, lev, addr, sh, l, my, s2, q, turn);
    }
  }

  lemma {:induction false} KidTurns(ps: Params, t: Tree, lev: nat, addr: nat, sh: Shares, l: seq<nat>, my: int, s: Run,
                                    q: nat, turn: nat)
    requires Astray(t, lev, addr, s, q, turn) && Waits(t, q) == 1
    requires SharesOut(sh, t, l, lev + 1, LensOf(s.fs), q) && Count(l, q) == 0
    ensures var r := FinishKid(ps, t, Way(s.fs[q].sa, lev, turn), lev, addr, sh, my, s);
            q < |r.fs| && TurnedAway(r.fs[q].da, s.fs[q].sa, turn)
    decreases 33 - lev, 1
  {
    hide Wrote, EndBelow, IsPrefix, Covers, Waits, Fit, Count, Finish, LensOf, KidAddr, BitAt, HasStubs;
    hide OffPath, TurnedAway;
    AstrayWaits(t, lev, addr, s, q, turn);
    var way := Way(s.fs[q].sa, lev, turn);
    KidAddresses(addr, lev, way);
    KidIsFit(t, lev, addr, s, q, turn);
    var r := Finish(ps, t.Kid(way), lev + 1, KidAddr(addr, lev, way), sh.List(way), my, s);
    FinishConserves(ps, t.Kid(way), lev + 1, KidAddr(addr, lev, way), sh.List(way), my, s, q);
    OnlyDaWritten(s, r, KidAddr(addr, lev, way), lev + 1, q);
    if lev == turn {
      WrittenThere(s, r, addr, lev, q);
    } else {
      FinishTurns(ps, t.Kid(way), lev + 1, KidAddr(addr, lev, way), sh.List(way), my, s, q, turn);
    }
  }

  lemma {:induction false} FitOfKid(t: Tree, one: bool, lev: nat, lens: seq<int>)
    requires t.Node? && Fit(t, lev, lens)
    ensures Fit(t.Kid(one), lev + 1, lens)
  {
    if t.Kid(one).Node? { assert Fit(t.Kid(one), lev + 1, lens); }
  }

  lemma {:induction false} KidIsFit(t: Tree, lev: nat, addr: nat, s: Run, q: nat, turn: nat)
    requires Astray(t, lev, addr, s, q, turn)
    ensures var way := Way(s.fs[q].sa, lev, turn);
            && Fit(t.Kid(way), lev + 1, LensOf(s.fs))
            && (lev < turn ==> Astray(t.Kid(way), lev + 1, KidAddr(addr, lev, way), s, q, turn))
  {
    hide Fit, IsPrefix, Covers, LensOf, KidAddr, BitAt;
    FitOfKid(t, Way(s.fs[q].sa, lev, turn), lev, LensOf(s.fs));
    KidAddresses(addr, lev, Way(s.fs[q].sa, lev, turn));
    BitChooses(addr, lev, s.fs[q].sa);
    if lev < turn {
      OffPathWaits(t.Kid(Way(s.fs[q].sa, lev, turn)), lev + 1, turn, s.fs[q].sa, q);
    }
  }

  lemma {:induction false} WrittenThere(s: Run, r: Run, addr: nat, lev: nat, q: nat)
    requires lev < 32 && IsPrefix(addr, lev) && q < |s.fs| && s.fs[q].sa < ADDRESSES && Covers(addr, lev, s.fs[q].sa)
    requires Wrote(s, r, KidAddr(addr, lev, BitAt(s.fs[q].sa, lev) == 0), lev + 1) && Count(Writes(s, r), q) == 1
    ensures q < |r.fs| && TurnedAway(r.fs[q].da, s.fs[q].sa, lev)
  {
    hide BitAt, KidAddr, SameBits;
    InMeansCount(Writes(s, r), q);
    BitChooses(addr, lev, s.fs[q].sa);
    assert Covers(KidAddr(addr, lev, BitAt(s.fs[q].sa, lev) == 0), lev + 1, r.fs[q].da);
  }

  // ---------- both phases ----------

  /** Filter q of the list, with a source prefix, and a nesting limit that is never reached. */
  ghost predicate Correlated(ps: Params, l: seq<nat>, s: Run, q: nat) {
    && EndBelow(l, LensOf(s.fs), 0) && ps.nest >= 34 && q < |s.fs| && Count(l, q) == 1
    && s.fs[q].sa < ADDRESSES && s.fs[q].saLen > 0
  }

  /** Whatever is drawn, a destination address follows its source address up to some level turn:
      the end of its prefix, or where the last bit of the source prefix stands, or where a number
      was drawn that breaks the correlation. There it turns away. */
  lemma {:induction false} BuiltFollows(ps: Params, l: seq<nat>, s: Run, q: nat) returns (turn: nat)
    requires Correlated(ps, l, s, q)
    ensures var f, g, r := s.fs[q], AddStub(ps, EMPTY, 0, 0, l, 0, s), Built(ps, l, s);
            && Turns(ps, f, 0, turn, s.n, g.run.n) && q < |r.fs|
            && IsPrefix(r.fs[q].da, f.daLen) && SameBits(f.sa, r.fs[q].da, turn)
            && (turn < f.daLen ==> BitAt(r.fs[q].da, turn) != BitAt(f.sa, turn))
  {
    hide Wrote, EndBelow, Fit, Waits, Count, AddStub, Finish, LensOf, IsPrefix, Covers, OffPath, BitAt, SameBits, Turns;
    var f, g := s.fs[q], AddStub(ps, EMPTY, 0, 0, l, 0, s);
    AtTheRoot(ps, l, s, q);
    turn := StubFollows(ps, EMPTY, 0, 0, l, 0, s, q);
    BuiltFits(ps, l, s);
    OnlyDaWritten(s, g.run, 0, 0, q);
    var r := Finish(ps, g.tree, 0, 0, [], 0, g.run);
    FinishConserves(ps, g.tree, 0, 0, [], 0, g.run, q);
    CountJoins([], [], q);
    BuiltPlaces(ps, l, s, q);
    TurnBound(ps, f, turn, s.n, g.run.n);
    if turn == f.daLen {
      NotWritten(g.run, r, 0, 0, q);
      CoveredBits(r.fs[q].da, turn, f.sa);
    } else {
      FinishTurns(ps, g.tree, 0, 0, [], 0, g.run, q, turn);
    }
  }

  lemma {:induction false} TurnBound(ps: Params, f: Filter, turn: nat, from: nat, to: nat)
    requires Turns(ps, f, 0, turn, from, to)
    ensures turn <= 32 && turn <= f.daLen
  {
  }

  lemma {:induction false} CoveredBits(p: nat, len: nat, x: nat)
    requires IsPrefix(p, len) && Covers(p, len, x)
    ensures SameBits(x, p, len)
  {
    ShrOfCovered(p, x, 32 - len);
  }

  lemma {:induction false} AtTheRoot(ps: Params, l: seq<nat>, s: Run, q: nat)
    requires Correlated(ps, l, s, q)
    ensures OnPath(ps, EMPTY, 0, 0, l, 0, s, q) && EndBelow([], LensOf(s.fs), 0) && IsPrefix(0, 0)
    ensures Wrote(s, AddStub(ps, EMPTY, 0, 0, l, 0, s).run, 0, 0) && Covers(0, 0, s.fs[q].sa)
  {
    hide AddStub, Wrote, Fit, Count;
    ZeroLow(32);
    AddressCount();
    EmptyFits(LensOf(s.fs));
    AddStubConserves(ps, EMPTY, 0, 0, l, 0, s, q);
    assert Waits(EMPTY, q) == 0 by { CountJoins([], [], q); }
  }

  lemma {:induction false} BuiltPlaces(ps: Params, l: seq<nat>, s: Run, q: nat)
    requires Correlated(ps, l, s, q)
    ensures var r := Built(ps, l, s); q < |r.fs| && IsPrefix(r.fs[q].da, s.fs[q].daLen)
  {
    hide Built, Count;
    BuiltConserves(ps, l, s, q);
    var r := Built(ps, l, s);
    InMeansCount(Writes(s, r), q);
    OnlyDaWritten(s, r, 0, 0, q);
  }

  /** No number breaks the correlation below level lev, or every number does. */
  ghost predicate AlwaysHolds(ps: Params, lev: nat)
    requires lev < 32
  {
    forall n: nat {:trigger ps.draw(n)} :: ps.draw(n) <= ps.corr[lev + 1]
  }

  ghost predicate AlwaysBreaks(ps: Params, lev: nat)
    requires lev < 32
  {
    forall n: nat {:trigger ps.draw(n)} :: ps.draw(n) > ps.corr[lev + 1]
  }

  lemma {:induction false} NeverBoth(ps: Params, lev: nat, from: nat, to: nat)
    requires lev < 32
    ensures AlwaysHolds(ps, lev) ==> !Broke(ps, lev, from, to)
    ensures AlwaysBreaks(ps, lev) ==> !Held(ps, lev, from, to)
  {
  }

  lemma {:induction false} TurnIs(ps: Params, f: Filter, turn: nat, lev: nat, from: nat, to: nat)
    requires Turns(ps, f, 0, turn, from, to) && lev <= f.daLen && lev <= 32
    requires (forall i :: 0 <= i < lev ==> AlwaysHolds(ps, i)) && lev < f.saLen
    requires lev == f.daLen || (lev < 32 && (AlwaysBreaks(ps, lev) || f.saLen == lev + 1))
    ensures turn == lev
  {
    hide Held, Broke, AlwaysHolds, AlwaysBreaks;
    if turn < 32 { NeverBoth(ps, turn, from, to); }
    if lev < 32 { NeverBoth(ps, lev, from, to); }
  }

  /** Where the correlation always holds and the source prefix is the longer one, the destination
      prefix is the first bits of the source address. */
  lemma {:induction false} FollowsToTheEnd(ps: Params, l: seq<nat>, s: Run, q: nat)
    requires Correlated(ps, l, s, q) && s.fs[q].saLen > s.fs[q].daLen
    requires forall i :: 0 <= i < 32 ==> AlwaysHolds(ps, i)
    ensures var f, r := s.fs[q], Built(ps, l, s);
            q < |r.fs| && 0 <= f.daLen <= 32 && IsPrefix(r.fs[q].da, f.daLen) && SameBits(f.sa, r.fs[q].da, f.daLen)
  {
    hide Built, AddStub, SameBits, BitAt, Turns, Count;
    var turn := BuiltFollows(ps, l, s, q);
    TurnBound(ps, s.fs[q], turn, s.n, AddStub(ps, EMPTY, 0, 0, l, 0, s).run.n);
    TurnIs(ps, s.fs[q], turn, s.fs[q].daLen, s.n, AddStub(ps, EMPTY, 0, 0, l, 0, s).run.n);
  }

  /** Where it first breaks below level lev, or the source prefix ends there, the destination address
      is that of the source above, and differs from it in that bit. */
  lemma {:induction false} TurnsWhereBroken(ps: Params, l: seq<nat>, s: Run, q: nat, lev: nat)
    requires Correlated(ps, l, s, q) && lev < 32 && lev < s.fs[q].daLen && lev < s.fs[q].saLen
    requires (forall i :: 0 <= i < lev ==> AlwaysHolds(ps, i)) && (AlwaysBreaks(ps, lev) || s.fs[q].saLen == lev + 1)
    ensures var f, r := s.fs[q], Built(ps, l, s);
            q < |r.fs| && IsPrefix(r.fs[q].da, f.daLen) && TurnedAway(r.fs[q].da, f.sa, lev)
  {
    hide Built, AddStub, SameBits, IsPrefix, BitAt, Turns, Count;
    var turn := BuiltFollows(ps, l, s, q);
    TurnIs(ps, s.fs[q], turn, lev, s.n, AddStub(ps, EMPTY, 0, 0, l, 0, s).run.n);
  }
}
