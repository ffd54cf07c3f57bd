/** Runs of dbintree (db_generator/dbintree.cc) that break its nesting limit, for all destination
    prefix lengths that do not guarantee it. The first phase puts filters of different lengths
    into stub lists on one path, where the second phase finds each of them alone. */
module DestOverrun {
  import opened Power
  import opened Filters
  import opened TrieNode
  import opened Nesting
  import opened DestRun
  import opened DestLimit

  // ---------- where a filter goes ----------

  /** The source prefix ends one level below, at the child that is not taken: child 1, so the
      filter goes to the stub list of child 0. */
  predicate Falls(f: Filter, lev: nat) { f.saLen == lev + 1 && Bit(f, lev) == 1 }

  /** The same for child 0, so the filter goes to the stub list of child 1. */
  predicate Leaves(f: Filter, lev: nat) { f.saLen == lev + 1 && Bit(f, lev) == 0 }

  /** The source prefix goes on to child 0. */
  predicate Follows(f: Filter, lev: nat) { f.saLen > lev + 1 && Bit(f, lev) == 0 }

  /** The elements of the list for which p holds, in order. */
  ghost function Those(l: seq<nat>, i: nat, p: nat -> bool): seq<nat>
    requires i <= |l|
  {
    if i == 0 then [] else if p(l[i - 1]) then Those(l, i - 1, p) + [l[i - 1]] else Those(l, i - 1, p)
  }

  lemma {:induction false} ThoseMembers(l: seq<nat>, i: nat, p: nat -> bool)
    requires i <= |l|
    ensures forall q :: q in Those(l, i, p) <==> q in l[..i] && p(q)
  {
    if i > 0 {
      ThoseMembers(l, i - 1, p);
      assert l[..i] == l[..i - 1] + [l[i - 1]];
    }
  }

  /** If p holds of one element only. */
  lemma {:induction false} ThoseFew(l: seq<nat>, i: nat, p: nat -> bool, k: nat)
    requires i <= |l| && NoDup(l) && forall q :: q in l && p(q) ==> q == k
    ensures |Those(l, i, p)| <= if k in l[..i] then 1 else 0
  {
    if i > 0 {
      ThoseFew(l, i - 1, p, k);
      assert l[..i] == l[..i - 1] + [l[i - 1]];
      assert l[i - 1] !in l[..i - 1];
      assert l[i - 1] in l;
    }
  }

  ghost function Falling(fs: seq<Filter>, l: seq<nat>, i: nat, lev: nat): seq<nat>
    requires i <= |l|
  {
    Those(l, i, (q: nat) => q < |fs| && Falls(fs[q], lev))
  }

  ghost function Leaving(fs: seq<Filter>, l: seq<nat>, i: nat, lev: nat): seq<nat>
    requires i <= |l|
  {
    Those(l, i, (q: nat) => q < |fs| && Leaves(fs[q], lev))
  }

  ghost function Following(fs: seq<Filter>, l: seq<nat>, i: nat, lev: nat): seq<nat>
    requires i <= |l|
  {
    Those(l, i, (q: nat) => q < |fs| && Follows(fs[q], lev))
  }

  /** A child that has only stubs. */
  function StubNode(stubs: seq<nat>): Tree { if stubs == [] then Nil else EMPTY.Keep(stubs) }

  /** A childless node after its filters went to stub lists of the children. */
  ghost function WithStubs(t: Tree, a: seq<nat>, b: seq<nat>): Tree
    requires t.Node?
  {
    t.(c0 := StubNode(a), c1 := StubNode(b), wt0 := |a|, wt1 := |b|)
  }

  /** Parameters for which correlation always continues and a node with a free side has one child,
      whatever numbers from 0 to 1 are drawn. */
  ghost predicate Calm(ps: Params) {
    && (forall i :: 0 <= i < 33 ==> ps.corr[i] == 1.0 == ps.p1child[i])
    && (forall n: nat :: 0.0 <= ps.draw(n) < 1.0)
  }

  lemma {:induction false} SpreadLeft(ps: Params, lev: nat, fs: seq<Filter>, l: seq<nat>, i: nat, t: Tree, n: nat)
    requires Calm(ps)
    requires lev < 32 && i <= |l| && Childless(t)
    requires forall q :: q in l ==> q < |fs| && (Falls(fs[q], lev) || Leaves(fs[q], lev) || Follows(fs[q], lev))
    ensures var p := SpreadTo(ps, lev, fs, l, i, t, n);
            && p.tree == WithStubs(t, Falling(fs, l, i, lev), Leaving(fs, l, i, lev))
            && p.l0 == Following(fs, l, i, lev) && p.l1 == []
  {
    hide Bit, Falls, Leaves, Follows, Place, WithStubs;
    if i > 0 {
      SpreadLeft(ps, lev, fs, l, i - 1, t, n);
      assert l[i - 1] in l;
      PlaceLeft(ps, lev, fs, l[i - 1], SpreadTo(ps, lev, fs, l, i - 1, t, n), t,
                Falling(fs, l, i - 1, lev), Leaving(fs, l, i - 1, lev));
    } else {
      assert WithStubs(t, [], []) == t by { NoStubsThere(t); }
    }
  }

  lemma {:induction false} NoStubsThere(t: Tree)
    requires Childless(t)
    ensures WithStubs(t, [], []) == t
  {
  }

  lemma {:induction false} PushStubs(t: Tree, a: seq<nat>, b: seq<nat>, f: nat)
    requires t.Node?
    ensures WithStubs(t, a, b).Pushed(false, f) == WithStubs(t, a + [f], b)
    ensures WithStubs(t, a, b).Pushed(true, f) == WithStubs(t, a, b + [f])
  {
    hide StubNode;
    StubNodeGrows(a, f);
    StubNodeGrows(b, f);
  }

  lemma {:induction false} StubNodeGrows(stubs: seq<nat>, f: nat)
    ensures OrBare(StubNode(stubs)).Stub(f) == StubNode(stubs + [f])
  {
    assert [] + stubs + [f] == [] + (stubs + [f]);
    assert [] + [f] == [f];
  }

  /** Where one filter goes. */
  lemma {:induction false} PlaceLeft(ps: Params, lev: nat, fs: seq<Filter>, f: nat, p: Spread, t: Tree, a: seq<nat>,
                                     b: seq<nat>)
    requires Calm(ps)
    requires lev < 32 && t.Node? && p.tree == WithStubs(t, a, b) && f < |fs|
    requires Falls(fs[f], lev) || Leaves(fs[f], lev) || Follows(fs[f], lev)
    ensures var r := Place(ps, lev, fs, f, p);
            && r.tree == WithStubs(t, if Falls(fs[f], lev) then a + [f] else a,
                                   if Leaves(fs[f], lev) then b + [f] else b)
            && r.l0 == (if Follows(fs[f], lev) then p.l0 + [f] else p.l0) && r.l1 == p.l1
  {
    hide Bit, WithStubs, Tree.Pushed;
    PushStubs(t, a, b, f);
    assert ps.corr[lev + 1] == 1.0;
  }

  // ---------- paths to the left ----------

  /** A tree in which the second phase goes to child 0 only: at no node more than one filter of
      its list goes on, and none goes on where the tree ends. */
  ghost predicate Slim(t: Tree, lev: nat, inc: seq<nat>, fs: seq<Filter>) {
    if t.Nil? then inc == []
    else
      var rest := Reject(inc + t.stubs, fs, Destination, lev);
      && t.c1.Nil? && t.wt1 == 0 && (t.c0.Nil? <==> t.wt0 == 0)
      && |rest| <= 1 && Slim(t.c0, lev + 1, rest, fs)
  }

  lemma {:induction false} RejectShrinks(l: seq<nat>, i: nat, fs: seq<Filter>, lev: nat)
    requires i <= |l|
    ensures |RejectTo(l, i, fs, Destination, lev)| <= i
  {
    if i > 0 { RejectShrinks(l, i - 1, fs, lev); }
  }

  /** Filters that end here do not go on. */
  lemma {:induction false} RejectJoins(a: seq<nat>, b: seq<nat>, i: nat, fs: seq<Filter>, lev: nat)
    requires i <= |b| && AllAt(fs, b, Destination, lev)
    ensures RejectTo(a + b, |a| + i, fs, Destination, lev) == Reject(a, fs, Destination, lev)
  {
    if i > 0 {
      RejectJoins(a, b, i - 1, fs, lev);
      assert (a + b)[|a| + i - 1] == b[i - 1];
      assert b[i - 1] in b;
    } else {
      RejectPrefix(a, b, |a|, fs, lev);
    }
  }

  lemma {:induction false} RejectPrefix(a: seq<nat>, b: seq<nat>, i: nat, fs: seq<Filter>, lev: nat)
    requires i <= |a|
    ensures RejectTo(a + b, i, fs, Destination, lev) == RejectTo(a, i, fs, Destination, lev)
  {
    if i > 0 { RejectPrefix(a, b, i - 1, fs, lev); }
  }

  /** A child that has stubs which all end there. */
  lemma {:induction false} SlimStubs(stubs: seq<nat>, lev: nat, fs: seq<Filter>)
    requires AllAt(fs, stubs, Destination, lev)
    ensures Slim(StubNode(stubs), lev, [], fs)
  {
    RejectJoins([], stubs, |stubs|, fs, lev);
    if stubs != [] {
      var t := StubNode(stubs);
      assert t.stubs == stubs;
      assert Slim(t.c0, lev + 1, Reject([] + t.stubs, fs, Destination, lev), fs);
    }
  }

  /** The filters of rest end below level lev, and above some filter of l. */
  ghost predicate Led(fs: seq<Filter>, rest: seq<nat>, l: seq<nat>, lev: nat) {
    forall b :: b in rest ==>
      b < |fs| && lev < fs[b].daLen && exists c :: c in l && c < |fs| && fs[b].daLen < fs[c].daLen
  }

  lemma {:induction false} LedOn(fs: seq<Filter>, rest: seq<nat>, l: seq<nat>, lev: nat)
    requires Led(fs, rest, l, lev)
    ensures Led(fs, Reject(rest, fs, Destination, lev + 1), l, lev + 1)
  {
    SelectMembers(rest, |rest|, fs, Destination, lev + 1);
    assert rest[..|rest|] == rest;
  }

  /** The filters that lead follow the path themselves. */
  lemma {:induction false} LedFollows(fs: seq<Filter>, rest: seq<nat>, l: seq<nat>, lev: nat)
    requires Led(fs, rest, l, lev)
    requires forall q :: q in l ==> q < |fs| && Direct(fs[q]) && fs[q].daLen > lev
    ensures Led(fs, rest, Following(fs, l, |l|, lev), lev)
  {
    hide Direct, Follows;
    ThoseMembers(l, |l|, (q: nat) => q < |fs| && Follows(fs[q], lev));
    assert l[..|l|] == l;
    forall b | b in rest
      ensures exists c :: c in Following(fs, l, |l|, lev) && c < |fs| && fs[b].daLen < fs[c].daLen
    {
      var c :| c in l && c < |fs| && fs[b].daLen < fs[c].daLen;
      DirectGoes(fs[c], lev);
      assert c in Following(fs, l, |l|, lev);
    }
  }

  lemma {:induction false} LedByNone(fs: seq<Filter>, rest: seq<nat>, lev: nat)
    requires Led(fs, rest, [], lev)
    ensures rest == []
  {
    FirstIn(rest);
  }

  /** A filter whose source prefix is as long as its destination prefix and ends in its only one
      bit: it falls into the stub list of its own level. */
  predicate Direct(f: Filter) {
    1 <= f.daLen <= 32 && f.saLen == f.daLen && f.sa == Pow2(32 - f.daLen)
  }

  lemma {:induction false} DirectGoes(f: Filter, lev: nat)
    requires Direct(f) && lev < f.daLen
    ensures if f.daLen == lev + 1 then Falls(f, lev) else Follows(f, lev)
  {
    ShlPow(32 - f.daLen, lev);
    ShrPow(32 - f.daLen + lev, 31);
  }

  lemma {:induction false} ShlPow(j: nat, k: nat)
    requires j + k < 32
    ensures Shl(Pow2(j), k) == Pow2(j + k)
  {
    if k > 0 {
      ShlPow(j, k - 1);
      AddressCount();
      Pow2Monotone(j + k, 31);
      assert Pow2(32) == 2 * Pow2(31);
    }
  }

  lemma {:induction false} ShrPow(j: nat, k: nat)
    requires j <= k
    ensures Shr(Pow2(j), k) == if j == k then 1 else 0
  {
    if j == 0 {
      if k > 0 { ShrZero(k - 1); }
    } else {
      ShrPow(j - 1, k - 1);
    }
  }

  lemma {:induction false} ShrZero(k: nat)
    ensures Shr(0, k) == 0
  {
    if k > 0 { ShrZero(k - 1); }
  }

  /** The first phase with such filters: a slim tree, and nothing is written. */
  lemma {:induction false} StubDirect(ps: Params, t: Tree, lev: nat, l: seq<nat>, inc: seq<nat>, cur: int, s: Run)
    requires Calm(ps)
    requires lev < 32 && Childless(t) && !t.valid && (cur < ps.nest - 1 || |l| <= 1)
    requires forall q :: q in l ==> q < |s.fs| && Direct(s.fs[q]) && s.fs[q].daLen > lev
    requires var rest := Reject(inc + t.stubs, s.fs, Destination, lev); |rest| <= 1 && Led(s.fs, rest, l, lev)
    ensures var r := AddStub(ps, t, lev, 0, l, cur, s);
            r.run.fs == s.fs && r.run.log == s.log && Slim(r.tree, lev, inc, s.fs)
    decreases 32 - lev
  {
    hide Direct, Falls, Follows, Leaves, Select, Reject, Assigned, SpreadTo, Pass, Falling, Following, Leaving,
      StubNode, Slim, Led;
    NothingHere(s, l, lev, 0);
    DirectSplit(s.fs, l, lev);
    LedFollows(s.fs, Reject(inc + t.stubs, s.fs, Destination, lev), l, lev);
    SpreadLeft(ps, lev, s.fs, l, |l|, t, s.n);
    var p := SpreadTo(ps, lev, s.fs, l, |l|, t, s.n);
    var a := Falling(s.fs, l, |l|, lev);
    StubNodes(a);
    StubNodes([]);
    PassLeft(ps, p.tree, a, lev, p.l0, inc, t.stubs, cur, s.(n := p.n));
  }

  lemma {:induction false} StubNodes(stubs: seq<nat>)
    ensures StubNode([]).Nil? && (StubNode(stubs).Nil? <==> stubs == [])
  {
  }

  /** Of filters that fall or follow, those that fall end one level below. */
  lemma {:induction false} DirectSplit(fs: seq<Filter>, l: seq<nat>, lev: nat)
    requires forall q :: q in l ==> q < |fs| && Direct(fs[q]) && fs[q].daLen > lev
    ensures NoneAt(fs, l, Destination, lev)
    ensures forall q :: q in l ==> q < |fs| && (Falls(fs[q], lev) || Leaves(fs[q], lev) || Follows(fs[q], lev))
    ensures Leaving(fs, l, |l|, lev) == [] && AllAt(fs, Falling(fs, l, |l|, lev), Destination, lev + 1)
    ensures forall q :: q in Following(fs, l, |l|, lev) ==> q < |fs| && Direct(fs[q]) && fs[q].daLen > lev + 1
    ensures |Following(fs, l, |l|, lev)| <= |l|
  {
    hide Direct, Bit;
    forall q | q in l
      ensures if fs[q].daLen == lev + 1 then Falls(fs[q], lev) else Follows(fs[q], lev)
    {
      DirectGoes(fs[q], lev);
    }
    ThoseMembers(l, |l|, (q: nat) => q < |fs| && Falls(fs[q], lev));
    ThoseMembers(l, |l|, (q: nat) => q < |fs| && Leaves(fs[q], lev));
    ThoseMembers(l, |l|, (q: nat) => q < |fs| && Follows(fs[q], lev));
    ThoseFit(l, |l|, (q: nat) => q < |fs| && Follows(fs[q], lev));
    assert l[..|l|] == l;
    FirstIn(Leaving(fs, l, |l|, lev));
  }

  lemma {:induction false} ThoseFit(l: seq<nat>, i: nat, p: nat -> bool)
    requires i <= |l|
    ensures |Those(l, i, p)| <= i
  {
    if i > 0 { ThoseFit(l, i - 1, p); }
  }

  /** The filters that follow go down to child 0. */
  lemma {:induction false} PassLeft(ps: Params, t: Tree, a: seq<nat>, lev: nat, l: seq<nat>, inc: seq<nat>,
                                    stubs: seq<nat>, cur: int, s: Run)
    requires Calm(ps)
    requires lev < 32 && t.Node? && t.c0 == StubNode(a) && t.wt0 == |a| && t.c1.Nil? && t.wt1 == 0 && t.stubs == stubs
    requires cur < ps.nest - 1 || |l| <= 1
    requires forall q :: q in l ==> q < |s.fs| && Direct(s.fs[q]) && s.fs[q].daLen > lev + 1
    requires AllAt(s.fs, a, Destination, lev + 1)
    requires var rest := Reject(inc + stubs, s.fs, Destination, lev); |rest| <= 1 && Led(s.fs, rest, l, lev)
    ensures var g := Pass(ps, t, false, lev, 0, l, cur, s);
            && g.run.fs == s.fs && g.run.log == s.log && Slim(g.tree, lev, inc, s.fs)
            && Pass(ps, g.tree, true, lev, 0, [], cur, g.run) == g
    decreases 32 - lev, 0
  {
    hide Direct, AddStub, Addr0, Reject, Led;
    var rest := Reject(inc + stubs, s.fs, Destination, lev);
    if l == [] {
      LedByNone(s.fs, rest, lev);
      SlimStubs(a, lev + 1, s.fs);
    } else {
      var q := l[0];
      assert q in l;
      assert s.fs[q].daLen <= 32 by { DirectLength(s.fs[q]); }
      ZeroPath(lev);
      var kid := t.Weighted(false, |l|).c0;
      KidOfStubs(a);
      assert kid == EMPTY.Keep(a) && kid.stubs == a;
      OneStays(rest, a, s.fs, lev + 1);
      LedOn(s.fs, rest, l, lev);
      StubDirect(ps, kid, lev + 1, l, rest, cur, s);
    }
  }

  lemma {:induction false} OneStays(a: seq<nat>, b: seq<nat>, fs: seq<Filter>, lev: nat)
    requires |a| <= 1 && AllAt(fs, b, Destination, lev)
    ensures |Reject(a + b, fs, Destination, lev)| <= 1
    ensures Reject(a + b, fs, Destination, lev) == Reject(a, fs, Destination, lev)
  {
    RejectJoins(a, b, |b|, fs, lev);
    RejectShrinks(a, |a|, fs, lev);
  }

  lemma {:induction false} DirectLength(f: Filter)
    requires Direct(f)
    ensures f.daLen <= 32
  {
  }

  lemma {:induction false} KidOfStubs(a: seq<nat>)
    ensures OrBare(StubNode(a)) == EMPTY.Keep(a) && EMPTY.Keep(a).stubs == a
  {
    assert [] + a == a;
  }

  lemma {:induction false} ZeroPath(lev: nat)
    requires lev < 32
    ensures KidAddr(0, lev, false) == 0 && IsPrefix(0, lev)
  {
    ZeroLow(32 - lev);
    ChildAddresses(0, lev);
  }

  // ---------- the second phase on a slim tree ----------

  /** Only zero addresses were written. */
  ghost predicate WroteZeros(s: Run, s': Run) {
    && s.log <= s'.log && |s'.fs| == |s.fs|
    && (forall i :: 0 <= i < |s.fs| ==> s'.fs[i] == s.fs[i] || s'.fs[i] == s.fs[i].(da := 0))
    && (forall q :: q in Writes(s, s') && q < |s.fs| ==> s'.fs[q].da == 0)
  }

  lemma {:induction false} ZerosBoth(s: Run, s1: Run, s2: Run)
    requires WroteZeros(s, s1) && WroteZeros(s1, s2)
    ensures WroteZeros(s, s2)
  {
    assert Writes(s, s2) == Writes(s, s1) + Writes(s1, s2);
  }

  lemma {:induction false} ZerosEntered(s: Run, l: seq<nat>, lev: nat)
    ensures WroteZeros(s, Entered(s, l, lev, 0))
  {
    AssignedIs(s.fs, l, |l|, Destination, lev, 0);
    SelectMembers(l, |l|, s.fs, Destination, lev);
    assert Writes(s, Entered(s, l, lev, 0)) == Select(l, s.fs, Destination, lev);
  }

  lemma {:induction false} RejectSame(l: seq<nat>, i: nat, fs: seq<Filter>, fs': seq<Filter>, lev: nat)
    requires i <= |l| && |fs| == |fs'| && forall k :: 0 <= k < |fs| ==> fs'[k].daLen == fs[k].daLen
    ensures RejectTo(l, i, fs', Destination, lev) == RejectTo(l, i, fs, Destination, lev)
  {
    if i > 0 { RejectSame(l, i - 1, fs, fs', lev); }
  }

  lemma {:induction false} SlimSame(t: Tree, lev: nat, inc: seq<nat>, fs: seq<Filter>, fs': seq<Filter>)
    requires Slim(t, lev, inc, fs) && |fs| == |fs'| && forall k :: 0 <= k < |fs| ==> fs'[k].daLen == fs[k].daLen
    ensures Slim(t, lev, inc, fs')
  {
    if t.Node? {
      RejectSame(inc + t.stubs, |inc + t.stubs|, fs, fs', lev);
      SlimSame(t.c0, lev + 1, Reject(inc + t.stubs, fs, Destination, lev), fs, fs');
    }
  }

  lemma {:induction false} SlimBare(t: Tree, lev: nat, inc: seq<nat>, fs: seq<Filter>)
    requires Slim(t, lev, inc, fs)
    ensures Slim(OrBare(t), lev, inc, fs)
  {
    assert inc == [] ==> inc + EMPTY.stubs == [];
  }

  /** The second phase follows a slim tree to the left and writes zeros only. */
  lemma {:induction false} FinishLeft(ps: Params, t: Tree, lev: nat, inc: seq<nat>, cur: int, s: Run)
    requires Calm(ps)
    requires lev <= 32 && Slim(t, lev, inc, s.fs)
    ensures WroteZeros(s, Finish(ps, t, lev, 0, inc, cur, s))
    decreases 33 - lev, 1
  {
    hide FinishDown, Select, Assigned, WroteZeros;
    SlimBare(t, lev, inc, s.fs);
    var t0 := OrBare(t);
    var l := inc + t0.stubs;
    var s1 := Entered(s, l, lev, 0);
    ZerosEntered(s, l, lev);
    ZerosLens(s, s1);
    if lev < 32 {
      var t1 := if Select(l, s.fs, Destination, lev) != [] then t0.Marked() else t0;
      var my := if t1.valid then cur + 1 else cur;
      var rest, below := Reject(l, s.fs, Destination, lev), Select(l, s.fs, Destination, lev + 1) != [];
      SlimSame(t0.c0, lev + 1, rest, s.fs, s1.fs);
      DownLeft(ps, t1, lev, rest, below, my, s1);
      ZerosBoth(s, s1, FinishDown(ps, t1, lev, 0, rest, below, my, s1));
    }
  }

  lemma {:induction false} ZerosLens(s: Run, s': Run)
    requires WroteZeros(s, s')
    ensures |s'.fs| == |s.fs| && forall k :: 0 <= k < |s.fs| ==> s'.fs[k].daLen == s.fs[k].daLen
  {
  }

  lemma {:induction false} DownLeft(ps: Params, t: Tree, lev: nat, l: seq<nat>, below: bool, my: int, s: Run)
    requires Calm(ps)
    requires lev < 32 && t.Node? && t.c1.Nil? && t.wt1 == 0 && (t.c0.Nil? <==> t.wt0 == 0) && |l| <= 1
    requires Slim(t.c0, lev + 1, l, s.fs)
    ensures WroteZeros(s, FinishDown(ps, t, lev, 0, l, below, my, s))
    decreases 33 - lev, 0
  {
    hide Choose, Finish;
    var sh := Choose(ps, t, lev, l, below, my, s.fs, s.n);
    ChooseLeft(ps, t, lev, l, below, my, s.fs, s.n);
    var s1 := s.(n := sh.n);
    ZeroPath(lev);
    assert FinishBoth(ps, t, lev, 0, sh, my, s1) == FinishKid(ps, t, false, lev, 0, sh, my, s1);
    if sh.go0 {
      FinishLeft(ps, t.c0, lev + 1, l, my, s1);
      ZerosFrom(s, sh.n, Finish(ps, t.c0, lev + 1, 0, l, my, s1));
    } else {
      assert Writes(s, s1) == [];
    }
  }

  lemma {:induction false} ZerosFrom(s: Run, n: nat, s': Run)
    requires WroteZeros(s.(n := n), s')
    ensures WroteZeros(s, s')
  {
    assert Writes(s, s') == Writes(s.(n := n), s');
  }

  lemma {:induction false} ChooseLeft(ps: Params, t: Tree, lev: nat, l: seq<nat>, below: bool, my: int,
                                      fs: seq<Filter>, n: nat)
    requires Calm(ps)
    requires lev < 32 && t.Node? && t.c1.Nil? && t.wt1 == 0 && (t.c0.Nil? <==> t.wt0 == 0) && |l| <= 1
    requires l != [] ==> t.c0.Node?
    ensures var sh := Choose(ps, t, lev, l, below, my, fs, n); sh.l0 == l && !sh.go1 && !sh.firstOne
  {
    hide BySkew, ByEnd;
    assert ps.p1child[lev] == 1.0;
  }

  // ---------- a whole run ----------

  /** Sources of the filters below the root for which the first phase leaves a slim tree at child
      0, and some filters in the stub list of child 1; z prefixes end at the root. */
  ghost predicate GoesLeft(fs: seq<Filter>, rest: seq<nat>, z: nat, nest: int) {
    && (forall q :: q in rest ==>
          q < |fs| && (Falls(fs[q], 0) || Leaves(fs[q], 0) || (Follows(fs[q], 0) && Direct(fs[q]) && fs[q].daLen > 1)))
    && (z < nest - 1 || (NoneAt(fs, rest, Destination, 1) && |Following(fs, rest, |rest|, 0)| <= 1))
    && var fallen := Reject(Falling(fs, rest, |rest|, 0), fs, Destination, 1);
       |fallen| <= 1 && Led(fs, fallen, Following(fs, rest, |rest|, 0), 1)
  }

  ghost function RootStubs(fs: seq<Filter>, l: seq<nat>): seq<nat> { Leaving(fs, l, |l|, 0) }

  /** What the first phase leaves at the root: a slim tree at child 0, stubs at child 1. */
  ghost predicate SlimRoot(g: Grown, fs: seq<Filter>, stubs: seq<nat>) {
    && g.tree.Node? && g.tree.stubs == [] && g.tree.c1 == StubNode(stubs) && g.tree.wt1 == |stubs|
    && (g.tree.c0.Nil? <==> g.tree.wt0 == 0) && Slim(g.tree.c0, 1, [], fs)
    && g.run.fs == fs
  }

  lemma {:induction false} RootGrows(ps: Params, l: seq<nat>, s: Run)
    requires Calm(ps)
    requires NoDup(l) && EndBelow(l, LensOf(s.fs), 0)
    requires var here, rest := Select(l, s.fs, Destination, 0), Reject(l, s.fs, Destination, 0);
             GoesLeft(Entered(s, l, 0, 0).fs, rest, if here != [] then 1 else 0, ps.nest)
    ensures var g, s1 := AddStub(ps, EMPTY, 0, 0, l, 0, s), Entered(s, l, 0, 0);
            var rest := Reject(l, s.fs, Destination, 0);
            SlimRoot(g, s1.fs, RootStubs(s1.fs, rest)) && g.run.log == s1.log
  {
    hide Direct, Falls, Follows, Leaves, Select, Reject, Entered, GoDown, Slim, NoDup, EndBelow, LensOf, IsPrefix,
      StubNode, Following, RootStubs;
    var here, rest := Select(l, s.fs, Destination, 0), Reject(l, s.fs, Destination, 0);
    var s1 := Entered(s, l, 0, 0);
    var t := if here != [] then EMPTY.Marked() else EMPTY;
    ZeroLow(32);
    assert IsPrefix(0, 0) by { ZeroPath(0); }
    AfterEntering(s, l, 0, 0);
    FollowingFits(s1.fs, rest);
    DownFromRoot(ps, t, rest, if here != [] then 1 else 0, s1);
  }

  lemma {:induction false} FollowingFits(fs: seq<Filter>, l: seq<nat>)
    ensures |Following(fs, l, |l|, 0)| <= |l|
  {
    ThoseFit(l, |l|, (q: nat) => q < |fs| && Follows(fs[q], 0));
  }

  lemma {:induction false} DownFromRoot(ps: Params, t: Tree, rest: seq<nat>, z: nat, s: Run)
    requires Calm(ps)
    requires Childless(t) && t.stubs == [] && GoesLeft(s.fs, rest, z, ps.nest)
    ensures var g := GoDown(ps, t, 0, 0, rest, z, s);
            SlimRoot(g, s.fs, RootStubs(s.fs, rest)) && g.run.log == s.log
  {
    hide Direct, Falls, Follows, Leaves, Reject, SpreadTo, Pass, Falling, Following, Leaving, StubNode, Slim, Led;
    var p := SpreadTo(ps, 0, s.fs, rest, |rest|, t, s.n);
    SpreadLeft(ps, 0, s.fs, rest, |rest|, t, s.n);
    FollowersAreDirect(s.fs, rest);
    var s1 := s.(n := p.n);
    RootPass(ps, p.tree, Falling(s.fs, rest, |rest|, 0), p.l0, z, s1);
    PassNothing(ps, Pass(ps, p.tree, false, 0, 0, p.l0, z, s1), z);
  }

  lemma {:induction false} FollowersAreDirect(fs: seq<Filter>, rest: seq<nat>)
    requires forall q :: q in rest ==>
               q < |fs| && (Falls(fs[q], 0) || Leaves(fs[q], 0)
                   || (Follows(fs[q], 0) && Direct(fs[q]) && fs[q].daLen > 1))
    ensures forall q :: q in Following(fs, rest, |rest|, 0) ==> q < |fs| && Direct(fs[q]) && fs[q].daLen > 1
  {
    hide Direct, Bit;
    ThoseMembers(rest, |rest|, (q: nat) => q < |fs| && Follows(fs[q], 0));
    assert rest[..|rest|] == rest;
  }

  lemma {:induction false} PassNothing(ps: Params, g: Grown, z: nat)
    requires g.tree.Node?
    ensures Pass(ps, g.tree, true, 0, 0, [], z, g.run) == g
  {
  }

  /** The list for child 0 of the root. */
  lemma {:induction false} RootPass(ps: Params, t: Tree, a: seq<nat>, l: seq<nat>, z: nat, s: Run)
    requires Calm(ps)
    requires t.Node? && t.c0 == StubNode(a) && t.wt0 == |a| && (z < ps.nest - 1 || |l| <= 1)
    requires forall q :: q in l ==> q < |s.fs| && Direct(s.fs[q]) && s.fs[q].daLen > 1
    requires var rest := Reject(a, s.fs, Destination, 1); |rest| <= 1 && Led(s.fs, rest, l, 1)
    ensures var g := Pass(ps, t, false, 0, 0, l, z, s);
            && g.tree == t.(c0 := g.tree.c0, wt0 := g.tree.wt0) && (g.tree.c0.Nil? <==> g.tree.wt0 == 0)
            && Slim(g.tree.c0, 1, [], s.fs) && g.run.fs == s.fs && g.run.log == s.log
  {
    hide AddStub, Addr0, Reject, Direct, Led;
    assert [] + a == a;
    KidOfStubs(a);
    if l == [] {
      LedByNone(s.fs, Reject(a, s.fs, Destination, 1), 1);
      if a != [] {
        assert Slim(EMPTY.Keep(a).c0, 2, Reject([] + EMPTY.Keep(a).stubs, s.fs, Destination, 1), s.fs);
      }
    } else {
      ZeroPath(0);
      StubDirect(ps, t.Weighted(false, |l|).c0, 1, l, [], z, s);
    }
  }

  /** The second phase after it. */
  lemma {:induction false} RootFinishes(ps: Params, g: Grown, stubs: seq<nat>)
    requires Calm(ps)
    requires SlimRoot(g, g.run.fs, stubs) && Fit(g.tree, 0, LensOf(g.run.fs))
    ensures var r := Finish(ps, g.tree, 0, 0, [], 0, g.run);
            exists s1: Run, s2: Run :: && WroteZeros(g.run, s1) && WroteOnly(s1, s2, stubs) && r == s2
  {
    hide WroteZeros, Finish, WroteOnly, Slim, Fit, LensOf, IsPrefix;
    var t := g.tree;
    RootList(ps, t, g.run);
    var z := if t.valid then 1 else 0;
    var sh := Shares([], t.wt0 > 0, [], t.wt1 > 0, false, g.run.n);
    var s1 := FinishKid(ps, t, false, 0, 0, sh, z, g.run);
    var s2 := FinishKid(ps, t, true, 0, 0, sh, z, s1);
    ZeroPath(0);
    if t.wt0 > 0 {
      FinishLeft(ps, t.c0, 1, [], z, g.run);
    } else {
      ZerosNone(g.run);
    }
    ZerosLensOf(g.run, s1);
    RightWrites(ps, t, sh, z, s1, stubs);
  }

  lemma {:induction false} ZerosNone(s: Run)
    ensures WroteZeros(s, s)
  {
    assert Writes(s, s) == [];
  }

  lemma {:induction false} ZerosLensOf(s: Run, s': Run)
    requires WroteZeros(s, s')
    ensures LensOf(s'.fs) == LensOf(s.fs)
  {
  }

  lemma {:induction false} RootList(ps: Params, t: Tree, s: Run)
    requires t.Node? && t.stubs == []
    ensures Finish(ps, t, 0, 0, [], 0, s) ==
            FinishBoth(ps, t, 0, 0, Shares([], t.wt0 > 0, [], t.wt1 > 0, false, s.n), if t.valid then 1 else 0, s)
  {
    hide FinishBoth;
    assert [] + t.stubs == [];
    NothingHere(s, [], 0, 0);
    assert s.(n := s.n) == s;
  }

  /** Only filters of l were written. */
  ghost predicate WroteOnly(s: Run, s': Run, l: seq<nat>) {
    && s.log <= s'.log && |s'.fs| == |s.fs|
    && (forall q :: q in Writes(s, s') ==> q in l)
    && (forall q :: 0 <= q < |s.fs| && q !in l ==> s'.fs[q] == s.fs[q])
  }

  /** The second phase at child 1, which has nothing but its stubs. */
  lemma {:induction false} RightWrites(ps: Params, t: Tree, sh: Shares, my: int, s: Run, stubs: seq<nat>)
    requires t.Node? && t.c1 == StubNode(stubs) && sh.List(true) == [] && Fit(t, 0, LensOf(s.fs))
    ensures WroteOnly(s, FinishKid(ps, t, true, 0, 0, sh, my, s), stubs)
  {
    hide Finish, LensOf, Fit, KidAddr, Wrote, IsPrefix;
    var r := FinishKid(ps, t, true, 0, 0, sh, my, s);
    if sh.Go(true) {
      var addr := KidAddr(0, 0, true);
      RightFits(t, LensOf(s.fs));
      FinishConserves(ps, t.c1, 1, addr, [], my, s, 0);
      WroteExtends(s, r, addr, 1);
      forall q: nat
        ensures Count(Writes(s, r), q) == Count(stubs, q)
      {
        FinishConserves(ps, t.c1, 1, addr, [], my, s, q);
        StubsWait(stubs, q);
      }
      SameMembers(s, r, stubs, addr, 1);
      forall q | q in Writes(s, r)
        ensures q in stubs
      {
        assert Count(Writes(s, r), q) == Count(stubs, q);
      }
    }
  }

  lemma {:induction false} RightFits(t: Tree, lens: seq<int>)
    requires t.Node? && Fit(t, 0, lens)
    ensures Fit(t.c1, 1, lens) && EndBelow([], lens, 1) && IsPrefix(KidAddr(0, 0, true), 1)
  {
    ZeroPath(0);
    ChildAddresses(0, 0);
  }

  lemma {:induction false} StubsWait(stubs: seq<nat>, q: nat)
    ensures Waits(StubNode(stubs), q) + Count([], q) == Count(stubs, q)
  {
    assert [] + stubs == stubs;
    CountJoins([], [], q);
  }

  /** The whole run: every filter of the list, except those in the stub list of child 1, gets the
      address zero. */
  lemma {:induction false} LeftRun(ps: Params, l: seq<nat>, s: Run)
    requires Calm(ps)
    requires NoDup(l) && EndBelow(l, LensOf(s.fs), 0)
    requires var here, rest := Select(l, s.fs, Destination, 0), Reject(l, s.fs, Destination, 0);
             GoesLeft(Entered(s, l, 0, 0).fs, rest, if here != [] then 1 else 0, ps.nest)
    ensures var r := Built(ps, l, s);
            forall q :: q in l && q < |s.fs| && (s.fs[q].daLen == 0 || !Leaves(s.fs[q], 0)) ==>
                q < |r.fs| && r.fs[q].da == 0
  {
    hide GoesLeft, AddStub, Finish, SlimRoot, WroteZeros, WroteOnly, LensOf, EndBelow, Fit, Leaves, Wrote, Built;
    hide NoDup, Assigned, Select, Reject, RootStubs, Count;
    var rest := Reject(l, s.fs, Destination, 0);
    var s0 := Entered(s, l, 0, 0);
    var g := AddStub(ps, EMPTY, 0, 0, l, 0, s);
    RootGrows(ps, l, s);
    RunFits(ps, l, s, g, s0.fs, RootStubs(s0.fs, rest));
    RootFinishes(ps, g, RootStubs(s0.fs, rest));
    var r := Built(ps, l, s);
    assert r == Finish(ps, g.tree, 0, 0, [], 0, g.run) by { BuiltIs(ps, l, s); }
    var s1: Run, s2: Run :| WroteZeros(g.run, s1) && WroteOnly(s1, s2, RootStubs(s0.fs, rest)) && r == s2;
    forall q | q in l && q < |s.fs| && (s.fs[q].daLen == 0 || !Leaves(s.fs[q], 0))
      ensures q < |r.fs| && r.fs[q].da == 0
    {
      ZeroAtLast(ps, l, s, g, s1, r, q);
    }
  }

  lemma {:induction false} BuiltIs(ps: Params, l: seq<nat>, s: Run)
    ensures Built(ps, l, s) == Finish(ps, AddStub(ps, EMPTY, 0, 0, l, 0, s).tree, 0, 0, [], 0,
                                      AddStub(ps, EMPTY, 0, 0, l, 0, s).run)
  {
  }

  lemma {:induction false} RunFits(ps: Params, l: seq<nat>, s: Run, g: Grown, fs: seq<Filter>, stubs: seq<nat>)
    requires EndBelow(l, LensOf(s.fs), 0) && g == AddStub(ps, EMPTY, 0, 0, l, 0, s) && SlimRoot(g, fs, stubs)
    ensures SlimRoot(g, g.run.fs, stubs) && Fit(g.tree, 0, LensOf(g.run.fs)) && g.run.fs == fs
  {
    hide AddStub, EndBelow, LensOf, Fit, Slim;
    BuiltFits(ps, l, s);
  }

  /** A filter that is not among the stubs of child 1 was written at the root or to the left. */
  lemma {:induction false} ZeroAtLast(ps: Params, l: seq<nat>, s: Run, g: Grown, s1: Run, r: Run, q: nat)
    requires EndBelow(l, LensOf(s.fs), 0) && r == Built(ps, l, s) && q in l && q < |s.fs|
    requires s.fs[q].daLen == 0 || !Leaves(s.fs[q], 0)
    requires var s0, rest := Entered(s, l, 0, 0), Reject(l, s.fs, Destination, 0);
             && g.run.fs == s0.fs && g.run.log == s0.log
             && WroteZeros(g.run, s1) && WroteOnly(s1, r, RootStubs(s0.fs, rest))
    ensures q < |r.fs| && r.fs[q].da == 0
  {
    hide Built, LensOf, EndBelow, Wrote, Leaves;
    BuiltConserves(ps, l, s, q);
    WroteExtends(s, r, 0, 0);
    assert q in Writes(s, r);
    var s0, rest := Entered(s, l, 0, 0), Reject(l, s.fs, Destination, 0);
    NotAside(s, l, q);
    AssignedIs(s.fs, l, |l|, Destination, 0, 0);
    SelectMembers(l, |l|, s.fs, Destination, 0);
    assert l[..|l|] == l;
    if s.fs[q].daLen != 0 {
      assert q !in s0.log[|s.log|..];
      assert Writes(s, r) == s0.log[|s.log|..] + Writes(g.run, s1) + Writes(s1, r);
      assert q in Writes(g.run, s1);
    }
  }

  lemma {:induction false} NotAside(s: Run, l: seq<nat>, q: nat)
    requires q in l && q < |s.fs| && (s.fs[q].daLen == 0 || !Leaves(s.fs[q], 0))
    ensures q !in RootStubs(Entered(s, l, 0, 0).fs, Reject(l, s.fs, Destination, 0))
  {
    hide Bit;
    var fs1, rest := Entered(s, l, 0, 0).fs, Reject(l, s.fs, Destination, 0);
    AssignedIs(s.fs, l, |l|, Destination, 0, 0);
    SelectMembers(l, |l|, s.fs, Destination, 0);
    assert l[..|l|] == l && rest[..|rest|] == rest;
    ThoseMembers(rest, |rest|, (q: nat) => q < |fs1| && Leaves(fs1[q], 0));
    assert s.fs[q].daLen != 0 ==> fs1[q] == s.fs[q];
  }

  // ---------- sources that break the limit ----------

  /** The same filters with other proper source prefixes. */
  ghost predicate SameButSources(fs: seq<Filter>, fs1: seq<Filter>) {
    && |fs1| == |fs|
    && (forall i :: 0 <= i < |fs| ==> fs1[i] == fs[i].(sa := fs1[i].sa, saLen := fs1[i].saLen))
    && (forall i :: 0 <= i < |fs| ==> IsPrefix(fs1[i].sa, fs1[i].saLen))
  }

  lemma {:induction false} SourcesOnly(fs: seq<Filter>, fs1: seq<Filter>, l: seq<nat>)
    requires SameButSources(fs, fs1) && InRange(fs, l)
    ensures LensOf(fs1) == LensOf(fs) && InRange(fs1, l) && Lengths(fs1, l, Destination) == Lengths(fs, l, Destination)
  {
    hide IsPrefix;
    assert forall i :: 0 <= i < |fs| ==> fs1[i].daLen == fs[i].daLen;
  }

  function AsDirect(f: Filter): Filter {
    if 1 <= f.daLen <= 32 then f.(saLen := f.daLen, sa := Pow2(32 - f.daLen)) else f.(saLen := 0, sa := 0)
  }

  /** A source that sends the filter to the stub list of child 0 or child 1 of the root. */
  function AtOnce(f: Filter, one: bool): Filter { f.(saLen := 1, sa := if one then 0 else Pow2(31)) }

  lemma {:induction false} TwiceEven(x: nat)
    ensures 2 * x % 2 == 0 && 2 * x / 2 == x
  {
  }

  lemma {:induction false} PowLowZeros(k: nat)
    ensures LowZeros(Pow2(k), k)
  {
    if k > 0 {
      PowLowZeros(k - 1);
      TwiceEven(Pow2(k - 1));
    }
  }

  lemma {:induction false} SourcesAreProper(f: Filter, one: bool)
    ensures IsPrefix(AsDirect(f).sa, AsDirect(f).saLen) && IsPrefix(AtOnce(f, one).sa, AtOnce(f, one).saLen)
    ensures if one then Leaves(AtOnce(f, one), 0) else Falls(AtOnce(f, one), 0)
  {
    AddressCount();
    ZeroLow(32);
    ZeroLow(31);
    PowLowZeros(31);
    assert Pow2(32) == 2 * Pow2(31);
    ShrPow(31, 31);
    ShrZero(31);
    assert Shl(Pow2(31), 0) == Pow2(31);
    if 1 <= f.daLen <= 32 {
      PowLowZeros(32 - f.daLen);
      Pow2Monotone(32 - f.daLen, 31);
    }
  }

  /** At the address zero there are prefixes of all lengths in d. */
  lemma {:induction false} OverrunAtZero(fs: seq<Filter>, l: seq<nat>, d: set<int>, nest: int)
    requires InRange(fs, l) && |d| > nest
    requires forall k :: k in d ==> exists q :: q in l && fs[q].da == 0 && fs[q].daLen == k
    ensures !NestedAtMost(fs, l, Destination, nest)
  {
    forall k | k in d
      ensures (0, k) in Cover(fs, l, Destination, 0)
    {
      var q :| q in l && fs[q].da == 0 && fs[q].daLen == k;
      assert Covers(fs[q].da, fs[q].daLen, 0);
    }
    CardOfLengths(Cover(fs, l, Destination, 0), d, 0);
  }

  /** All filters in stub lists of their own levels. */
  ghost function ManySources(fs: seq<Filter>): seq<Filter> {
    seq(|fs|, i requires 0 <= i < |fs| => AsDirect(fs[i]))
  }

  lemma {:induction false} ManyGoLeft(nest: int, l: seq<nat>, fs: seq<Filter>, s: Run)
    requires NoDup(l) && InRange(fs, l) && EndBelow(l, LensOf(fs), 0) && s.fs == ManySources(fs)
    requires nest >= if 0 in Lengths(fs, l, Destination) then 3 else 2
    ensures var here, rest := Select(l, s.fs, Destination, 0), Reject(l, s.fs, Destination, 0);
            GoesLeft(Entered(s, l, 0, 0).fs, rest, if here != [] then 1 else 0, nest)
    ensures forall q :: q in l && q < |s.fs| ==> s.fs[q].daLen == 0 || !Leaves(s.fs[q], 0)
  {
    hide Bit, Falls, Follows, Leaves, Direct, Entered, Select, Reject, NoDup, ManySources, LensOf, EndBelow, Lengths;
    var fs1, here, rest := Entered(s, l, 0, 0).fs, Select(l, s.fs, Destination, 0), Reject(l, s.fs, Destination, 0);
    ManyAreSources(fs);
    SourcesOnly(fs, s.fs, l);
    RestIsLong(s.fs, l);
    RestUnchanged(s, l);
    forall q | q in l && q < |s.fs|
      ensures s.fs[q].daLen == 0 || !Leaves(s.fs[q], 0)
    {
      ManyGoes(fs, l, q);
    }
    forall q | q in rest
      ensures q < |fs1| && (Falls(fs1[q], 0) ==> fs1[q].daLen == 1)
      ensures Falls(fs1[q], 0) || (Follows(fs1[q], 0) && Direct(fs1[q]) && fs1[q].daLen > 1)
    {
      RestEnds(s.fs, l, q);
      ManyGoes(fs, l, q);
    }
    FallersEnd(fs1, rest);
  }

  lemma {:induction false} RestEnds(fs: seq<Filter>, l: seq<nat>, q: nat)
    requires InRange(fs, l) && q in Reject(l, fs, Destination, 0)
    ensures q in l && q < |fs| && fs[q].daLen != 0
  {
    SelectMembers(l, |l|, fs, Destination, 0);
    assert l[..|l|] == l;
  }

  /** How such a filter behaves at the root. */
  lemma {:induction false} ManyGoes(fs: seq<Filter>, l: seq<nat>, q: nat)
    requires q in l && q < |fs| && EndBelow(l, LensOf(fs), 0)
    ensures var f := ManySources(fs)[q];
            && f.daLen == fs[q].daLen >= 0
            && (f.daLen > 0 ==>
                  && Direct(f) && !Leaves(f, 0)
                  && (f.daLen == 1 <==> Falls(f, 0)) && (f.daLen != 1 <==> Follows(f, 0)))
  {
    hide Bit;
    assert fs[q].daLen == LensOf(fs)[q];
    if fs[q].daLen > 0 { DirectGoes(ManySources(fs)[q], 0); }
  }

  /** If all that fall end one level below, none of them goes on. */
  lemma {:induction false} FallersEnd(fs: seq<Filter>, l: seq<nat>)
    requires forall q :: q in l && q < |fs| && Falls(fs[q], 0) ==> fs[q].daLen == 1
    ensures Reject(Falling(fs, l, |l|, 0), fs, Destination, 1) == []
  {
    hide Falls;
    var a := Falling(fs, l, |l|, 0);
    ThoseMembers(l, |l|, (q: nat) => q < |fs| && Falls(fs[q], 0));
    assert l[..|l|] == l && [] + a == a;
    RejectJoins([], a, |a|, fs, 1);
  }

  /** With at least two lengths more than the prefixes at the root, all of them can end up on one
      path. */
  lemma {:induction false} ManyOverrun(ps: Params, l: seq<nat>, fs: seq<Filter>, s: Run)
    requires Calm(ps)
    requires NoDup(l) && InRange(fs, l) && EndBelow(l, LensOf(fs), 0) && s.fs == ManySources(fs)
    requires var d := Lengths(fs, l, Destination); |d| > ps.nest >= if 0 in d then 3 else 2
    ensures SameButSources(fs, s.fs)
    ensures var r := Built(ps, l, s); InRange(r.fs, l) && !NestedAtMost(r.fs, l, Destination, ps.nest)
  {
    hide Built, GoesLeft, EndBelow, LensOf, NoDup, Leaves, IsPrefix, AsDirect;
    ManyAreSources(fs);
    SourcesOnly(fs, s.fs, l);
    ManyGoLeft(ps.nest, l, fs, s);
    LeftRun(ps, l, s);
    BuiltPuts(ps, l, s);
    var r := Built(ps, l, s);
    forall k | k in Lengths(fs, l, Destination)
      ensures exists q :: q in l && r.fs[q].da == 0 && r.fs[q].daLen == k
    {
      var q :| q in l && fs[q].daLen == k;
      SameLength(s.fs, r.fs, l, q);
    }
    OverrunAtZero(r.fs, l, Lengths(fs, l, Destination), ps.nest);
  }

  lemma {:induction false} ManyAreSources(fs: seq<Filter>)
    ensures SameButSources(fs, ManySources(fs))
  {
    hide IsPrefix;
    forall i | 0 <= i < |fs|
      ensures IsPrefix(AsDirect(fs[i]).sa, AsDirect(fs[i]).saLen)
    {
      SourcesAreProper(fs[i], true);
    }
  }

  lemma {:induction false} SameLength(fs: seq<Filter>, fs': seq<Filter>, l: seq<nat>, q: nat)
    requires OnlyAddr(fs, fs', l, Destination) && q < |fs|
    ensures q < |fs'| && fs'[q].daLen == fs[q].daLen
  {
    assert fs'[q] == WithAddr(fs[q], Destination, Addr(fs'[q], Destination));
  }

  /** Filter b in the stub list of child 0, filter c on its way down the same path, the others out
      of the way. */
  ghost function PairSources(fs: seq<Filter>, b: nat, c: nat): seq<Filter> {
    seq(|fs|, i requires 0 <= i < |fs| => if i == c then AsDirect(fs[i]) else AtOnce(fs[i], i != b))
  }

  lemma {:induction false} PairAreSources(fs: seq<Filter>, b: nat, c: nat)
    ensures SameButSources(fs, PairSources(fs, b, c))
  {
    hide IsPrefix;
    forall i | 0 <= i < |fs|
      ensures IsPrefix(PairSources(fs, b, c)[i].sa, PairSources(fs, b, c)[i].saLen)
    {
      SourcesAreProper(fs[i], i != b);
    }
  }

  /** How the sources of the pair behave at the root. */
  lemma {:induction false} PairGoes(fs: seq<Filter>, b: nat, c: nat, q: nat)
    requires q < |fs| && b != c && c < |fs| && 2 <= fs[c].daLen <= 32
    ensures var f := PairSources(fs, b, c)[q];
            && f.daLen == fs[q].daLen
            && (if q == b then Falls(f, 0) else if q == c then Follows(f, 0) && Direct(f) else Leaves(f, 0))
            && (Falls(f, 0) ==> q == b) && (Follows(f, 0) ==> q == c) && (Leaves(f, 0) ==> q != b && q != c)
  {
    SourcesAreProper(fs[q], q != b);
    if q == c { DirectGoes(PairSources(fs, b, c)[q], 0); }
  }

  /** The filters that go on below the root are as they were. */
  lemma {:induction false} RestUnchanged(s: Run, l: seq<nat>)
    requires NoDup(l)
    ensures var fs1, rest := Entered(s, l, 0, 0).fs, Reject(l, s.fs, Destination, 0);
            && NoDup(rest)
            && forall q :: q in rest ==> q in l && (q < |s.fs| ==> q < |fs1| && fs1[q] == s.fs[q])
  {
    AssignedIs(s.fs, l, |l|, Destination, 0, 0);
    SelectMembers(l, |l|, s.fs, Destination, 0);
    SelectNoDup(l, |l|, s.fs, Destination, 0);
    assert l[..|l|] == l;
  }

  lemma {:induction false} PairGoLeft(nest: int, l: seq<nat>, fs: seq<Filter>, b: nat, c: nat, s: Run)
    requires NoDup(l) && InRange(fs, l) && s.fs == PairSources(fs, b, c)
    requires b in l && c in l && b < |fs| && c < |fs| && 2 <= fs[b].daLen < fs[c].daLen <= 32
    requires 1 !in Lengths(fs, l, Destination)
    ensures var here, rest := Select(l, s.fs, Destination, 0), Reject(l, s.fs, Destination, 0);
            GoesLeft(Entered(s, l, 0, 0).fs, rest, if here != [] then 1 else 0, nest)
  {
    hide Bit, Falls, Follows, Leaves, PairSources, Direct, Entered, Select, Reject, NoDup;
    var fs1, rest := Entered(s, l, 0, 0).fs, Reject(l, s.fs, Destination, 0);
    assert |s.fs| == |fs| by { PairAreSources(fs, b, c); }
    RestUnchanged(s, l);
    forall q | q in rest
      ensures q < |fs1| && fs1[q].daLen != 1
      ensures if q == b then Falls(fs1[q], 0)
              else if q == c then Follows(fs1[q], 0) && Direct(fs1[q])
              else Leaves(fs1[q], 0)
      ensures (Falls(fs1[q], 0) ==> q == b) && (Follows(fs1[q], 0) ==> q == c) && (q == c ==> fs1[q].daLen > 1)
    {
      PairGoes(fs, b, c, q);
    }
    PairLengths(fs, b, c);
    RestHas(s.fs, l, b);
    RestHas(s.fs, l, c);
    PairIsFew(fs1, rest, b, c);
  }

  lemma {:induction false} PairLengths(fs: seq<Filter>, b: nat, c: nat)
    ensures |PairSources(fs, b, c)| == |fs|
    ensures forall k :: 0 <= k < |fs| ==> PairSources(fs, b, c)[k].daLen == fs[k].daLen
  {
  }

  lemma {:induction false} RestHas(fs: seq<Filter>, l: seq<nat>, q: nat)
    requires q in l && q < |fs| && fs[q].daLen != 0
    ensures q in Reject(l, fs, Destination, 0)
  {
    SelectMembers(l, |l|, fs, Destination, 0);
    assert l[..|l|] == l;
  }

  lemma {:induction false} PairIsFew(fs: seq<Filter>, l: seq<nat>, b: nat, c: nat)
    requires NoDup(l) && c in l && c < |fs| && Follows(fs[c], 0) && b < |fs| && 1 < fs[b].daLen < fs[c].daLen
    requires forall q :: q in l && q < |fs| ==> (Falls(fs[q], 0) ==> q == b) && (Follows(fs[q], 0) ==> q == c)
    ensures |Following(fs, l, |l|, 0)| <= 1
    ensures var fallen := Reject(Falling(fs, l, |l|, 0), fs, Destination, 1);
            |fallen| <= 1 && Led(fs, fallen, Following(fs, l, |l|, 0), 1)
  {
    hide Falls, Follows, NoDup;
    var a := Falling(fs, l, |l|, 0);
    ThoseFew(l, |l|, (q: nat) => q < |fs| && Falls(fs[q], 0), b);
    ThoseFew(l, |l|, (q: nat) => q < |fs| && Follows(fs[q], 0), c);
    RejectShrinks(a, |a|, fs, 1);
    ThoseMembers(l, |l|, (q: nat) => q < |fs| && Falls(fs[q], 0));
    ThoseMembers(l, |l|, (q: nat) => q < |fs| && Follows(fs[q], 0));
    SelectMembers(a, |a|, fs, Destination, 1);
    assert l[..|l|] == l && a[..|a|] == a;
    assert c in Following(fs, l, |l|, 0);
  }

  /** Where the root is at the threshold but has no filters one level below, two lengths can end
      up on one path. */
  lemma {:induction false} PairOverrun(ps: Params, l: seq<nat>, fs: seq<Filter>, b: nat, c: nat, s: Run)
    requires Calm(ps)
    requires NoDup(l) && InRange(fs, l) && EndBelow(l, LensOf(fs), 0) && s.fs == PairSources(fs, b, c)
    requires b in l && c in l && b < |fs| && c < |fs| && 2 <= fs[b].daLen < fs[c].daLen <= 32
    requires 1 !in Lengths(fs, l, Destination) && ps.nest == if 0 in Lengths(fs, l, Destination) then 2 else 1
    ensures SameButSources(fs, s.fs)
    ensures var r := Built(ps, l, s); InRange(r.fs, l) && !NestedAtMost(r.fs, l, Destination, ps.nest)
  {
    hide Built, GoesLeft, EndBelow, LensOf, NoDup, Leaves, IsPrefix, PairSources, Entered, Select, Reject, Lengths;
    PairAreSources(fs, b, c);
    SourcesOnly(fs, s.fs, l);
    PairGoLeft(ps.nest, l, fs, b, c, s);
    LeftRun(ps, l, s);
    BuiltPuts(ps, l, s);
    PairAtZero(fs, l, b, c, s.fs, Built(ps, l, s).fs, ps.nest);
  }

  /** The empty prefix and those of the pair meet at the address zero. */
  lemma {:induction false} PairAtZero(fs: seq<Filter>, l: seq<nat>, b: nat, c: nat, fs1: seq<Filter>, fs2: seq<Filter>,
                                      nest: int)
    requires InRange(fs, l) && b in l && c in l && b < |fs| && c < |fs| && 2 <= fs[b].daLen < fs[c].daLen <= 32
    requires fs1 == PairSources(fs, b, c) && OnlyAddr(fs1, fs2, l, Destination) && InRange(fs2, l)
    requires nest == if 0 in Lengths(fs, l, Destination) then 2 else 1
    requires forall q :: q in l && q < |fs1| && (fs1[q].daLen == 0 || !Leaves(fs1[q], 0)) ==>
               q < |fs2| && fs2[q].da == 0
    ensures !NestedAtMost(fs2, l, Destination, nest)
  {
    hide PairSources, Leaves, Falls, Follows, Direct, OnlyAddr, NestedAtMost;
    PairLengths(fs, b, c);
    var d := (if 0 in Lengths(fs, l, Destination) then {0} else {}) + {fs[b].daLen, fs[c].daLen};
    forall k | k in d
      ensures exists q :: q in l && fs2[q].da == 0 && fs2[q].daLen == k
    {
      var q :| q in l && fs[q].daLen == k && (k == 0 || q == b || q == c);
      PairGoes(fs, b, c, q);
      SameLength(fs1, fs2, l, q);
    }
    OverrunAtZero(fs2, l, d, nest);
  }

  // ---------- exactly when the limit is kept ----------

  /** Every run keeps the limit on filters with these destination prefix lengths, whatever their
      sources, the parameters and the random numbers are. */
  ghost predicate AlwaysKept(fs: seq<Filter>, l: seq<nat>, nest: int) {
    forall ps: Params, s: Run {:trigger Built(ps, l, s)} ::
      ps.nest == nest && Random(ps) && SameButSources(fs, s.fs) ==>
        var r := Built(ps, l, s); InRange(r.fs, l) && NestedAtMost(r.fs, l, Destination, nest)
  }

  /** drand48 returns numbers from 0 to 1, and the parameters are probabilities. */
  ghost predicate Random(ps: Params) {
    && (forall n: nat :: 0.0 <= ps.draw(n) < 1.0)
    && (forall i :: 0 <= i < 33 ==> 0.0 <= ps.corr[i] <= 1.0)
    && (forall i :: 0 <= i < 33 ==> 0.0 <= ps.p1child[i] <= 1.0)
  }

  /** Parameters of this kind. */
  function Steady(nest: int): Params {
    Params(nest, seq(33, i => 0.0), seq(33, i => 1.0), seq(33, i => 1.0), (n: nat) => 0.0)
  }

  lemma {:induction false} SteadyIsRandom(nest: int)
    ensures Random(Steady(nest)) && Calm(Steady(nest)) && Steady(nest).nest == nest
  {
  }

  /** Two different lengths of d, neither of them zero, the smaller one first. */
  lemma {:induction false} TwoLengths(d: set<int>) returns (a: int, b: int)
    requires |d| > if 0 in d then 2 else 1
    ensures a in d && b in d && a < b && a != 0 && b != 0
  {
    var e := d - {0};
    a := Pick(e);
    assert |e - {a}| > 0;
    b := Pick(e - {a});
    if b < a { a, b := b, a; }
  }

  /** Without the condition there are sources for which the limit is broken, whatever random
      numbers are drawn. */
  lemma {:induction false} SomeOverrun(ps: Params, l: seq<nat>, fs: seq<Filter>) returns (s: Run)
    requires Calm(ps)
    requires NoDup(l) && InRange(fs, l) && EndBelow(l, LensOf(fs), 0) && !Guaranteed(fs, l, ps.nest)
    ensures SameButSources(fs, s.fs)
    ensures var r := Built(ps, l, s); InRange(r.fs, l) && !NestedAtMost(r.fs, l, Destination, ps.nest)
  {
    hide Calm, Built, EndBelow, LensOf, NoDup, Lengths, ManySources, PairSources, SameButSources, NestedAtMost;
    var d, nest := Lengths(fs, l, Destination), ps.nest;
    s := Run(ManySources(fs), [], 0);
    ManyAreSources(fs);
    SourcesOnly(fs, s.fs, l);
    if nest >= if 0 in d then 3 else 2 {
      ManyOverrun(ps, l, fs, s);
    } else if nest == if 0 in d then 2 else 1 {
      var len1, len2 := TwoLengths(d);
      var b := FilterOf(fs, l, len1);
      var c := FilterOf(fs, l, len2);
      s := Run(PairSources(fs, b, c), [], 0);
      PairOverrun(ps, l, fs, b, c, s);
    } else {
      BuiltPuts(ps, l, s);
      NeverFits(s.fs, Built(ps, l, s).fs, l, nest);
      LimitMustFit(Built(ps, l, s).fs, l, Destination, nest);
    }
  }

  lemma {:induction false} FilterOf(fs: seq<Filter>, l: seq<nat>, k: int) returns (q: nat)
    requires InRange(fs, l) && EndBelow(l, LensOf(fs), 0) && k in Lengths(fs, l, Destination)
    ensures q in l && q < |fs| && fs[q].daLen == k && 0 <= k <= 32
  {
    q :| q in l && fs[q].daLen == k;
    assert LensOf(fs)[q] == k;
  }

  /** With a limit of at most the number of prefixes at the root no trie can keep it. */
  lemma {:induction false} NeverFits(fs: seq<Filter>, fs1: seq<Filter>, l: seq<nat>, nest: int)
    requires InRange(fs, l) && InRange(fs1, l) && Lengths(fs1, l, Destination) == Lengths(fs, l, Destination)
    requires var d := Lengths(fs, l, Destination); |d| > nest && nest < if 0 in d then 2 else 1
    ensures !LimitFits(fs1, l, Destination, nest)
  {
    var d := Lengths(fs1, l, Destination);
    if l == [] {
      assert d == {};
    } else if nest == 1 {
      assert !(d <= {0}) by {
        if d <= {0} { CardSubset(d, {0}); }
      }
      var k := Pick(d - {0});
      var p :| p in l && fs1[p].daLen == 0;
      var q :| q in l && fs1[q].daLen == k;
      assert Ends(fs1, Destination, 0, p) && !Ends(fs1, Destination, 0, q);
    }
  }

  /** The limit is kept in every run exactly under the condition, which can be read off the
      destination prefix lengths before the addresses are generated. */
  lemma {:induction false} LimitGuaranteed(fs: seq<Filter>, l: seq<nat>, nest: int)
    requires NoDup(l) && InRange(fs, l) && EndBelow(l, LensOf(fs), 0)
    ensures AlwaysKept(fs, l, nest) <==> Guaranteed(fs, l, nest)
  {
    hide Built, EndBelow, NoDup, NestedAtMost, Lengths, LensOf, SameButSources;
    if Guaranteed(fs, l, nest) {
      forall ps: Params, s: Run | ps.nest == nest && Random(ps) && SameButSources(fs, s.fs)
        ensures var r := Built(ps, l, s); InRange(r.fs, l) && NestedAtMost(r.fs, l, Destination, nest)
      {
        SourcesOnly(fs, s.fs, l);
        GuaranteeHolds(ps, l, s);
      }
    } else {
      SteadyIsRandom(nest);
      var s := SomeOverrun(Steady(nest), l, fs);
    }
  }

  /** Three filters with destination prefix lengths 1, 2 and 3 and the sources 1, 01 and 001. */
  function ThreeFilters(): seq<Filter> {
    [Filter(0x8000_0000, 0, 1, 1, 0, 65535, 0, 65535, 0, 0, 0),
     Filter(0x4000_0000, 0, 2, 2, 0, 65535, 0, 65535, 0, 0, 0),
     Filter(0x2000_0000, 0, 3, 3, 0, 65535, 0, 65535, 0, 0, 0)]
  }

  lemma {:induction false} ThreeAreDirect()
    ensures ManySources(ThreeFilters()) == ThreeFilters()
  {
    AddressCount();
    assert Pow2(32) == 2 * Pow2(31) && Pow2(31) == 2 * Pow2(30) && Pow2(30) == 2 * Pow2(29);
  }

  lemma {:induction false} ThreeLengths(l: seq<nat>)
    requires l == [0, 1, 2]
    ensures NoDup(l) && InRange(ThreeFilters(), l) && EndBelow(l, LensOf(ThreeFilters()), 0)
    ensures Lengths(ThreeFilters(), l, Destination) == {1, 2, 3}
  {
    var fs := ThreeFilters();
    assert forall q :: q in l <==> q == 0 || q == 1 || q == 2;
    assert fs[0].daLen == 1 && fs[1].daLen == 2 && fs[2].daLen == 3;
    assert 0 in l && 1 in l && 2 in l;
  }

  /** They break the limit 2, whatever random numbers are drawn: all three get the address zero. */
  lemma {:induction false} LimitTwoBroken(ps: Params)
    requires Calm(ps) && ps.nest == 2
    ensures var r := Built(ps, [0, 1, 2], Run(ThreeFilters(), [], 0));
            InRange(r.fs, [0, 1, 2]) && !NestedAtMost(r.fs, [0, 1, 2], Destination, 2)
  {
    hide Calm, Built, NestedAtMost, ThreeFilters, ManySources, EndBelow, LensOf, Lengths, NoDup, InRange;
    ThreeAreDirect();
    ThreeLengths([0, 1, 2]);
    ManyOverrun(ps, [0, 1, 2], ThreeFilters(), Run(ThreeFilters(), [], 0));
  }
}
