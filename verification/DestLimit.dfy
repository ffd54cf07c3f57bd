/** The nesting limit of dbintree (db_generator/dbintree.h, db_generator/dbintree.cc): for which
    destination prefix lengths every run keeps it, and runs that break it. */
module DestLimit {
  import opened Power
  import opened Filters
  import opened TrieNode
  import opened Nesting
  import opened DestRun

  // ---------- the second phase where the first one left nothing ----------

  /** The filters of l, and no others, got destination prefixes below the node. */
  ghost predicate PutBelow(fs: seq<Filter>, fs': seq<Filter>, l: seq<nat>, addr: nat, lev: int) {
    OnlyAddr(fs, fs', l, Destination) && PlacedBelow(fs', l, Destination, addr, lev)
  }

  lemma {:induction false} SameMembers(s: Run, s': Run, l: seq<nat>, addr: nat, lev: int)
    requires Wrote(s, s', addr, lev) && forall q: nat :: Count(Writes(s, s'), q) == Count(l, q)
    ensures PutBelow(s.fs, s'.fs, l, addr, lev)
  {
    var w := Writes(s, s');
    forall q: nat
      ensures q in l <==> q in w
    {
      assert Count(w, q) == Count(l, q);
    }
    InRangeAll(s'.fs, l);
  }

  lemma {:induction false} FinishPuts(ps: Params, t: Tree, lev: nat, addr: nat, l: seq<nat>, cur: int, s: Run)
    requires lev <= 32 && IsPrefix(addr, lev) && OrBare(t) == EMPTY && EndBelow(l, LensOf(s.fs), lev)
    ensures PutBelow(s.fs, Finish(ps, t, lev, addr, l, cur, s).fs, l, addr, lev)
  {
    hide Finish, Wrote, PutBelow, EndBelow, LensOf, Count;
    var r := Finish(ps, t, lev, addr, l, cur, s);
    BareFits(t, lev, LensOf(s.fs));
    FinishConserves(ps, t, lev, addr, l, cur, s, 0);
    WroteExtends(s, r, addr, lev);
    forall q: nat
      ensures Count(Writes(s, r), q) == Count(l, q)
    {
      BareWaits(t, q);
      FinishConserves(ps, t, lev, addr, l, cur, s, q);
    }
    SameMembers(s, r, l, addr, lev);
  }

  lemma {:induction false} BareFits(t: Tree, lev: nat, lens: seq<int>)
    requires OrBare(t) == EMPTY
    ensures Fit(t, lev, lens)
  {
  }

  lemma {:induction false} BareWaits(t: Tree, q: nat)
    requires OrBare(t) == EMPTY
    ensures Waits(t, q) == 0
  {
    CountJoins([], [], q);
  }

  /** A node without children, stubs and weights. */
  ghost predicate Childless(t: Tree) {
    t.Node? && t.c0.Nil? && t.c1.Nil? && t.wt0 == 0 && t.wt1 == 0
  }

  /** The list of a childless node is shared out in two parts. */
  lemma {:induction false} SharesAreParts(ps: Params, t: Tree, lev: nat, l: seq<nat>, below: bool, my: int,
                                          fs: seq<Filter>, n: nat)
    requires Childless(t) && lev < 32 && NoDup(l) && l != []
    ensures var sh := Choose(ps, t, lev, l, below, my, fs, n);
            && Parts(l, sh.l0, sh.l1) && (!sh.go0 ==> sh.l0 == []) && (!sh.go1 ==> sh.l1 == [])
            && (AtThreshold(ps, lev, |l|, my, below) ==>
                  var a, b := Select(l, fs, Destination, lev + 1), Reject(l, fs, Destination, lev + 1);
                  (sh.l0 == a && sh.l1 == b) || (sh.l0 == b && sh.l1 == a))
  {
    hide NoDup, Parts, Select, Reject, DeltaLite;
    SelectParts(l, fs, Destination, lev + 1);
    PartsTurn(l, Select(l, fs, Destination, lev + 1), Reject(l, fs, Destination, lev + 1));
    SliceParts(l, 0);
    assert l[..0] == [] && l[0..] == l;
    var deltaLite := DeltaLite(ps, lev, |l|, 0, 0);
    if 0 <= deltaLite <= |l| { SliceParts(l, deltaLite); }
  }

  /** A node below the limit leaves room in both. */
  lemma {:induction false} SharesLeaveRoom(ps: Params, t: Tree, lev: nat, l: seq<nat>, below: bool, my: int,
                                           fs: seq<Filter>, n: nat)
    requires Childless(t) && lev < 32 && NoDup(l) && InRange(fs, l) && l != [] && my <= ps.nest - 1
    requires EndBelow(l, LensOf(fs), lev + 1) && (below <==> !NoneAt(fs, l, Destination, lev + 1))
    ensures var sh := Choose(ps, t, lev, l, below, my, fs, n);
            && Room(fs, sh.l0, Destination, lev + 1, my, ps.nest) && Room(fs, sh.l1, Destination, lev + 1, my, ps.nest)
  {
    hide NoDup, Room, Select, Reject, Choose, NoneAt;
    var sh := Choose(ps, t, lev, l, below, my, fs, n);
    SharesAreParts(ps, t, lev, l, below, my, fs, n);
    if AtThreshold(ps, lev, |l|, my, below) {
      RoomAfterSplit(fs, l, Destination, lev + 1, my, ps.nest);
    } else {
      RoomWithoutSplit(fs, l, sh.l0, Destination, lev + 1, my, ps.nest);
      RoomWithoutSplit(fs, l, sh.l1, Destination, lev + 1, my, ps.nest);
    }
  }

  lemma {:induction false} PartsTurn(l: seq<nat>, a: seq<nat>, b: seq<nat>)
    requires Parts(l, a, b)
    ensures Parts(l, b, a)
  {
  }

  /** If there is room at an empty node, no address gets more prefixes below it than the limit
      leaves. */
  lemma {:induction false} FinishRoom(ps: Params, t: Tree, lev: nat, addr: nat, l: seq<nat>, cur: int, s: Run)
    requires lev <= 32 && IsPrefix(addr, lev) && OrBare(t) == EMPTY && NoDup(l) && EndBelow(l, LensOf(s.fs), lev)
    ensures var r := Finish(ps, t, lev, addr, l, cur, s);
            && PutBelow(s.fs, r.fs, l, addr, lev)
            && (Room(s.fs, l, Destination, lev, cur, ps.nest) ==>
                  forall x: nat :: cur + |Cover(r.fs, l, Destination, x)| <= ps.nest)
    decreases 33 - lev, 1
  {
    hide IsPrefix, NoDup, EndBelow, LensOf, Room, Cover, FinishDown, Select, Reject, Assigned;
    FinishPuts(ps, t, lev, addr, l, cur, s);
    var r := Finish(ps, t, lev, addr, l, cur, s);
    var here, rest := Select(l, s.fs, Destination, lev), Reject(l, s.fs, Destination, lev);
    var s1 := Entered(s, l, lev, addr);
    assert l + EMPTY.stubs == l;
    AfterEntering(s, l, lev, addr);
    if lev >= 32 || rest == [] {
      NothingBelow(ps, t, lev, addr, l, cur, s);
    } else {
      var t1 := if here != [] then EMPTY.Marked() else EMPTY;
      var my := if here != [] then cur + 1 else cur;
      DownRoom(ps, t1, lev, addr, rest, Select(l, s.fs, Destination, lev + 1) != [], my, s1);
      HereStays(s1.fs, r.fs, here, rest, addr, lev);
    }
    NodeNesting(s.fs, r.fs, l, here, rest, Destination, lev, addr, cur, ps.nest);
  }

  /** What the loop over the list at a node leaves. */
  lemma {:induction false} AfterEntering(s: Run, l: seq<nat>, lev: nat, addr: nat)
    requires NoDup(l) && EndBelow(l, LensOf(s.fs), lev) && IsPrefix(addr, lev)
    ensures var s1 := Entered(s, l, lev, addr);
            var here, rest := Select(l, s.fs, Destination, lev), Reject(l, s.fs, Destination, lev);
            && Parts(l, here, rest) && InRange(s1.fs, rest) && NoDup(rest)
            && LensOf(s1.fs) == LensOf(s.fs) && EndBelow(rest, LensOf(s1.fs), lev + 1)
            && (forall q :: q in here ==> q < |s1.fs| && s1.fs[q].da == addr && s1.fs[q].daLen == lev)
            && (Select(l, s.fs, Destination, lev + 1) != [] <==> !NoneAt(s1.fs, rest, Destination, lev + 1))
            && (AllAt(s.fs, l, Destination, lev) ==> rest == [])
            && (NoneAt(s.fs, l, Destination, lev) ==> here == [])
  {
    hide LensOf, EndBelow, IsPrefix;
    EnterWrites(s, l, lev, addr, 0);
    SelectParts(l, s.fs, Destination, lev);
    RestBelow(s.fs, l, lev, addr);
    EndsInRange(Entered(s, l, lev, addr).fs, Reject(l, s.fs, Destination, lev), lev + 1);
    FlagsAfterTaking(s.fs, Entered(s, l, lev, addr).fs, l, Destination, lev, addr);
  }

  lemma {:induction false} NothingBelow(ps: Params, t: Tree, lev: nat, addr: nat, l: seq<nat>, cur: int, s: Run)
    requires lev <= 32 && OrBare(t) == EMPTY && EndBelow(l, LensOf(s.fs), lev)
    requires lev >= 32 || Reject(l, s.fs, Destination, lev) == []
    ensures Finish(ps, t, lev, addr, l, cur, s).fs == Entered(s, l, lev, addr).fs
    ensures Reject(l, s.fs, Destination, lev) == []
  {
    hide EndBelow, LensOf, Assigned, Reject, Select;
    assert l + EMPTY.stubs == l;
    RestBelow(s.fs, l, lev, addr);
    if lev >= 32 {
      NoneEndBelow(Reject(l, s.fs, Destination, lev), LensOf(s.fs), lev + 1);
    } else {
      var t1 := if Select(l, s.fs, Destination, lev) != [] then EMPTY.Marked() else EMPTY;
      NothingShared(ps, t1, lev, addr, Select(l, s.fs, Destination, lev + 1) != [], if t1.valid then cur + 1 else cur,
                    Entered(s, l, lev, addr));
    }
  }

  lemma {:induction false} NothingShared(ps: Params, t: Tree, lev: nat, addr: nat, below: bool, my: int, s: Run)
    requires Childless(t) && lev < 32
    ensures FinishDown(ps, t, lev, addr, [], below, my, s).fs == s.fs
  {
    var sh := Choose(ps, t, lev, [], below, my, s.fs, s.n);
    assert sh == Shares([], false, [], false, false, s.n);
    assert FinishKid(ps, t, false, lev, addr, sh, my, s) == s;
    assert FinishKid(ps, t, true, lev, addr, sh, my, s) == s;
  }

  /** What was written at a node is not written again below it. */
  lemma {:induction false} HereStays(fs1: seq<Filter>, fs2: seq<Filter>, here: seq<nat>, rest: seq<nat>, addr: nat,
                                     lev: int)
    requires OnlyAddr(fs1, fs2, rest, Destination) && forall q :: q in here ==> q !in rest
    requires forall q :: q in here ==> q < |fs1| && fs1[q].da == addr && fs1[q].daLen == lev
    ensures forall q :: q in here ==> q < |fs2| && fs2[q].da == addr && fs2[q].daLen == lev
  {
  }

  /** The children of a childless node. */
  lemma {:induction false} DownRoom(ps: Params, t: Tree, lev: nat, addr: nat, l: seq<nat>, below: bool, my: int, s: Run)
    requires Childless(t) && lev < 32 && IsPrefix(addr, lev) && NoDup(l) && l != [] && InRange(s.fs, l)
    requires EndBelow(l, LensOf(s.fs), lev + 1) && (below <==> !NoneAt(s.fs, l, Destination, lev + 1))
    ensures var r := FinishDown(ps, t, lev, addr, l, below, my, s);
            && OnlyAddr(s.fs, r.fs, l, Destination) && InRange(r.fs, l)
            && (my <= ps.nest - 1 ==> forall x: nat :: my + |Cover(r.fs, l, Destination, x)| <= ps.nest)
    decreases 33 - lev, 0
  {
    hide IsPrefix, NoDup, EndBelow, LensOf, Room, Cover, Choose, NoneAt, Finish;
    var sh := Choose(ps, t, lev, l, below, my, s.fs, s.n);
    SharesAreParts(ps, t, lev, l, below, my, s.fs, s.n);
    PartsTurn(l, sh.l0, sh.l1);
    if my <= ps.nest - 1 { SharesLeaveRoom(ps, t, lev, l, below, my, s.fs, s.n); }
    var one := sh.firstOne;
    var s0, la, lb := s.(n := sh.n), sh.List(one), sh.List(!one);
    var s1 := FinishKid(ps, t, one, lev, addr, sh, my, s0);
    var r := FinishKid(ps, t, !one, lev, addr, sh, my, s1);
    PartsEndBelow(l, la, lb, LensOf(s.fs), lev + 1);
    KidRoom(ps, t, one, lev, addr, sh, my, s0);
    OnlyLens(s0.fs, s1.fs, la);
    RoomStays(s0.fs, s1.fs, la, lb, lev + 1, my, ps.nest);
    KidRoom(ps, t, !one, lev, addr, sh, my, s1);
    KidsPut(s.fs, s1.fs, r.fs, l, la, lb, KidAddr(addr, lev, one), lev + 1);
    KidsApart(addr, lev, one);
    if my <= ps.nest - 1 {
      ChildrenNesting(s1.fs, r.fs, l, la, lb, Destination, lev + 1, KidAddr(addr, lev, one), KidAddr(addr, lev, !one),
                      my, ps.nest);
    }
  }

  lemma {:induction false} KidsApart(addr: nat, lev: nat, one: bool)
    requires lev < 32 && IsPrefix(addr, lev)
    ensures var aa, ab := KidAddr(addr, lev, one), KidAddr(addr, lev, !one);
            aa + Span(lev + 1) <= ab || ab + Span(lev + 1) <= aa
  {
    ChildAddresses(addr, lev);
  }

  lemma {:induction false} PartsEndBelow(l: seq<nat>, la: seq<nat>, lb: seq<nat>, lens: seq<int>, lev: nat)
    requires Parts(l, la, lb) && EndBelow(l, lens, lev)
    ensures EndBelow(la, lens, lev) && EndBelow(lb, lens, lev) && NoDup(la) && NoDup(lb)
  {
  }

  lemma {:induction false} OnlyLens(fs: seq<Filter>, fs': seq<Filter>, l: seq<nat>)
    requires OnlyAddr(fs, fs', l, Destination)
    ensures LensOf(fs') == LensOf(fs)
  {
    forall i | 0 <= i < |fs|
      ensures LensOf(fs')[i] == LensOf(fs)[i]
    {
      assert fs'[i] == WithAddr(fs[i], Destination, Addr(fs'[i], Destination));
    }
  }

  lemma {:induction false} RoomStays(fs: seq<Filter>, fs1: seq<Filter>, la: seq<nat>, lb: seq<nat>, lev: nat, cur: int,
                                     nest: int)
    requires OnlyAddr(fs, fs1, la, Destination) && forall q :: q in la ==> q !in lb
    ensures Room(fs, lb, Destination, lev, cur, nest) ==> Room(fs1, lb, Destination, lev, cur, nest)
  {
  }

  lemma {:induction false} KidsPut(fs: seq<Filter>, fs1: seq<Filter>, fs2: seq<Filter>, l: seq<nat>, la: seq<nat>,
                                   lb: seq<nat>, aa: nat, lev: nat)
    requires Parts(l, la, lb) && InRange(fs, l) && PutBelow(fs, fs1, la, aa, lev) && OnlyAddr(fs1, fs2, lb, Destination)
    ensures OnlyAddr(fs, fs2, l, Destination) && InRange(fs2, l) && InRange(fs1, la)
            && PlacedBelow(fs2, la, Destination, aa, lev)
    ensures forall q :: q in la && q < |fs2| && q < |fs1| ==> fs2[q] == fs1[q]
  {
  }

  /** One child of a childless node, finished or not. */
  lemma {:induction false} KidRoom(ps: Params, t: Tree, one: bool, lev: nat, addr: nat, sh: Shares, my: int, s: Run)
    requires Childless(t) && lev < 32 && IsPrefix(addr, lev) && NoDup(sh.List(one))
    requires EndBelow(sh.List(one), LensOf(s.fs), lev + 1) && (!sh.Go(one) ==> sh.List(one) == [])
    ensures var r, l := FinishKid(ps, t, one, lev, addr, sh, my, s), sh.List(one);
            && PutBelow(s.fs, r.fs, l, KidAddr(addr, lev, one), lev + 1)
            && (my <= ps.nest - 1 && Room(s.fs, l, Destination, lev + 1, my, ps.nest) ==>
                  forall x: nat :: my + |Cover(r.fs, l, Destination, x)| <= ps.nest)
    decreases 32 - lev, 2
  {
    hide IsPrefix, NoDup, EndBelow, LensOf, Room, Finish, KidAddr;
    var l := sh.List(one);
    if sh.Go(one) {
      KidAddresses(addr, lev, one);
      FinishRoom(ps, t.Kid(one), lev + 1, KidAddr(addr, lev, one), l, my, s);
    } else {
      CoverOfNone(s.fs, Destination);
    }
  }

  // ---------- when the limit is kept ----------

  /** The condition on the destination prefix lengths and the limit: no more lengths than the
      limit, or the root is already at the threshold and has filters that end one level below. */
  ghost predicate Guaranteed(fs: seq<Filter>, l: seq<nat>, nest: int)
    requires InRange(fs, l)
  {
    var lengths := Lengths(fs, l, Destination);
    |lengths| <= nest || (1 in lengths && nest == if 0 in lengths then 2 else 1)
  }

  lemma {:induction false} NoneSelected(l: seq<nat>, i: nat, fs: seq<Filter>, lev: nat, addr: nat)
    requires i <= |l| && NoneAt(fs, l, Destination, lev)
    ensures SelectTo(l, i, fs, Destination, lev) == [] && RejectTo(l, i, fs, Destination, lev) == l[..i]
    ensures Assigned(fs, l, i, Destination, lev, addr) == fs
  {
    if i > 0 {
      NoneSelected(l, i - 1, fs, lev, addr);
      assert l[i - 1] in l;
      assert l[..i] == l[..i - 1] + [l[i - 1]];
    }
  }

  /** A list none of whose filters ends at a node passes through it unchanged. */
  lemma {:induction false} NothingHere(s: Run, l: seq<nat>, lev: nat, addr: nat)
    requires NoneAt(s.fs, l, Destination, lev)
    ensures Select(l, s.fs, Destination, lev) == [] && Reject(l, s.fs, Destination, lev) == l
            && Entered(s, l, lev, addr) == s
  {
    NoneSelected(l, |l|, s.fs, lev, addr);
    assert l[..|l|] == l;
    assert s.log + [] == s.log;
  }

  /** With more lengths than the limit, more than one filter goes on below the root. */
  lemma {:induction false} RestIsLong(fs: seq<Filter>, l: seq<nat>)
    requires InRange(fs, l)
    ensures var here, rest := Select(l, fs, Destination, 0), Reject(l, fs, Destination, 0);
            && (here != [] <==> 0 in Lengths(fs, l, Destination))
            && (|rest| <= 1 ==> |Lengths(fs, l, Destination)| <= (if here != [] then 2 else 1))
  {
    var here, rest := Select(l, fs, Destination, 0), Reject(l, fs, Destination, 0);
    var d := Lengths(fs, l, Destination);
    SelectMembers(l, |l|, fs, Destination, 0);
    assert l[..|l|] == l;
    FirstIn(here);
    FirstIn(rest);
    if |rest| <= 1 {
      var own: set<int> := if here != [] then {0} else {};
      var other: set<int> := if rest != [] then {fs[rest[0]].daLen} else {};
      assert d <= own + other;
      CardSubset(d, own + other);
      CardUnion(own, other);
    }
  }

  // ---------- all filters wait at the root ----------

  /** The first phase writes the filters with an empty prefix and leaves all others in the stub list
      of the root. */
  ghost predicate AllWait(ps: Params, l: seq<nat>, s: Run) {
    var here, rest := Select(l, s.fs, Destination, 0), Reject(l, s.fs, Destination, 0);
    var t := if here != [] then EMPTY.Marked() else EMPTY;
    AddStub(ps, EMPTY, 0, 0, l, 0, s) == Grown(t.Keep(rest), Entered(s, l, 0, 0))
  }

  /** So it is if the root is at the threshold. */
  lemma {:induction false} ThresholdWaits(ps: Params, l: seq<nat>, s: Run)
    requires var here, rest := Select(l, s.fs, Destination, 0), Reject(l, s.fs, Destination, 0);
             AtThreshold(ps, 0, |rest|, if here != [] then 1 else 0, Select(l, s.fs, Destination, 1) != [])
    ensures AllWait(ps, l, s)
  {
    hide Select, Reject, Entered, GoDown;
  }

  /** And if no filter has a source to follow. */
  lemma {:induction false} ExhaustedWait(ps: Params, l: seq<nat>, s: Run)
    requires forall q :: q in l && q < |s.fs| ==> s.fs[q].saLen <= 0
    ensures AllWait(ps, l, s)
  {
    hide Select, Reject, Entered, Pass, Place;
    var here, rest := Select(l, s.fs, Destination, 0), Reject(l, s.fs, Destination, 0);
    var s1 := Entered(s, l, 0, 0);
    var t := if here != [] then EMPTY.Marked() else EMPTY;
    SourcesStay(s, l);
    ExhaustedSpread(ps, s1.fs, rest, |rest|, t, s1.n);
    assert rest[..|rest|] == rest;
    PassesNone(ps, t.Keep(rest), s1, if here != [] then 1 else 0);
    assert GoDown(ps, t, 0, 0, rest, if here != [] then 1 else 0, s1) == Grown(t.Keep(rest), s1);
  }

  lemma {:induction false} SourcesStay(s: Run, l: seq<nat>)
    requires forall q :: q in l && q < |s.fs| ==> s.fs[q].saLen <= 0
    ensures var fs1 := Entered(s, l, 0, 0).fs;
            forall q :: q in Reject(l, s.fs, Destination, 0) && q < |fs1| ==> fs1[q].saLen <= 0
  {
    AssignedIs(s.fs, l, |l|, Destination, 0, 0);
    SelectMembers(l, |l|, s.fs, Destination, 0);
    assert l[..|l|] == l;
  }

  lemma {:induction false} ExhaustedSpread(ps: Params, fs: seq<Filter>, l: seq<nat>, i: nat, t: Tree, n: nat)
    requires i <= |l| && t.Node? && forall q :: q in l && q < |fs| ==> fs[q].saLen <= 0
    ensures SpreadTo(ps, 0, fs, l, i, t, n) == Spread(t.Keep(l[..i]), [], [], n)
  {
    if i > 0 {
      ExhaustedSpread(ps, fs, l, i - 1, t, n);
      assert l[i - 1] in l;
      assert l[..i] == l[..i - 1] + [l[i - 1]];
      assert t.stubs + l[..i] == t.stubs + l[..i - 1] + [l[i - 1]];
    } else {
      assert t.stubs + l[..0] == t.stubs;
    }
  }

  lemma {:induction false} PassesNone(ps: Params, t: Tree, s: Run, my: int)
    requires t.Node?
    ensures Pass(ps, t, false, 0, 0, [], my, s) == Grown(t, s) == Pass(ps, t, true, 0, 0, [], my, s)
    ensures s.(n := s.n) == s
  {
  }

  lemma {:induction false} FinishKept(ps: Params, t: Tree, rest: seq<nat>, s: Run)
    requires Childless(t) && t.stubs == rest && NoneAt(s.fs, rest, Destination, 0)
    ensures Finish(ps, t, 0, 0, [], 0, s) ==
            FinishDown(ps, t, 0, 0, rest, Select(rest, s.fs, Destination, 1) != [], if t.valid then 1 else 0, s)
  {
    hide FinishDown, Select, Reject, Assigned;
    assert [] + t.stubs == rest;
    NothingHere(s, rest, 0, 0);
  }

  /** The second phase at a root where all filters wait. */
  lemma {:induction false} KeptRoom(ps: Params, t: Tree, rest: seq<nat>, s: Run)
    requires Childless(t) && t.stubs == rest && NoneAt(s.fs, rest, Destination, 0) && NoDup(rest)
    requires InRange(s.fs, rest) && EndBelow(rest, LensOf(s.fs), 1)
    ensures var r, z := Finish(ps, t, 0, 0, [], 0, s), if t.valid then 1 else 0;
            && OnlyAddr(s.fs, r.fs, rest, Destination) && InRange(r.fs, rest)
            && (rest != [] && z <= ps.nest - 1 ==> forall x: nat :: z + |Cover(r.fs, rest, Destination, x)| <= ps.nest)
  {
    hide Finish, FinishDown, Select, NoDup, LensOf, EndBelow, Cover, NoneAt;
    var z, below := if t.valid then 1 else 0, Select(rest, s.fs, Destination, 1) != [];
    ZeroLow(32);
    FinishKept(ps, t, rest, s);
    if rest == [] {
      NothingShared(ps, t, 0, 0, below, z, s);
    } else {
      FirstSelected(s.fs, rest, 1);
      DownRoom(ps, t, 0, 0, rest, below, z, s);
    }
  }

  /** Where all filters wait at the root the second phase is on its own: it keeps the limit exactly
      under the condition for one phase. */
  lemma {:induction false} WaitingDecides(ps: Params, l: seq<nat>, s: Run)
    requires NoDup(l) && InRange(s.fs, l) && EndBelow(l, LensOf(s.fs), 0) && AllWait(ps, l, s)
    ensures var r := Built(ps, l, s);
            && InRange(r.fs, l)
            && (NestedAtMost(r.fs, l, Destination, ps.nest) <==> LimitFits(s.fs, l, Destination, ps.nest))
  {
    hide AddStub, Finish, FinishDown, Select, Reject, NoDup, LensOf, EndBelow, Cover, Entered, NoneAt,
      AllAt, Parts, OnlyAddr, PlacedBelow, LimitFits, NestedAtMost, Room;
    var here, rest := Select(l, s.fs, Destination, 0), Reject(l, s.fs, Destination, 0);
    var s1, r := Entered(s, l, 0, 0), Built(ps, l, s);
    ZeroLow(32);
    AfterEntering(s, l, 0, 0);
    RejectNone(s.fs, s1.fs, l);
    var t := if here != [] then EMPTY.Marked() else EMPTY;
    KeptRoom(ps, t.Keep(rest), rest, s1);
    BuiltPuts(ps, l, s);
    RootNesting(s.fs, s1.fs, r.fs, l, here, rest, ps.nest);
    LimitDecides(s.fs, r.fs, l, Destination, ps.nest);
  }

  /** The empty prefix adds one to what lies below the root. */
  lemma {:induction false} RootNesting(fs: seq<Filter>, fs1: seq<Filter>, fs2: seq<Filter>, l: seq<nat>, here: seq<nat>,
                                       rest: seq<nat>, nest: int)
    requires Parts(l, here, rest) && OnlyAddr(fs1, fs2, rest, Destination) && InRange(fs2, rest)
    requires forall q :: q in here ==> q < |fs1| && fs1[q].da == 0 && fs1[q].daLen == 0
    requires (AllAt(fs, l, Destination, 0) ==> rest == []) && (NoneAt(fs, l, Destination, 0) ==> here == [])
    requires var z := if here != [] then 1 else 0;
             rest != [] && z <= nest - 1 ==> forall x: nat :: z + |Cover(fs2, rest, Destination, x)| <= nest
    ensures InRange(fs2, l)
    ensures Room(fs, l, Destination, 0, 0, nest) ==> forall x: nat :: |Cover(fs2, l, Destination, x)| <= nest
  {
    hide Cover, AllAt, NoneAt;
    HereStays(fs1, fs2, here, rest, 0, 0);
    RootInRange(fs2, l, here, rest);
    NodeNesting(fs, fs2, l, here, rest, Destination, 0, 0, 0, nest);
  }

  /** If no filter of the list has a source to follow, every run keeps the limit exactly under that
      condition. */
  lemma {:induction false} ExhaustedDecides(ps: Params, l: seq<nat>, s: Run)
    requires NoDup(l) && InRange(s.fs, l) && EndBelow(l, LensOf(s.fs), 0)
    requires forall q :: q in l && q < |s.fs| ==> s.fs[q].saLen <= 0
    ensures var r := Built(ps, l, s);
            && InRange(r.fs, l)
            && (NestedAtMost(r.fs, l, Destination, ps.nest) <==> LimitFits(s.fs, l, Destination, ps.nest))
  {
    hide Built, AllWait, NoDup, LensOf, EndBelow, LimitFits, NestedAtMost;
    ExhaustedWait(ps, l, s);
    WaitingDecides(ps, l, s);
  }

  /** More lengths than the limit, one of them 1, and the root is at the threshold. */
  lemma {:induction false} GuaranteeAtRoot(ps: Params, l: seq<nat>, s: Run)
    requires NoDup(l) && InRange(s.fs, l) && EndBelow(l, LensOf(s.fs), 0)
    requires var d := Lengths(s.fs, l, Destination);
             |d| > ps.nest && 1 in d && ps.nest == if 0 in d then 2 else 1
    ensures var r := Built(ps, l, s); InRange(r.fs, l) && NestedAtMost(r.fs, l, Destination, ps.nest)
  {
    hide Built, AllWait, NoDup, LensOf, EndBelow, NestedAtMost, Lengths, Reject;
    RestIsLong(s.fs, l);
    LengthThere(s.fs, l, 1);
    FirstSelected(s.fs, l, 1);
    ThresholdWaits(ps, l, s);
    WaitingDecides(ps, l, s);
    assert 0 !in Lengths(s.fs, l, Destination) ==> NoneAt(s.fs, l, Destination, 0) by { LengthThere(s.fs, l, 0); }
  }

  lemma {:induction false} LengthThere(fs: seq<Filter>, l: seq<nat>, k: int)
    requires InRange(fs, l)
    ensures k in Lengths(fs, l, Destination) <==> !NoneAt(fs, l, Destination, k)
  {
  }

  lemma {:induction false} RootInRange(fs: seq<Filter>, l: seq<nat>, here: seq<nat>, rest: seq<nat>)
    requires Parts(l, here, rest) && InRange(fs, rest) && forall q :: q in here ==> q < |fs|
    ensures InRange(fs, l)
  {
    InRangeAll(fs, l);
  }

  lemma {:induction false} FirstSelected(fs: seq<Filter>, l: seq<nat>, lev: nat)
    ensures Select(l, fs, Destination, lev) != [] <==> !NoneAt(fs, l, Destination, lev)
  {
    SelectMembers(l, |l|, fs, Destination, lev);
    assert l[..|l|] == l;
    FirstIn(Select(l, fs, Destination, lev));
  }

  lemma {:induction false} RejectNone(fs: seq<Filter>, fs1: seq<Filter>, l: seq<nat>)
    requires LensOf(fs1) == LensOf(fs)
    ensures NoneAt(fs1, Reject(l, fs, Destination, 0), Destination, 0)
  {
    SelectMembers(l, |l|, fs, Destination, 0);
    assert forall q: nat :: q < |fs| ==> LensOf(fs)[q] == fs[q].daLen && LensOf(fs1)[q] == fs1[q].daLen;
    assert |LensOf(fs1)| == |fs1| && |LensOf(fs)| == |fs|;
  }

  /** Under the condition every run keeps the limit. */
  lemma {:induction false} GuaranteeHolds(ps: Params, l: seq<nat>, s: Run)
    requires NoDup(l) && InRange(s.fs, l) && EndBelow(l, LensOf(s.fs), 0) && Guaranteed(s.fs, l, ps.nest)
    ensures var r := Built(ps, l, s); InRange(r.fs, l) && NestedAtMost(r.fs, l, Destination, ps.nest)
  {
    hide Built, LensOf, EndBelow, NoDup, Cover, Lengths;
    var r := Built(ps, l, s);
    if |Lengths(s.fs, l, Destination)| <= ps.nest {
      BuiltPuts(ps, l, s);
      forall x: nat
        ensures |Cover(r.fs, l, Destination, x)| <= ps.nest
      {
        CoverByLengths(r.fs, l, Destination, x);
      }
    } else {
      GuaranteeAtRoot(ps, l, s);
    }
  }

  /** Every run gives the filters of the list, and no others, proper destination prefixes. */
  lemma {:induction false} BuiltPuts(ps: Params, l: seq<nat>, s: Run)
    requires InRange(s.fs, l) && EndBelow(l, LensOf(s.fs), 0)
    ensures var r := Built(ps, l, s);
            PutBelow(s.fs, r.fs, l, 0, 0) && Lengths(r.fs, l, Destination) == Lengths(s.fs, l, Destination)
  {
    hide Built, Wrote, LensOf, EndBelow;
    var r := Built(ps, l, s);
    BuiltConserves(ps, l, s, 0);
    WroteExtends(s, r, 0, 0);
    forall q: nat
      ensures Count(Writes(s, r), q) == Count(l, q)
    {
      BuiltConserves(ps, l, s, q);
    }
    SameMembers(s, r, l, 0, 0);
    LengthsStay(s.fs, r.fs, l);
  }

  lemma {:induction false} LengthsStay(fs: seq<Filter>, fs': seq<Filter>, l: seq<nat>)
    requires OnlyAddr(fs, fs', l, Destination) && InRange(fs, l) && InRange(fs', l)
    ensures Lengths(fs', l, Destination) == Lengths(fs, l, Destination)
  {
    assert forall q :: q in l ==> fs'[q].daLen == fs[q].daLen;
  }
}
