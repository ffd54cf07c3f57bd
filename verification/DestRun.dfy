/** The two phases of dbintree (db_generator/dbintree.cc) as functions of the filters, the
    parameters and the random numbers drawn: what the methods of DestTrie compute, and that both
    phases conserve the filters. */
module DestRun {
  import opened Power
  import opened Filters
  import opened TrieNode
  import opened Nesting

  /** One number per level; target skews lie between 0 and 1. */
  type Levels = s: seq<real> | |s| == 33 witness seq(33, i => 0.0)
  type Skews = s: Levels | forall i :: 0 <= i < 33 ==> 0.0 <= s[i] <= 1.0 witness seq(33, i => 0.0)

  /** What a run depends on besides its filters: the nesting limit, the statistics read from the
      parameter file, and the numbers that drand48 returns, one after the other. */
  datatype Params = Params(nest: int, skew: Skews, corr: Levels, p1child: Levels, draw: nat -> real)

  /** The filters, the filters whose destination address was written, in order, and how many
      random numbers were drawn. */
  datatype Run = Run(fs: seq<Filter>, log: seq<nat>, n: nat)

  datatype Tree = Nil | Node(valid: bool, c0: Tree, c1: Tree, wt0: nat, wt1: nat, stubs: seq<nat>)
  {
    function Kid(one: bool): Tree
      requires Node?
    {
      if one then c1 else c0
    }

    function WithKid(one: bool, kid: Tree): Tree
      requires Node?
    {
      if one then this.(c1 := kid) else this.(c0 := kid)
    }

    /** The child, made if there is none, and the weight of n more filters. */
    function Weighted(one: bool, n: nat): Tree
      requires Node?
    {
      var t := WithKid(one, OrBare(Kid(one)));
      if one then t.(wt1 := wt1 + n) else t.(wt0 := wt0 + n)
    }

    /** A prefix ends here. */
    function Marked(): Tree
      requires Node?
    {
      this.(valid := true)
    }

    /** More filters in the stub list. */
    function Keep(l: seq<nat>): Tree
      requires Node?
    {
      this.(stubs := stubs + l)
    }

    /** One more filter in the stub list. */
    function Stub(f: nat): Tree
      requires Node?
    {
      this.(stubs := stubs + [f])
    }

    /** One more filter in the stub list of a child. */
    function Pushed(one: bool, f: nat): Tree
      requires Node?
    {
      var t := Weighted(one, 1);
      t.WithKid(one, t.Kid(one).Stub(f))
    }
  }

  const EMPTY: Tree := Node(false, Nil, Nil, 0, 0, [])

  function OrBare(t: Tree): (r: Tree)
    ensures r.Node?
  {
    if t.Nil? then EMPTY else t
  }

  function KidAddr(addr: nat, lev: nat, one: bool): nat
    requires lev < 32
  {
    if one then Addr1(addr, lev) else Addr0(addr, lev)
  }

  // ---------- first phase ----------

  /** The loop over a list at a node of level lev. */
  ghost function Entered(s: Run, l: seq<nat>, lev: nat, addr: nat): Run {
    Run(Assigned(s.fs, l, |l|, Destination, lev, addr), s.log + Select(l, s.fs, Destination, lev), s.n)
  }

  /** Where the filters of a list go that do not end at a node: into the tree or on a list for
      one of the children. */
  datatype Spread = Spread(tree: Tree, l0: seq<nat>, l1: seq<nat>, n: nat)

  /** The bit of the source address that the next level follows. */
  function Bit(f: Filter, lev: nat): nat { Shr(Shl(f.sa, lev), 31) }

  /** One filter: an exhausted source prefix leaves it here; one that ends at the next level, or
      a broken correlation, takes it to the other child than the source address went to. */
  function Place(ps: Params, lev: nat, fs: seq<Filter>, f: nat, p: Spread): Spread
    requires lev < 32 && p.tree.Node?
  {
    if f >= |fs| || fs[f].saLen <= lev then
      p.(tree := p.tree.Stub(f))
    else
      var bit := Bit(fs[f], lev);
      if fs[f].saLen == lev + 1 then
        p.(tree := p.tree.Pushed(bit == 0, f))
      else if ps.draw(p.n) > ps.corr[lev + 1] then
        p.(tree := p.tree.Pushed(bit == 0, f), n := p.n + 1)
      else if bit == 1 then
        p.(l1 := p.l1 + [f], n := p.n + 1)
      else
        p.(l0 := p.l0 + [f], n := p.n + 1)
  }

  /** After the first i filters of the list. */
  function SpreadTo(ps: Params, lev: nat, fs: seq<Filter>, l: seq<nat>, i: nat, t: Tree, n: nat): (p: Spread)
    requires lev < 32 && i <= |l| && t.Node?
    ensures p.tree.Node?
  {
    if i == 0 then Spread(t, [], [], n) else Place(ps, lev, fs, l[i - 1], SpreadTo(ps, lev, fs, l, i - 1, t, n))
  }

  datatype Grown = Grown(tree: Tree, run: Run)

  /** Whether the list is long and deep enough to endanger the limit. */
  predicate AtThreshold(ps: Params, lev: nat, size: nat, myNest: int, below: bool) {
    size > 1 && myNest >= ps.nest - 1 && below && lev < 31
  }

  /** add_stub at node t. */
  ghost function AddStub(ps: Params, t: Tree, lev: nat, addr: nat, l: seq<nat>, cur: int, s: Run): (r: Grown)
    requires t.Node?
    ensures r.tree.Node?
    decreases if lev < 32 then 32 - lev else 0, 2, s.n
  {
    var rest := Reject(l, s.fs, Destination, lev);
    var s1 := Entered(s, l, lev, addr);
    var t1 := if Select(l, s.fs, Destination, lev) != [] then t.Marked() else t;
    var my := if t1.valid then cur + 1 else cur;
    if lev >= 32 || AtThreshold(ps, lev, |rest|, my, Select(l, s.fs, Destination, lev + 1) != []) then
      Grown(t1.Keep(rest), s1)
    else
      GoDown(ps, t1, lev, addr, rest, my, s1)
  }

  /** The second half of add_stub, where the limit is not near. */
  ghost function GoDown(ps: Params, t: Tree, lev: nat, addr: nat, l: seq<nat>, my: int, s: Run): (r: Grown)
    requires t.Node? && lev < 32
    ensures r.tree.Node?
    decreases 32 - lev, 1, s.n
  {
    var p := SpreadTo(ps, lev, s.fs, l, |l|, t, s.n);
    var g := Pass(ps, p.tree, false, lev, addr, p.l0, my, s.(n := p.n));
    Pass(ps, g.tree, true, lev, addr, p.l1, my, g.run)
  }

  /** A list that is not empty is passed on to a child. */
  ghost function Pass(ps: Params, t: Tree, one: bool, lev: nat, addr: nat, l: seq<nat>, my: int, s: Run): (r: Grown)
    requires t.Node? && lev < 32
    ensures r.tree.Node?
    decreases 32 - lev, 0, s.n
  {
    if l == [] then Grown(t, s)
    else
      var t1 := t.Weighted(one, |l|);
      var r := AddStub(ps, t1.Kid(one), lev + 1, KidAddr(addr, lev, one), l, my, s);
      Grown(t1.WithKid(one, r.tree), r.run)
  }

  // ---------- second phase ----------

  /** What each child is given: a list, and whether it is finished at all. Child 1 is first if
      firstOne holds. */
  datatype Shares = Shares(l0: seq<nat>, go0: bool, l1: seq<nat>, go1: bool, firstOne: bool, n: nat)
  {
    predicate Go(one: bool) { if one then go1 else go0 }
    function List(one: bool): seq<nat> { if one then l1 else l0 }
  }

  /** How finish_node shares out the filters that go on below node t. */
  ghost function Choose(ps: Params, t: Tree, lev: nat, l: seq<nat>, below: bool, my: int, fs: seq<Filter>,
                        n: nat): Shares
    requires t.Node? && lev < 32
  {
    if l == [] then Shares([], t.wt0 > 0, [], t.wt1 > 0, false, n)
    else
      var path1 := HeavyPath(ps, t, n);
      var n1 := if t.wt0 == t.wt1 then n + 1 else n;
      if AtThreshold(ps, lev, |l|, my, below) then ByEnd(lev, l, path1, fs, n1)
      else if ps.draw(n1) < ps.p1child[lev] && (t.c0.Nil? || t.c1.Nil?) then OneChild(t, l, path1, n1 + 1)
      else BySkew(ps, t, lev, l, path1, n1 + 1)
  }

  function HeavyPath(ps: Params, t: Tree, n: nat): bool
    requires t.Node?
  {
    if t.wt0 == t.wt1 then ps.draw(n) >= 0.5 else t.wt0 < t.wt1
  }

  /** Filters that end at the next level go to one child, the others to the other. */
  function ByEnd(lev: nat, l: seq<nat>, path1: bool, fs: seq<Filter>, n: nat): Shares {
    var nestList, otherList := Select(l, fs, Destination, lev + 1), Reject(l, fs, Destination, lev + 1);
    var nestOne := if |nestList| > |otherList| then path1 else !path1;
    if nestOne then Shares(otherList, true, nestList, true, true, n)
    else Shares(nestList, true, otherList, true, false, n)
  }

  function OneChild(t: Tree, l: seq<nat>, path1: bool, n: nat): Shares
    requires t.Node?
  {
    var one := if t.c0.Nil? && t.c1.Nil? then path1 else t.c0.Nil?;
    if one then Shares([], false, l, true, true, n) else Shares(l, true, [], false, false, n)
  }

  /** The number of filters that the skew leaves to the light child, given the weights. */
  function DeltaLite(ps: Params, lev: nat, size: nat, hvy: nat, lite: nat): int
    requires lev < 33
  {
    size + hvy - ((size + hvy + lite) as real / (2.0 - ps.skew[lev])).Floor
  }

  function BySkew(ps: Params, t: Tree, lev: nat, l: seq<nat>, path1: bool, n: nat): Shares
    requires t.Node? && lev < 33
  {
    var hvy, lite := if path1 then t.wt1 else t.wt0, if path1 then t.wt0 else t.wt1;
    var deltaLite := DeltaLite(ps, lev, |l|, hvy, lite);
    if deltaLite <= 0 || deltaLite >= |l| then
      var all1 := if deltaLite <= 0 then path1 else !path1;
      if all1 then Shares([], t.wt0 > 0, l, true, true, n) else Shares(l, true, [], t.wt1 > 0, false, n)
    else if path1 then Shares(l[..deltaLite], true, l[deltaLite..], true, true, n)
    else Shares(l[deltaLite..], true, l[..deltaLite], true, false, n)
  }

  function WeightOf(t: Tree, one: bool): nat
    requires t.Node?
  {
    if one then t.wt1 else t.wt0
  }

  function Clamped(x: int, size: nat): int { if x < 0 then 0 else if x > size then size else x }

  /** Where both children may be used, the first filters go to the light child and the others to the
      heavy one, as many as bring it nearest to its share of the whole weight. */
  lemma {:induction false} SharesBySkew(ps: Params, t: Tree, lev: nat, l: seq<nat>, path1: bool, n: nat)
    returns (share: int)
    requires t.Node? && lev < 33
    ensures HeavyShare(|l| + t.wt0 + t.wt1, 2.0 - ps.skew[lev], share)
    ensures var sh := BySkew(ps, t, lev, l, path1, n);
            && sh.List(!path1) + sh.List(path1) == l
            && |sh.List(path1)| == Clamped(share - WeightOf(t, path1), |l|)
  {
    hide HeavyShare;
    var weight := |l| + t.wt0 + t.wt1;
    FloorIsShare(weight, 2.0 - ps.skew[lev]);
    share := (weight as real / (2.0 - ps.skew[lev])).Floor;
  }

  /** A list goes to one child exactly if a number falls below the level's probability for that and a
      child is missing; it is the child that is there, or else the heavy path. */
  lemma {:induction false} OneChildOnly(ps: Params, t: Tree, lev: nat, l: seq<nat>, my: int, fs: seq<Filter>, n: nat)
    requires t.Node? && lev < 32 && l != []
    ensures var sh := Choose(ps, t, lev, l, false, my, fs, n);
            var path1, k := HeavyPath(ps, t, n), if t.wt0 == t.wt1 then n + 1 else n;
            if ps.draw(k) < ps.p1child[lev] && (t.c0.Nil? || t.c1.Nil?) then
              var one := if t.Kid(path1).Nil? && t.Kid(!path1).Node? then !path1 else path1;
              sh.List(one) == l && sh.List(!one) == [] && !sh.Go(!one)
            else sh == BySkew(ps, t, lev, l, path1, k + 1)
  {
  }

  /** The heavy path leads to a child that is not the lighter one; between equal ones half of the
      numbers choose child 0. */
  lemma {:induction false} HeavyPathIs(ps: Params, t: Tree, n: nat)
    requires t.Node?
    ensures WeightOf(t, HeavyPath(ps, t, n)) >= WeightOf(t, !HeavyPath(ps, t, n))
    ensures t.wt0 == t.wt1 ==> (HeavyPath(ps, t, n) <==> ps.draw(n) >= 0.5)
  {
  }

  /** At the threshold the longer list goes down the heavy path, and the filters that end at the next
      level are kept apart from the others. */
  lemma {:induction false} LongerByEnd(lev: nat, l: seq<nat>, path1: bool, fs: seq<Filter>, n: nat)
    ensures var sh := ByEnd(lev, l, path1, fs, n);
            && |sh.List(path1)| >= |sh.List(!path1)| && sh.go0 && sh.go1
            && (sh.List(sh.firstOne) == Select(l, fs, Destination, lev + 1)
                && sh.List(!sh.firstOne) == Reject(l, fs, Destination, lev + 1))
  {
  }

  /** finish_node at node t, or at a new node if there is none. */
  ghost function Finish(ps: Params, t: Tree, lev: nat, addr: nat, flist: seq<nat>, cur: int, s: Run): Run
    decreases if lev < 32 then 32 - lev else 0, 3, s.n
  {
    var t0 := OrBare(t);
    var l := flist + t0.stubs;
    var rest := Reject(l, s.fs, Destination, lev);
    var s1 := Entered(s, l, lev, addr);
    var t1 := if Select(l, s.fs, Destination, lev) != [] then t0.Marked() else t0;
    var my := if t1.valid then cur + 1 else cur;
    if lev >= 32 then s1
    else FinishDown(ps, t1, lev, addr, rest, Select(l, s.fs, Destination, lev + 1) != [], my, s1)
  }

  /** The second half of finish_node: the filters that go on are shared out and both children
      finished. */
  ghost function FinishDown(ps: Params, t: Tree, lev: nat, addr: nat, l: seq<nat>, below: bool, my: int, s: Run): Run
    requires t.Node? && lev < 32
    decreases 32 - lev, 2, s.n
  {
    var sh := Choose(ps, t, lev, l, below, my, s.fs, s.n);
    FinishBoth(ps, t, lev, addr, sh, my, s.(n := sh.n))
  }

  ghost function FinishBoth(ps: Params, t: Tree, lev: nat, addr: nat, sh: Shares, my: int, s: Run): Run
    requires t.Node? && lev < 32
    decreases 32 - lev, 1, s.n
  {
    FinishKid(ps, t, !sh.firstOne, lev, addr, sh, my, FinishKid(ps, t, sh.firstOne, lev, addr, sh, my, s))
  }

  ghost function FinishKid(ps: Params, t: Tree, one: bool, lev: nat, addr: nat, sh: Shares, my: int, s: Run): Run
    requires t.Node? && lev < 32
    decreases 32 - lev, 0, s.n
  {
    if sh.Go(one) then Finish(ps, t.Kid(one), lev + 1, KidAddr(addr, lev, one), sh.List(one), my, s) else s
  }

  /** build_tree: both phases from the root. */
  ghost function Built(ps: Params, l: seq<nat>, s: Run): Run {
    var g := AddStub(ps, EMPTY, 0, 0, l, 0, s);
    Finish(ps, g.tree, 0, 0, [], 0, g.run)
  }

  // ---------- conservation ----------

  ghost function Count(l: seq<nat>, q: nat): nat { multiset(l)[q] }

  lemma {:induction false} CountJoins(a: seq<nat>, b: seq<nat>, q: nat)
    ensures Count(a + b, q) == Count(a, q) + Count(b, q)
    ensures Count([], q) == 0 && Count([q], q) == 1 && forall f :: f != q ==> Count([f], q) == 0
  {
    assert multiset(a + b) == multiset(a) + multiset(b);
  }

  /** How often filter q waits in the stub lists of a subtree. */
  ghost function Waits(t: Tree, q: nat): nat {
    if t.Nil? then 0 else Count(t.stubs, q) + Waits(t.c0, q) + Waits(t.c1, q)
  }

  ghost predicate HasStubs(t: Tree) {
    t.Node? && (t.stubs != [] || HasStubs(t.c0) || HasStubs(t.c1))
  }

  lemma {:induction false} NoStubs(t: Tree, q: nat)
    requires !HasStubs(t)
    ensures Waits(t, q) == 0
  {
    if t.Node? {
      NoStubs(t.c0, q);
      NoStubs(t.c1, q);
    }
  }

  ghost function LensOf(fs: seq<Filter>): seq<int> { seq(|fs|, i requires 0 <= i < |fs| => fs[i].daLen) }

  /** The destination prefixes of the filters in l end at level lev or below. */
  ghost predicate EndBelow(l: seq<nat>, lens: seq<int>, lev: nat) {
    forall q :: q in l ==> q < |lens| && lev <= lens[q] <= 32
  }

  /** No filter waits above its level, and a child whose subtree has stubs has a weight. */
  ghost predicate Fit(t: Tree, lev: nat, lens: seq<int>)
    decreases t, 0
  {
    t.Node? ==>
      && EndBelow(t.stubs, lens, lev)
      && KidFits(t.c0, t.wt0, lev, lens) && KidFits(t.c1, t.wt1, lev, lens)
  }

  ghost predicate KidFits(kid: Tree, wt: nat, lev: nat, lens: seq<int>)
    decreases kid, 1
  {
    if kid.Nil? then wt == 0 else lev < 32 && Fit(kid, lev + 1, lens) && (HasStubs(kid) ==> wt > 0)
  }

  /** The filters written between two states. */
  ghost function Writes(s: Run, s': Run): seq<nat>
    requires s.log <= s'.log
  {
    s'.log[|s.log|..]
  }

  /** Only destination addresses were written, each of them as a proper prefix below the node of
      level lev at addr. */
  ghost predicate Wrote(s: Run, s': Run, addr: nat, lev: int) {
    && s.log <= s'.log
    && OnlyAddr(s.fs, s'.fs, Writes(s, s'), Destination)
    && PlacedBelow(s'.fs, Writes(s, s'), Destination, addr, lev)
  }

  lemma {:induction false} WroteNothing(s: Run, n: nat, addr: nat, lev: int, q: nat)
    ensures Wrote(s, s.(n := n), addr, lev) && Writes(s, s.(n := n)) == [] && Count([], q) == 0
  {
  }

  lemma {:induction false} WroteLens(s: Run, s': Run, addr: nat, lev: int)
    requires Wrote(s, s', addr, lev)
    ensures LensOf(s'.fs) == LensOf(s.fs)
  {
    forall i | 0 <= i < |s.fs|
      ensures LensOf(s'.fs)[i] == LensOf(s.fs)[i]
    {
      assert s'.fs[i] == WithAddr(s.fs[i], Destination, Addr(s'.fs[i], Destination));
    }
  }

  lemma {:induction false} WroteBoth(s: Run, s1: Run, s2: Run, addr: nat, lev: int, f: nat)
    requires Wrote(s, s1, addr, lev) && Wrote(s1, s2, addr, lev)
    ensures Wrote(s, s2, addr, lev) && Count(Writes(s, s2), f) == Count(Writes(s, s1), f) + Count(Writes(s1, s2), f)
  {
    CountJoins(Writes(s, s1), Writes(s1, s2), f);
    var w, w1, w2 := Writes(s, s2), Writes(s, s1), Writes(s1, s2);
    assert w == w1 + w2;
    forall i | 0 <= i < |s2.fs|
      ensures s2.fs[i] == WithAddr(s.fs[i], Destination, Addr(s2.fs[i], Destination))
    {
      assert s1.fs[i] == WithAddr(s.fs[i], Destination, Addr(s1.fs[i], Destination));
      assert s2.fs[i] == WithAddr(s1.fs[i], Destination, Addr(s2.fs[i], Destination));
    }
    forall q | q in w
      ensures q < |s2.fs| && Within(s2.fs[q].da, s2.fs[q].daLen, addr, lev)
    {
      if q in w2 {
      } else {
        assert q in w1;
      }
    }
    InRangeAll(s2.fs, w);
  }

  lemma {:induction false} InRangeAll(fs: seq<Filter>, l: seq<nat>)
    requires forall q :: q in l ==> q < |fs|
    ensures InRange(fs, l)
  {
    forall j | 0 <= j < |l|
      ensures l[j] < |fs|
    {
      assert l[j] in l;
    }
  }

  /** What lies below a child lies below its parent. */
  lemma {:induction false} WroteBelow(s: Run, s': Run, addr: nat, lev: nat, one: bool)
    requires lev < 32 && IsPrefix(addr, lev) && Wrote(s, s', KidAddr(addr, lev, one), lev + 1)
    ensures Wrote(s, s', addr, lev)
  {
    ChildAddresses(addr, lev);
  }

  lemma {:induction false} NoneEndBelow(l: seq<nat>, lens: seq<int>, lev: nat)
    requires EndBelow(l, lens, lev) && lev > 32
    ensures l == []
  {
    FirstIn(l);
  }

  lemma {:induction false} EndsInRange(fs: seq<Filter>, l: seq<nat>, lev: nat)
    requires EndBelow(l, LensOf(fs), lev)
    ensures InRange(fs, l)
  {
    InRangeAll(fs, l);
  }

  /** The filters of a list that do not end at a node end below it. */
  lemma {:induction false} RestBelow(fs: seq<Filter>, l: seq<nat>, lev: nat, addr: nat)
    requires EndBelow(l, LensOf(fs), lev)
    ensures InRange(fs, l) && EndBelow(Reject(l, fs, Destination, lev), LensOf(fs), lev + 1)
    ensures LensOf(Assigned(fs, l, |l|, Destination, lev, addr)) == LensOf(fs)
  {
    SelectMembers(l, |l|, fs, Destination, lev);
    AssignedIs(fs, l, |l|, Destination, lev, addr);
    assert l[..|l|] == l;
    InRangeAll(fs, l);
  }

  /** The loop at a node: the filters that end there are written, the others end below it. */
  lemma {:induction false} EnterWrites(s: Run, l: seq<nat>, lev: nat, addr: nat, f: nat)
    requires EndBelow(l, LensOf(s.fs), lev) && IsPrefix(addr, lev)
    ensures var s1 := Entered(s, l, lev, addr);
            var here, rest := Select(l, s.fs, Destination, lev), Reject(l, s.fs, Destination, lev);
            && Wrote(s, s1, addr, lev) && Writes(s, s1) == here
            && Count(l, f) == Count(here, f) + Count(rest, f)
            && EndBelow(rest, LensOf(s.fs), lev + 1)
            && (forall q :: q in here ==> q < |s1.fs| && s1.fs[q].da == addr && s1.fs[q].daLen == lev)
  {
    SelectMembers(l, |l|, s.fs, Destination, lev);
    SelectSplits(l, |l|, s.fs, Destination, lev);
    AssignedIs(s.fs, l, |l|, Destination, lev, addr);
    assert l[..|l|] == l;
    assert multiset(l)[f] ==
           (multiset(Select(l, s.fs, Destination, lev)) + multiset(Reject(l, s.fs, Destination, lev)))[f];
    InRangeAll(Entered(s, l, lev, addr).fs, Select(l, s.fs, Destination, lev));
  }

  lemma {:induction false} StubFits(t: Tree, f: nat, lev: nat, lens: seq<int>, q: nat)
    requires t.Node? && Fit(t, lev, lens) && f < |lens| && lev <= lens[f] <= 32
    ensures Fit(t.Stub(f), lev, lens) && Waits(t.Stub(f), q) == Waits(t, q) + Count([f], q)
  {
    CountJoins(t.stubs, [f], q);
  }

  lemma {:induction false} WeightedFits(t: Tree, one: bool, n: nat, lev: nat, lens: seq<int>, q: nat)
    requires t.Node? && Fit(t, lev, lens) && lev < 32
    ensures var r := t.Weighted(one, n);
            && r.Node? && Fit(r, lev, lens) && Waits(r, q) == Waits(t, q)
            && r.Kid(one).Node? && Fit(r.Kid(one), lev + 1, lens)
            && (n > 0 ==> (if one then r.wt1 else r.wt0) > 0)
  {
    assert Waits(EMPTY, q) == 0;
    assert Fit(EMPTY, lev + 1, lens);
  }

  /** A child with a weight may change. */
  lemma {:induction false} WithKidFits(t: Tree, one: bool, kid: Tree, lev: nat, lens: seq<int>, q: nat)
    requires t.Node? && Fit(t, lev, lens) && lev < 32 && Fit(kid, lev + 1, lens) && kid.Node?
    requires (if one then t.wt1 else t.wt0) > 0
    ensures Fit(t.WithKid(one, kid), lev, lens)
    ensures Waits(t.WithKid(one, kid), q) + Waits(t.Kid(one), q) == Waits(t, q) + Waits(kid, q)
  {
  }

  lemma {:induction false} PushedFits(t: Tree, one: bool, f: nat, lev: nat, lens: seq<int>, q: nat)
    requires t.Node? && Fit(t, lev, lens) && lev < 32 && f < |lens| && lev < lens[f] <= 32
    ensures Fit(t.Pushed(one, f), lev, lens) && Waits(t.Pushed(one, f), q) == Waits(t, q) + Count([f], q)
  {
    hide Tree.Weighted, Fit, Waits, Count;
    var t1 := t.Weighted(one, 1);
    WeightedFits(t, one, 1, lev, lens, q);
    StubFits(t1.Kid(one), f, lev + 1, lens, q);
    WithKidFits(t1, one, t1.Kid(one).Stub(f), lev, lens, q);
  }

  lemma {:induction false} LensAt(fs: seq<Filter>, f: nat)
    requires f < |fs|
    ensures |LensOf(fs)| == |fs| && LensOf(fs)[f] == fs[f].daLen
  {
  }

  ghost function PlacedIn(p: Spread, q: nat): nat { Waits(p.tree, q) + Count(p.l0, q) + Count(p.l1, q) }

  lemma {:induction false} PlaceConserves(ps: Params, lev: nat, fs: seq<Filter>, f: nat, p: Spread, q: nat)
    requires lev < 32 && p.tree.Node? && Fit(p.tree, lev, LensOf(fs)) && f < |fs| && lev < fs[f].daLen <= 32
    ensures var r := Place(ps, lev, fs, f, p);
            && r.tree.Node? && Fit(r.tree, lev, LensOf(fs)) && r.tree.valid == p.tree.valid
            && PlacedIn(r, q) == PlacedIn(p, q) + Count([f], q)
  {
    hide Fit, Waits, Bit, LensOf, Tree.Pushed, Tree.Stub, Count;
    LensAt(fs, f);
    CountJoins(p.l0, [f], q);
    CountJoins(p.l1, [f], q);
    StubFits(p.tree, f, lev, LensOf(fs), q);
    PushedFits(p.tree, Bit(fs[f], lev) == 0, f, lev, LensOf(fs), q);
    StillValid(p.tree, Bit(fs[f], lev) == 0, f);
  }

  lemma {:induction false} StillValid(t: Tree, one: bool, f: nat)
    requires t.Node?
    ensures t.Stub(f).Node? && t.Stub(f).valid == t.valid && t.Pushed(one, f).Node? && t.Pushed(one, f).valid == t.valid
  {
  }

  /** Every filter of the list goes to one place. */
  lemma {:induction false} SpreadConserves(ps: Params, lev: nat, fs: seq<Filter>, l: seq<nat>, i: nat, t: Tree, n: nat,
                                           q: nat)
    requires lev < 32 && i <= |l| && t.Node? && Fit(t, lev, LensOf(fs)) && EndBelow(l, LensOf(fs), lev + 1)
    ensures var p := SpreadTo(ps, lev, fs, l, i, t, n);
            && Fit(p.tree, lev, LensOf(fs)) && p.tree.valid == t.valid
            && PlacedIn(p, q) == Waits(t, q) + Count(l[..i], q)
  {
    hide Fit, Waits, Place, Count;
    if i > 0 {
      SpreadConserves(ps, lev, fs, l, i - 1, t, n, q);
      assert l[..i] == l[..i - 1] + [l[i - 1]];
      assert l[i - 1] in l;
      CountJoins(l[..i - 1], [l[i - 1]], q);
      PlaceConserves(ps, lev, fs, l[i - 1], SpreadTo(ps, lev, fs, l, i - 1, t, n), q);
    } else {
      CountJoins([], [], q);
    }
  }

  lemma {:induction false} SpreadBelow(ps: Params, lev: nat, fs: seq<Filter>, l: seq<nat>, i: nat, t: Tree, n: nat)
    requires lev < 32 && i <= |l| && t.Node? && EndBelow(l, LensOf(fs), lev + 1)
    ensures var p := SpreadTo(ps, lev, fs, l, i, t, n);
            EndBelow(p.l0, LensOf(fs), lev + 1) && EndBelow(p.l1, LensOf(fs), lev + 1)
  {
    if i > 0 {
      SpreadBelow(ps, lev, fs, l, i - 1, t, n);
      assert l[i - 1] in l;
    }
  }

  /** Filter q was written, or waits, as often as it waited in t or stood in l before. */
  ghost predicate Conserves(s: Run, g: Grown, t: Tree, l: seq<nat>, addr: nat, lev: nat, q: nat) {
    && Wrote(s, g.run, addr, lev) && Fit(g.tree, lev, LensOf(s.fs))
    && Waits(g.tree, q) + Count(Writes(s, g.run), q) == Waits(t, q) + Count(l, q)
  }

  /** The first phase: what is written and what waits in the tree is what was handed over and
      what waited before. */
  lemma {:induction false} AddStubConserves(ps: Params, t: Tree, lev: nat, addr: nat, l: seq<nat>, cur: int, s: Run,
                                            q: nat)
    requires lev <= 32 && IsPrefix(addr, lev) && t.Node? && Fit(t, lev, LensOf(s.fs)) && EndBelow(l, LensOf(s.fs), lev)
    ensures Conserves(s, AddStub(ps, t, lev, addr, l, cur, s), t, l, addr, lev, q)
    decreases 33 - lev, 2
  {
    hide Wrote, EndBelow, IsPrefix, Fit, Waits, Count, Entered, GoDown, LensOf, Reject, Select;
    var lens, rest := LensOf(s.fs), Reject(l, s.fs, Destination, lev);
    var s1 := Entered(s, l, lev, addr);
    var t1 := if Select(l, s.fs, Destination, lev) != [] then t.Marked() else t;
    var my := if t1.valid then cur + 1 else cur;
    EnterWrites(s, l, lev, addr, q);
    WroteLens(s, s1, addr, lev);
    ValidFits(t, lev, lens, q);
    if lev >= 32 || AtThreshold(ps, lev, |rest|, my, Select(l, s.fs, Destination, lev + 1) != []) {
      KeptFits(t1, rest, lev, lens, q);
    } else {
      GoDownConserves(ps, t1, lev, addr, rest, my, s1, q);
      WroteBoth(s, s1, GoDown(ps, t1, lev, addr, rest, my, s1).run, addr, lev, q);
    }
  }

  lemma {:induction false} ValidFits(t: Tree, lev: nat, lens: seq<int>, q: nat)
    requires t.Node? && Fit(t, lev, lens)
    ensures Fit(t.Marked(), lev, lens) && Waits(t.Marked(), q) == Waits(t, q)
  {
  }

  lemma {:induction false} KeptFits(t: Tree, l: seq<nat>, lev: nat, lens: seq<int>, q: nat)
    requires t.Node? && Fit(t, lev, lens) && EndBelow(l, lens, lev + 1)
    ensures Fit(t.Keep(l), lev, lens) && Waits(t.Keep(l), q) == Waits(t, q) + Count(l, q)
  {
    CountJoins(t.stubs, l, q);
  }

  lemma {:induction false} GoDownConserves(ps: Params, t: Tree, lev: nat, addr: nat, l: seq<nat>, my: int, s: Run,
                                           q: nat)
    requires lev < 32 && IsPrefix(addr, lev) && t.Node? && Fit(t, lev, LensOf(s.fs))
             && EndBelow(l, LensOf(s.fs), lev + 1)
    ensures Conserves(s, GoDown(ps, t, lev, addr, l, my, s), t, l, addr, lev, q)
    decreases 33 - lev, 1
  {
    hide Wrote, EndBelow, IsPrefix, Fit, Waits, Count, SpreadTo, Pass, LensOf;
    var p := SpreadTo(ps, lev, s.fs, l, |l|, t, s.n);
    SpreadConserves(ps, lev, s.fs, l, |l|, t, s.n, q);
    assert l[..|l|] == l;
    SpreadBelow(ps, lev, s.fs, l, |l|, t, s.n);
    var s1 := s.(n := p.n);
    WroteNothing(s, p.n, addr, lev, q);
    var g := Pass(ps, p.tree, false, lev, addr, p.l0, my, s1);
    PassConserves(ps, p.tree, false, lev, addr, p.l0, my, s1, q);
    WroteBoth(s, s1, g.run, addr, lev, q);
    WroteLens(s1, g.run, addr, lev);
    var h := Pass(ps, g.tree, true, lev, addr, p.l1, my, g.run);
    PassConserves(ps, g.tree, true, lev, addr, p.l1, my, g.run, q);
    WroteBoth(s, g.run, h.run, addr, lev, q);
  }

  lemma {:induction false} PassConserves(ps: Params, t: Tree, one: bool, lev: nat, addr: nat, l: seq<nat>, my: int,
                                         s: Run, q: nat)
    requires lev < 32 && IsPrefix(addr, lev) && t.Node? && Fit(t, lev, LensOf(s.fs))
             && EndBelow(l, LensOf(s.fs), lev + 1)
    ensures Conserves(s, Pass(ps, t, one, lev, addr, l, my, s), t, l, addr, lev, q)
    decreases 33 - lev, 0
  {
    hide Wrote, EndBelow, IsPrefix, Fit, Waits, Count, AddStub, LensOf, Tree.Weighted, KidAddr;
    if l == [] {
      WroteNothing(s, s.n, addr, lev, q);
      CountJoins([], [], q);
    } else {
      var t1 := t.Weighted(one, |l|);
      WeightedFits(t, one, |l|, lev, LensOf(s.fs), q);
      KidAddresses(addr, lev, one);
      var r := AddStub(ps, t1.Kid(one), lev + 1, KidAddr(addr, lev, one), l, my, s);
      AddStubConserves(ps, t1.Kid(one), lev + 1, KidAddr(addr, lev, one), l, my, s, q);
      WroteBelow(s, r.run, addr, lev, one);
      WithKidFits(t1, one, r.tree, lev, LensOf(s.fs), q);
    }
  }

  lemma {:induction false} KidAddresses(addr: nat, lev: nat, one: bool)
    requires lev < 32 && IsPrefix(addr, lev)
    ensures IsPrefix(KidAddr(addr, lev, one), lev + 1)
  {
    ChildAddresses(addr, lev);
  }

  // ---------- weights ----------

  /** The filters that a node counts: those that wait there and those below its children. */
  function Weight(t: Tree): nat
    requires t.Node?
  {
    t.wt0 + t.wt1 + |t.stubs|
  }

  lemma {:induction false} SpreadWeighs(ps: Params, lev: nat, fs: seq<Filter>, l: seq<nat>, i: nat, t: Tree, n: nat)
    requires lev < 32 && i <= |l| && t.Node?
    ensures var p := SpreadTo(ps, lev, fs, l, i, t, n); Weight(p.tree) + |p.l0| + |p.l1| == Weight(t) + i
  {
    hide Bit;
    if i > 0 {
      SpreadWeighs(ps, lev, fs, l, i - 1, t, n);
      PushedWeighs(SpreadTo(ps, lev, fs, l, i - 1, t, n).tree, true, l[i - 1]);
      PushedWeighs(SpreadTo(ps, lev, fs, l, i - 1, t, n).tree, false, l[i - 1]);
      hide Tree.Pushed;
    }
  }

  lemma {:induction false} PushedWeighs(t: Tree, one: bool, f: nat)
    requires t.Node?
    ensures t.Pushed(one, f).Node? && Weight(t.Pushed(one, f)) == Weight(t) + 1
  {
  }

  lemma {:induction false} PassWeighs(ps: Params, t: Tree, one: bool, lev: nat, addr: nat, l: seq<nat>, my: int, s: Run)
    requires t.Node? && lev < 32
    ensures Weight(Pass(ps, t, one, lev, addr, l, my, s).tree) == Weight(t) + |l|
  {
    hide AddStub, KidAddr;
  }

  /** Each filter that the first phase hands to a node ends there, waits there, or adds one to the
      weight of one of the node's children. */
  lemma {:induction false} AddStubWeighs(ps: Params, t: Tree, lev: nat, addr: nat, l: seq<nat>, cur: int, s: Run)
    requires t.Node?
    ensures Weight(AddStub(ps, t, lev, addr, l, cur, s).tree) + |Select(l, s.fs, Destination, lev)| == Weight(t) + |l|
  {
    hide Entered, SpreadTo, Pass;
    SelectSplits(l, |l|, s.fs, Destination, lev);
    var rest := Reject(l, s.fs, Destination, lev);
    var s1 := Entered(s, l, lev, addr);
    var t1 := if Select(l, s.fs, Destination, lev) != [] then t.Marked() else t;
    var my := if t1.valid then cur + 1 else cur;
    if lev < 32 {
      var p := SpreadTo(ps, lev, s1.fs, rest, |rest|, t1, s1.n);
      SpreadWeighs(ps, lev, s1.fs, rest, |rest|, t1, s1.n);
      var g := Pass(ps, p.tree, false, lev, addr, p.l0, my, s1.(n := p.n));
      PassWeighs(ps, p.tree, false, lev, addr, p.l0, my, s1.(n := p.n));
      PassWeighs(ps, g.tree, true, lev, addr, p.l1, my, g.run);
    }
  }

  // ---------- conservation in the second phase ----------

  /** Every filter of the list is given to one child, and a child that is not finished has
      neither filters nor stubs. */
  ghost predicate SharesOut(sh: Shares, t: Tree, l: seq<nat>, lev: nat, lens: seq<int>, q: nat)
    requires t.Node?
  {
    && Count(sh.l0, q) + Count(sh.l1, q) == Count(l, q)
    && EndBelow(sh.l0, lens, lev) && EndBelow(sh.l1, lens, lev)
    && (!sh.go0 ==> sh.l0 == [] && !HasStubs(t.c0))
    && (!sh.go1 ==> sh.l1 == [] && !HasStubs(t.c1))
  }

  lemma {:induction false} Weightless(t: Tree, lev: nat, lens: seq<int>)
    requires t.Node? && Fit(t, lev, lens)
    ensures t.wt0 == 0 ==> !HasStubs(t.c0)
    ensures t.wt1 == 0 ==> !HasStubs(t.c1)
  {
  }

  lemma {:induction false} PartsShare(l: seq<nat>, i: nat, lev: nat, lens: seq<int>, q: nat)
    requires i <= |l| && EndBelow(l, lens, lev)
    ensures Count(l[..i], q) + Count(l[i..], q) == Count(l, q)
    ensures EndBelow(l[..i], lens, lev) && EndBelow(l[i..], lens, lev)
  {
    assert l == l[..i] + l[i..];
    CountJoins(l[..i], l[i..], q);
  }

  lemma {:induction false} EndsShare(l: seq<nat>, fs: seq<Filter>, lev1: nat, lev: nat, q: nat)
    requires EndBelow(l, LensOf(fs), lev)
    ensures var a, b := Select(l, fs, Destination, lev1), Reject(l, fs, Destination, lev1);
            Count(a, q) + Count(b, q) == Count(l, q) && EndBelow(a, LensOf(fs), lev) && EndBelow(b, LensOf(fs), lev)
  {
    SelectMembers(l, |l|, fs, Destination, lev1);
    SelectSplits(l, |l|, fs, Destination, lev1);
    assert l[..|l|] == l;
    assert multiset(l)[q] ==
           (multiset(Select(l, fs, Destination, lev1)) + multiset(Reject(l, fs, Destination, lev1)))[q];
  }

  /** In every branch the list is shared out without loss. */
  lemma {:induction false} ChooseShares(ps: Params, t: Tree, lev: nat, l: seq<nat>, below: bool, my: int,
                                        fs: seq<Filter>, n: nat, q: nat)
    requires t.Node? && lev < 32 && Fit(t, lev, LensOf(fs)) && EndBelow(l, LensOf(fs), lev + 1)
    ensures SharesOut(Choose(ps, t, lev, l, below, my, fs, n), t, l, lev + 1, LensOf(fs), q)
  {
    hide Fit, EndBelow, Count, LensOf, Select, Reject, DeltaLite;
    Weightless(t, lev, LensOf(fs));
    PartsShare(l, 0, lev + 1, LensOf(fs), q);
    assert l[..0] == [] && l[0..] == l;
    EndsShare(l, fs, lev + 1, lev + 1, q);
    var hvy, lite := if t.wt0 <= t.wt1 then t.wt1 else t.wt0, if t.wt0 <= t.wt1 then t.wt0 else t.wt1;
    var deltaLite := DeltaLite(ps, lev, |l|, hvy, lite);
    if 0 <= deltaLite <= |l| {
      PartsShare(l, deltaLite, lev + 1, LensOf(fs), q);
    }
  }

  /** In v the children that are finished are those of t, new ones where t has none. */
  ghost predicate KidsReady(v: Tree, t: Tree, sh: Shares)
    requires v.Node? && t.Node?
  {
    (sh.go0 ==> v.c0 == OrBare(t.c0)) && (sh.go1 ==> v.c1 == OrBare(t.c1))
  }

  /** The children that are finished, and their lists, are fit for it. */
  ghost predicate KidsFit(t: Tree, sh: Shares, lev: nat, lens: seq<int>)
    requires t.Node?
  {
    && (sh.go0 ==> Fit(OrBare(t.c0), lev + 1, lens) && EndBelow(sh.l0, lens, lev + 1))
    && (sh.go1 ==> Fit(OrBare(t.c1), lev + 1, lens) && EndBelow(sh.l1, lens, lev + 1))
  }

  lemma {:induction false} ChooseFits(ps: Params, t: Tree, lev: nat, l: seq<nat>, below: bool, my: int,
                                      fs: seq<Filter>, n: nat)
    requires t.Node? && lev < 32 && Fit(t, lev, LensOf(fs)) && EndBelow(l, LensOf(fs), lev + 1)
    ensures KidsFit(t, Choose(ps, t, lev, l, below, my, fs, n), lev, LensOf(fs))
  {
    hide LensOf, Choose;
    ChooseShares(ps, t, lev, l, below, my, fs, n, 0);
  }

  /** The second phase: the list and all stub lists of the subtree are written, each filter as
      often as it stood there. */
  lemma {:induction false} FinishConserves(ps: Params, t: Tree, lev: nat, addr: nat, flist: seq<nat>, cur: int, s: Run,
                                           q: nat)
    requires lev <= 32 && IsPrefix(addr, lev) && Fit(t, lev, LensOf(s.fs)) && EndBelow(flist, LensOf(s.fs), lev)
    ensures var r := Finish(ps, t, lev, addr, flist, cur, s);
            Wrote(s, r, addr, lev) && Count(Writes(s, r), q) == Waits(t, q) + Count(flist, q)
    decreases 33 - lev, 3
  {
    hide Wrote, EndBelow, IsPrefix, Waits, Fit, Count, Entered, FinishDown, LensOf, Reject, Select;
    var t0 := OrBare(t);
    OrBareFits(t, flist, lev, LensOf(s.fs), q);
    var l := flist + t0.stubs;
    var rest := Reject(l, s.fs, Destination, lev);
    var s1 := Entered(s, l, lev, addr);
    EnterWrites(s, l, lev, addr, q);
    WroteLens(s, s1, addr, lev);
    if lev >= 32 {
      NoneLeft(t0, rest, lev, LensOf(s.fs), q);
    } else {
      var t1 := if Select(l, s.fs, Destination, lev) != [] then t0.Marked() else t0;
      ValidFits(t0, lev, LensOf(s.fs), q);
      var my := if t1.valid then cur + 1 else cur;
      var below := Select(l, s.fs, Destination, lev + 1) != [];
      FinishDownConserves(ps, t1, lev, addr, rest, below, my, s1, q);
      WroteBoth(s, s1, FinishDown(ps, t1, lev, addr, rest, below, my, s1), addr, lev, q);
    }
  }

  lemma {:induction false} FinishDownConserves(ps: Params, t: Tree, lev: nat, addr: nat, l: seq<nat>, below: bool,
                                               my: int, s: Run, q: nat)
    requires t.Node? && lev < 32 && IsPrefix(addr, lev) && Fit(t, lev, LensOf(s.fs))
             && EndBelow(l, LensOf(s.fs), lev + 1)
    ensures var r := FinishDown(ps, t, lev, addr, l, below, my, s);
            Wrote(s, r, addr, lev) && Count(Writes(s, r), q) == Waits(t.c0, q) + Waits(t.c1, q) + Count(l, q)
    decreases 33 - lev, 2
  {
    hide Wrote, EndBelow, IsPrefix, Waits, Fit, Count, FinishBoth, Choose, LensOf;
    var sh := Choose(ps, t, lev, l, below, my, s.fs, s.n);
    ChooseShares(ps, t, lev, l, below, my, s.fs, s.n, q);
    WroteNothing(s, sh.n, addr, lev, q);
    var s1 := s.(n := sh.n);
    FinishBothConserves(ps, t, lev, addr, sh, l, my, s1, q);
    WroteBoth(s, s1, FinishBoth(ps, t, lev, addr, sh, my, s1), addr, lev, q);
  }

  /** What a node's fitness says of its list and its children. */
  lemma {:induction false} FitParts(t: Tree, flist: seq<nat>, lev: nat, lens: seq<int>)
    requires t.Node? && Fit(t, lev, lens) && EndBelow(flist, lens, lev)
    ensures EndBelow(flist + t.stubs, lens, lev) && Fit(t.Marked(), lev, lens)
  {
  }

  lemma {:induction false} Weights(t: Tree, lev: nat, lens: seq<int>)
    requires t.Node? && Fit(t, lev, lens)
    ensures (t.wt0 > 0 ==> t.c0.Node?) && (t.wt1 > 0 ==> t.c1.Node?)
  {
  }

  lemma {:induction false} OrBareFits(t: Tree, flist: seq<nat>, lev: nat, lens: seq<int>, q: nat)
    requires Fit(t, lev, lens) && EndBelow(flist, lens, lev)
    ensures var t0 := OrBare(t);
            && Fit(t0, lev, lens) && EndBelow(flist + t0.stubs, lens, lev) && Waits(t0, q) == Waits(t, q)
            && Count(flist + t0.stubs, q) == Count(flist, q) + Count(t0.stubs, q)
            && Waits(t0, q) == Count(t0.stubs, q) + Waits(t0.c0, q) + Waits(t0.c1, q)
  {
    assert Waits(EMPTY, q) == 0;
    CountJoins(flist, OrBare(t).stubs, q);
  }

  /** At the last level all filters end and there are no children. */
  lemma {:induction false} NoneLeft(t: Tree, rest: seq<nat>, lev: nat, lens: seq<int>, q: nat)
    requires lev == 32 && t.Node? && Fit(t, lev, lens) && EndBelow(rest, lens, lev + 1)
    ensures rest == [] && t.c0.Nil? && t.c1.Nil? && t.wt0 == 0 && t.wt1 == 0
    ensures Count(rest, q) == 0 && Waits(t.c0, q) == 0 && Waits(t.c1, q) == 0
  {
    NoneEndBelow(rest, lens, lev + 1);
  }

  lemma {:induction false} FinishBothConserves(ps: Params, t: Tree, lev: nat, addr: nat, sh: Shares, l: seq<nat>,
                                               my: int, s: Run, q: nat)
    requires t.Node? && lev < 32 && IsPrefix(addr, lev) && Fit(t, lev, LensOf(s.fs))
    requires SharesOut(sh, t, l, lev + 1, LensOf(s.fs), q)
    ensures var r := FinishBoth(ps, t, lev, addr, sh, my, s);
            Wrote(s, r, addr, lev) && Count(Writes(s, r), q) == Waits(t.c0, q) + Waits(t.c1, q) + Count(l, q)
    decreases 33 - lev, 1
  {
    hide Wrote, EndBelow, IsPrefix, Waits, Fit, Count, LensOf, FinishKid;
    var s1 := FinishKid(ps, t, sh.firstOne, lev, addr, sh, my, s);
    FinishKidConserves(ps, t, sh.firstOne, lev, addr, sh, l, my, s, q);
    WroteLens(s, s1, addr, lev);
    FinishKidConserves(ps, t, !sh.firstOne, lev, addr, sh, l, my, s1, q);
    WroteBoth(s, s1, FinishKid(ps, t, !sh.firstOne, lev, addr, sh, my, s1), addr, lev, q);
  }

  lemma {:induction false} FinishKidConserves(ps: Params, t: Tree, one: bool, lev: nat, addr: nat, sh: Shares,
                                              l: seq<nat>, my: int, s: Run, q: nat)
    requires t.Node? && lev < 32 && IsPrefix(addr, lev) && Fit(t, lev, LensOf(s.fs))
    requires SharesOut(sh, t, l, lev + 1, LensOf(s.fs), q)
    ensures var r := FinishKid(ps, t, one, lev, addr, sh, my, s);
            Wrote(s, r, addr, lev) && Count(Writes(s, r), q) == Waits(t.Kid(one), q) + Count(sh.List(one), q)
    decreases 33 - lev, 0
  {
    hide Wrote, EndBelow, IsPrefix, Waits, Count, Finish, LensOf, KidAddr;
    if sh.Go(one) {
      KidAddresses(addr, lev, one);
      FinishConserves(ps, t.Kid(one), lev + 1, KidAddr(addr, lev, one), sh.List(one), my, s, q);
      WroteBelow(s, Finish(ps, t.Kid(one), lev + 1, KidAddr(addr, lev, one), sh.List(one), my, s), addr, lev, one);
    } else {
      WroteNothing(s, s.n, addr, lev, q);
      NoStubs(t.Kid(one), q);
    }
  }

  /** Both phases write every filter of the list as often as it stands there, to a proper prefix
      of its own length, and nothing else. */
  lemma {:induction false} BuiltConserves(ps: Params, l: seq<nat>, s: Run, q: nat)
    requires EndBelow(l, LensOf(s.fs), 0)
    ensures Wrote(s, Built(ps, l, s), 0, 0) && Count(Writes(s, Built(ps, l, s)), q) == Count(l, q)
  {
    hide Wrote, Fit, AddStub, Finish, Count;
    ZeroLow(32);
    assert Waits(EMPTY, q) == Count([], q) by { CountJoins([], [], q); }
    assert Fit(EMPTY, 0, LensOf(s.fs)) by { EmptyFits(LensOf(s.fs)); }
    var g := AddStub(ps, EMPTY, 0, 0, l, 0, s);
    AddStubConserves(ps, EMPTY, 0, 0, l, 0, s, q);
    WroteLens(s, g.run, 0, 0);
    FinishConserves(ps, g.tree, 0, 0, [], 0, g.run, q);
    WroteBoth(s, g.run, Finish(ps, g.tree, 0, 0, [], 0, g.run), 0, 0, q);
    CountJoins([], [], q);
  }

  lemma {:induction false} EmptyFits(lens: seq<int>)
    ensures Fit(EMPTY, 0, lens)
  {
  }

  /** What the first phase leaves is fit for the second one. */
  lemma {:induction false} BuiltFits(ps: Params, l: seq<nat>, s: Run)
    requires EndBelow(l, LensOf(s.fs), 0)
    ensures var g := AddStub(ps, EMPTY, 0, 0, l, 0, s);
            && Fit(g.tree, 0, LensOf(s.fs)) && LensOf(g.run.fs) == LensOf(s.fs) && EndBelow([], LensOf(s.fs), 0)
  {
    hide Wrote, AddStub;
    ZeroLow(32);
    EmptyFits(LensOf(s.fs));
    AddStubConserves(ps, EMPTY, 0, 0, l, 0, s, 0);
    WroteLens(s, AddStub(ps, EMPTY, 0, 0, l, 0, s).run, 0, 0);
  }

  lemma {:induction false} BuiltWrites(ps: Params, l: seq<nat>, s: Run)
    requires EndBelow(l, LensOf(s.fs), 0)
    ensures var r := Built(ps, l, s);
            Wrote(s, r, 0, 0) && multiset(Writes(s, r)) == multiset(l)
                && multiset(r.log) == multiset(s.log) + multiset(l)
  {
    hide Built, Wrote, EndBelow;
    var r := Built(ps, l, s);
    BuiltConserves(ps, l, s, 0);
    WroteExtends(s, r, 0, 0);
    forall q: nat
      ensures multiset(Writes(s, r))[q] == multiset(l)[q]
    {
      BuiltConserves(ps, l, s, q);
    }
  }

  lemma {:induction false} WroteExtends(s: Run, r: Run, addr: nat, lev: int)
    requires Wrote(s, r, addr, lev)
    ensures s.log <= r.log && r.log == s.log + Writes(s, r)
  {
  }
}
