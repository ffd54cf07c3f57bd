/** dbintree (db_generator/dbintree.cc): generates destination addresses in two phases. The first
    one follows the source addresses and leaves filters in the stub lists of the nodes; the second
    one takes them from there and finishes them. The methods work on heap nodes and are proved
    against the functions of DestRun. */
module DestTrie {
  import opened Power
  import opened Filters
  import opened TrieNode
  import opened Nesting
  import opened DestRun
  import opened DestLimit

  /** The part of tnode that the two phases work on. */
  class TNode {
    const lvl: nat
    var valid: bool
    var child0: TNode?
    var child1: TNode?
    var wt0: nat
    var wt1: nat
    var stubs: seq<nat>
    /** The nodes of this subtree. */
    ghost var repr: set<TNode>

    /** Every node hangs in one place, one level below its parent. */
    ghost predicate Valid()
      reads this, repr
      decreases repr
    {
      && this in repr
      && (child0 != null ==> child0 in repr && child0.repr <= repr && this !in child0.repr && child0.lvl == lvl + 1
                             && child0.Valid())
      && (child1 != null ==> child1 in repr && child1.repr <= repr && this !in child1.repr && child1.lvl == lvl + 1
                             && child1.Valid())
      && (child0 != null && child1 != null ==> child0.repr !! child1.repr)
    }

    /** The subtree as a value. */
    ghost function View(): (t: Tree)
      requires Valid()
      reads this, repr
      ensures t.Node?
      decreases repr
    {
      Node(valid, if child0 == null then Nil else child0.View(), if child1 == null then Nil else child1.View(),
           wt0, wt1, stubs)
    }

    lemma Parts()
      requires Valid()
      ensures var t := View();
              && t.valid == valid && t.wt0 == wt0 && t.wt1 == wt1 && t.stubs == stubs
              && (t.c0.Nil? <==> child0 == null) && (t.c1.Nil? <==> child1 == null)
              && this in repr
    {
    }

    lemma Kids(one: bool)
      requires Valid()
      ensures Placed(Kid(one)) && (Kid(one) != null ==> Kid(one).Valid() && View().Kid(one) == Kid(one).View())
      ensures Kid(one) != null && Kid(!one) != null ==> Kid(one).repr !! Kid(!one).repr
    {
    }

    /** Where a child hangs. */
    ghost predicate Placed(kid: TNode?)
      reads this, kid
    {
      kid != null ==> kid in repr && kid.repr <= repr && this !in kid.repr && kid.lvl == lvl + 1
    }

    constructor (lvl: nat)
      ensures Valid() && fresh(repr) && this.lvl == lvl && View() == EMPTY
    {
      this.lvl, valid, child0, child1, wt0, wt1, stubs := lvl, false, null, null, 0, 0, [];
      repr := {this};
    }

    function Kid(one: bool): TNode?
      reads this
    {
      if one then child1 else child0
    }

    /** A prefix ends here. */
    method SetValid()
      requires Valid()
      modifies this`valid
      ensures Valid() && View() == old(View()).Marked()
    {
      valid := true;
    }

    /** *(node->stubList) &= f. */
    method PushStub(f: nat)
      requires Valid()
      modifies this`stubs
      ensures Valid() && View() == old(View()).Stub(f)
    {
      stubs := stubs + [f];
    }

    /** add_node for child 0 or 1 of this node. */
    method AddChild(one: bool)
      requires Valid() && Kid(one) == null
      modifies this`child0, this`child1, this`repr
      ensures Valid() && fresh(repr - old(repr)) && old(repr) <= repr
      ensures Kid(one) != null && View() == old(View()).WithKid(one, EMPTY)
    {
      var child := new TNode(lvl + 1);
      if one { child1 := child; } else { child0 := child; }
      repr := repr + child.repr;
    }

    /** add_node where there is no child yet, and the weight of n more filters. */
    method ReadyChild(one: bool, n: nat)
      requires Valid()
      modifies this`child0, this`child1, this`repr, this`wt0, this`wt1
      ensures Valid() && fresh(repr - old(repr)) && old(repr) <= repr
      ensures Kid(one) != null && View() == old(View()).Weighted(one, n)
    {
      if Kid(one) == null { AddChild(one); }
      AddWeight(one, n);
    }

    method AddWeight(one: bool, n: nat)
      requires Valid() && Kid(one) != null
      modifies this`wt0, this`wt1
      ensures Valid() && View() == old(View()).Weighted(one, n)
    {
      if one { wt1 := wt1 + n; } else { wt0 := wt0 + n; }
    }

    /** add2child_stublist, and the weight that its callers count up. */
    method PushToChild(one: bool, f: nat)
      requires Valid()
      modifies repr
      ensures Valid() && fresh(repr - old(repr)) && old(repr) <= repr
      ensures View() == old(View()).Pushed(one, f)
    {
      ReadyChild(one, 1);
      Kid(one).PushStub(f);
    }

    /** The subtree of a child of t has grown. */
    ghost method Renew(one: bool, t: Tree)
      requires Kid(one) != null && Kid(one).Valid() && Kid(one).lvl == lvl + 1 && this !in Kid(one).repr && this in repr
      requires Placed(Kid(!one)) && Kid(!one) != null ==> Kid(!one).Valid() && Kid(!one).repr !! Kid(one).repr
      requires Placed(Kid(!one)) && t.Node? && t.Kid(!one) == if Kid(!one) == null then Nil else Kid(!one).View()
      requires valid == t.valid && wt0 == t.wt0 && wt1 == t.wt1 && stubs == t.stubs
      modifies this`repr
      ensures Valid() && repr == old(repr) + old(Kid(one).repr)
      ensures View() == t.WithKid(one, old(Kid(one).View()))
    {
      repr := repr + Kid(one).repr;
    }
  }

  class DBinTree {
    /** Maximum allowed nesting. */
    var nest: int
    /** Target skew and correlation for each level, and how likely a node has one child. */
    var skew: Skews
    var corr: Levels
    var p1child: Levels
    var root: TNode?
    /** What drand48 returns, and how often it was called. */
    const draw: nat -> real
    var drawn: nat
    /** The filters whose destination address was written, in order. */
    ghost var written: seq<nat>

    ghost function Parameters(): Params
      reads this
    {
      Params(nest, skew, corr, p1child, draw)
    }

    ghost function State(filters: array<Filter>): Run
      reads this, filters
    {
      Run(filters[..], written, drawn)
    }

    constructor (nest: int, skew: Skews, corr: Levels, p1child: Levels, draw: nat -> real)
      ensures Parameters() == Params(nest, skew, corr, p1child, draw) && root == null && drawn == 0 && written == []
    {
      this.nest, this.skew, this.corr, this.p1child, this.draw := nest, skew, corr, p1child, draw;
      root, drawn, written := null, 0, [];
    }

    method Drand48() returns (x: real)
      modifies this`drawn
      ensures x == draw(old(drawn)) && drawn == old(drawn) + 1
    {
      x := draw(drawn);
      drawn := drawn + 1;
    }

    // ---------- first phase ----------

    /** The loop of add_stub over its list. */
    method EnterStub(node: TNode, addr: nat, l: seq<nat>, filters: array<Filter>) returns (rest: seq<nat>, below: bool)
      requires node.Valid() && InRange(filters[..], l)
      modifies filters, node`valid, this`written
      ensures State(filters) == Entered(old(State(filters)), l, node.lvl, addr)
      ensures rest == Reject(l, old(filters[..]), Destination, node.lvl)
      ensures below <==> Select(l, old(filters[..]), Destination, node.lvl + 1) != []
      ensures node.Valid()
      ensures node.View() == if Select(l, old(filters[..]), Destination, node.lvl) != [] then old(node.View()).Marked()
                             else old(node.View())
    {
      hide TNode.Valid, TNode.View;
      ghost var fs := filters[..];
      ghost var t := node.View();
      var list := l;
      rest, below := [], false;
      ghost var here := [];
      for i := 0 to |l|
        invariant node.Valid() && list == l[i..] && written == old(written) + here
        invariant filters[..] == Assigned(fs, l, i, Destination, node.lvl, addr)
        invariant rest == RejectTo(l, i, fs, Destination, node.lvl) && here == SelectTo(l, i, fs, Destination, node.lvl)
        invariant below <==> SelectTo(l, i, fs, Destination, node.lvl + 1) != []
        invariant node.View() == if here != [] then t.Marked() else t
      {
        var q := list[0];
        list := list[1..];
        AssignedIs(fs, l, i, Destination, node.lvl, addr);
        if filters[q].daLen == node.lvl {
          filters[q] := filters[q].(da := addr);
          here := here + [q];
          written := written + [q];
          node.SetValid();
        } else {
          rest := rest + [q];
          if filters[q].daLen == node.lvl + 1 { below := true; }
        }
      }
    }

    /** The first phase puts one filter into a stub list or on one of the lists for the children.
        Whether correlation continues is a random choice. */
    method PlaceOne(node: TNode, f: nat, filters: array<Filter>, l0: seq<nat>, l1: seq<nat>)
        returns (r0: seq<nat>, r1: seq<nat>)
      requires node.Valid() && node.lvl < 32 && f < filters.Length
      modifies node.repr, this`drawn
      ensures node.Valid() && fresh(node.repr - old(node.repr)) && old(node.repr) <= node.repr
      ensures Spread(node.View(), r0, r1, drawn) ==
              Place(Parameters(), node.lvl, filters[..], f, Spread(old(node.View()), l0, l1, old(drawn)))
    {
      hide TNode.Valid, TNode.View, Tree.Stub, Tree.Pushed;
      node.Parts();
      r0, r1 := l0, l1;
      var lev := node.lvl;
      if filters[f].saLen <= lev {
        node.PushStub(f);
      } else {
        var sa := Shr(Shl(filters[f].sa, lev), 31);
        if filters[f].saLen == lev + 1 {
          node.PushToChild(sa == 0, f);
        } else {
          var temp := Drand48();
          if temp > corr[lev + 1] {
            node.PushToChild(sa == 0, f);
          } else if sa == 1 {
            r1 := r1 + [f];
          } else {
            r0 := r0 + [f];
          }
        }
      }
    }

    /** The loop of add_stub over the filters that go on. */
    method Distribute(node: TNode, l: seq<nat>, filters: array<Filter>) returns (l0: seq<nat>, l1: seq<nat>)
      requires node.Valid() && node.lvl < 32 && InRange(filters[..], l)
      modifies node.repr, this`drawn
      ensures node.Valid() && fresh(node.repr - old(node.repr)) && old(node.repr) <= node.repr
      ensures Spread(node.View(), l0, l1, drawn) ==
              SpreadTo(Parameters(), node.lvl, filters[..], l, |l|, old(node.View()), old(drawn))
    {
      hide Place;
      ghost var t, n := node.View(), drawn;
      l0, l1 := [], [];
      for i := 0 to |l|
        invariant node.Valid() && fresh(node.repr - old(node.repr)) && old(node.repr) <= node.repr
        invariant Spread(node.View(), l0, l1, drawn) == SpreadTo(Parameters(), node.lvl, filters[..], l, i, t, n)
      {
        l0, l1 := PlaceOne(node, l[i], filters, l0, l1);
      }
    }

    /** What add_stub needs: a list within the array, whose prefixes end at this level or below. */
    ghost predicate Ready(node: TNode, l: seq<nat>, fs: seq<Filter>)
      reads node, node.repr
    {
      node.Valid() && node.lvl <= 32 && EndBelow(l, LensOf(fs), node.lvl)
    }

    /** The end of add_stub: a list that is not empty goes to a child. */
    method PassOn(node: TNode, one: bool, addr: nat, l: seq<nat>, filters: array<Filter>, myNest: int)
      requires node.Valid() && node.lvl < 32 && EndBelow(l, LensOf(filters[..]), node.lvl + 1)
      modifies filters, node.repr, this`written, this`drawn
      ensures node.Valid() && fresh(node.repr - old(node.repr)) && old(node.repr) <= node.repr
      ensures Grown(node.View(), State(filters)) ==
              Pass(Parameters(), old(node.View()), one, node.lvl, addr, l, myNest, old(State(filters)))
      ensures LensOf(filters[..]) == old(LensOf(filters[..]))
      decreases 32 - node.lvl, 0
    {
      hide AddStub, KidAddr, EndBelow, LensOf, Tree.Weighted, TNode.Valid, TNode.View;
      node.Parts();
      if |l| > 0 {
        node.ReadyChild(one, |l|);
        ghost var t := node.View();
        node.Parts();
        node.Kids(one);
        node.Kids(!one);
        AddStubs(node.Kid(one), KidAddr(addr, node.lvl, one), l, filters, myNest);
        node.Renew(one, t);
      }
    }

    /** The second half of add_stub, where the limit is not near. */
    method Descend(node: TNode, addr: nat, l: seq<nat>, filters: array<Filter>, myNest: int)
      requires node.Valid() && node.lvl < 32 && EndBelow(l, LensOf(filters[..]), node.lvl + 1)
      modifies filters, node.repr, this`written, this`drawn
      ensures node.Valid() && fresh(node.repr - old(node.repr)) && old(node.repr) <= node.repr
      ensures Grown(node.View(), State(filters)) ==
              GoDown(Parameters(), old(node.View()), node.lvl, addr, l, myNest, old(State(filters)))
      ensures LensOf(filters[..]) == old(LensOf(filters[..]))
      decreases 32 - node.lvl, 1
    {
      hide SpreadTo, Pass, EndBelow;
      EndsInRange(filters[..], l, node.lvl + 1);
      ghost var ps, lens, t, s := Parameters(), LensOf(filters[..]), node.View(), State(filters);
      var l0, l1 := Distribute(node, l, filters);
      SpreadBelow(ps, node.lvl, s.fs, l, |l|, t, s.n);
      PassOn(node, false, addr, l0, filters, myNest);
      PassOn(node, true, addr, l1, filters, myNest);
    }

    /** The first phase at one node: filters whose prefix ends here are written, the others go to
        stub lists or down to the children. */
    method AddStubs(node: TNode, addr: nat, l: seq<nat>, filters: array<Filter>, currNest: int)
      requires Ready(node, l, filters[..])
      modifies filters, node.repr, this`written, this`drawn
      ensures node.Valid() && fresh(node.repr - old(node.repr)) && old(node.repr) <= node.repr
      ensures Grown(node.View(), State(filters)) ==
              AddStub(Parameters(), old(node.View()), node.lvl, addr, l, currNest, old(State(filters)))
      ensures LensOf(filters[..]) == old(LensOf(filters[..]))
      decreases 32 - node.lvl, 2
    {
      hide GoDown, EndBelow;
      RestBelow(filters[..], l, node.lvl, addr);
      var rest, below := EnterStub(node, addr, l, filters);
      var myNest := if node.valid then currNest + 1 else currNest;
      if |rest| > 1 && myNest >= nest - 1 && below && node.lvl < 31 {
        KeepAll(node, rest);
      } else if node.lvl < 32 {
        Descend(node, addr, rest, filters, myNest);
      } else {
        NoneEndBelow(rest, LensOf(filters[..]), node.lvl + 1);
      }
    }

    /** Where the limit is near, all filters wait in this node's stub list. */
    method KeepAll(node: TNode, l: seq<nat>)
      requires node.Valid()
      modifies node`stubs
      ensures node.Valid() && node.View() == old(node.View()).Keep(l)
    {
      for i := 0 to |l|
        invariant node.Valid() && node.View() == old(node.View()).Keep(l[..i])
      {
        node.PushStub(l[i]);
      }
      assert l[..|l|] == l;
    }

    // ---------- second phase ----------

    /** At the nesting threshold: filters that end at the next level go to one child. */
    method SplitByEnd(l: seq<nat>, lev1: nat, filters: array<Filter>) returns (nestList: seq<nat>, otherList: seq<nat>)
      requires InRange(filters[..], l)
      ensures nestList == Select(l, filters[..], Destination, lev1)
              && otherList == Reject(l, filters[..], Destination, lev1)
    {
      nestList, otherList := [], [];
      var list := l;
      for i := 0 to |l|
        invariant list == l[i..]
        invariant nestList == SelectTo(l, i, filters[..], Destination, lev1)
        invariant otherList == RejectTo(l, i, filters[..], Destination, lev1)
      {
        var fptr := list[0];
        if filters[fptr].daLen == lev1 {
          nestList := nestList + [fptr];
        } else {
          otherList := otherList + [fptr];
        }
        list := list[1..];
      }
    }

    /** How many filters the skew gives to the heavy and to the light child, given the weights
        they have: together as many as there are. */
    method SkewDeltas(lev: nat, size: nat, hvy: nat, lite: nat) returns (deltaHvy: int, deltaLite: int)
      requires lev < 33
      ensures deltaHvy + deltaLite == size && deltaLite == DeltaLite(Parameters(), lev, size, hvy, lite)
    {
      var total := size + hvy + lite;
      var thvy := (total as real / (2.0 - skew[lev])).Floor;
      var tlite := total - thvy;
      deltaHvy := thvy - hvy;
      deltaLite := tlite - lite;
    }

    /** The first n filters of a list and the others. */
    method SplitOff(l: seq<nat>, n: nat) returns (taken: seq<nat>, others: seq<nat>)
      requires n <= |l|
      ensures taken == l[..n] && others == l[n..]
    {
      taken, others := [], l;
      for i := 0 to n
        invariant taken == l[..i] && others == l[i..]
      {
        taken := taken + [others[0]];
        others := others[1..];
      }
    }

    /** How finish_node shares out the filters that go on below a node. A child that is finished
        is there afterwards, and the subtrees are what they were. */
    method ChooseShares(node: TNode, l: seq<nat>, below: bool, myNest: int, filters: array<Filter>) returns (sh: Shares)
      requires node.Valid() && node.lvl < 32 && InRange(filters[..], l)
      requires (node.wt0 > 0 ==> node.View().c0.Node?) && (node.wt1 > 0 ==> node.View().c1.Node?)
      modifies node`child0, node`child1, node`repr, node`wt0, node`wt1, this`drawn
      ensures node.Valid() && fresh(node.repr - old(node.repr)) && old(node.repr) <= node.repr
      ensures KidsReady(node.View(), old(node.View()), sh) && sh.n == drawn
      ensures sh == Choose(Parameters(), old(node.View()), node.lvl, l, below, myNest, filters[..], old(drawn))
    {
      hide DeltaLite, Select, Reject, TNode.Valid, TNode.View, HeavyPath, ByEnd, OneChild, BySkew;
      node.Parts();
      if l == [] {
        return Shares([], node.wt0 > 0, [], node.wt1 > 0, false, drawn);
      }
      var path1 := HeavyChild(node);
      if |l| > 1 && myNest >= nest - 1 && below && node.lvl < 31 {
        sh := ChooseByEnd(node, l, path1, filters);
      } else {
        var temp := Drand48();
        if temp < p1child[node.lvl] && (node.child0 == null || node.child1 == null) {
          sh := ChooseOneChild(node, l, path1);
        } else {
          sh := ChooseBySkew(node, l, path1);
        }
      }
    }

    method HeavyChild(node: TNode) returns (path1: bool)
      requires node.Valid()
      modifies this`drawn
      ensures path1 == HeavyPath(Parameters(), node.View(), old(drawn))
      ensures drawn == if node.wt0 == node.wt1 then old(drawn) + 1 else old(drawn)
    {
      if node.wt0 > node.wt1 {
        path1 := false;
      } else if node.wt0 < node.wt1 {
        path1 := true;
      } else {
        var temp := Drand48();
        path1 := temp >= 0.5;
      }
    }

    method ChooseByEnd(node: TNode, l: seq<nat>, path1: bool, filters: array<Filter>) returns (sh: Shares)
      requires node.Valid() && node.lvl < 32 && InRange(filters[..], l)
      modifies node`child0, node`child1, node`repr, node`wt0, node`wt1
      ensures node.Valid() && fresh(node.repr - old(node.repr)) && old(node.repr) <= node.repr
      ensures KidsReady(node.View(), old(node.View()), sh)
      ensures sh == ByEnd(node.lvl, l, path1, filters[..], drawn) && sh.n == drawn
    {
      hide TNode.Valid, TNode.View, Select, Reject;
      var nestList, otherList := SplitByEnd(l, node.lvl + 1, filters);
      var nestOne := if |nestList| > |otherList| then path1 else !path1;
      sh := if nestOne then Shares(otherList, true, nestList, true, true, drawn)
            else Shares(nestList, true, otherList, true, false, drawn);
      node.ReadyChild(false, |sh.l0|);
      node.ReadyChild(true, |sh.l1|);
    }

    method ChooseOneChild(node: TNode, l: seq<nat>, path1: bool) returns (sh: Shares)
      requires node.Valid() && node.lvl < 32 && (node.child0 == null || node.child1 == null)
      modifies node`child0, node`child1, node`repr
      ensures node.Valid() && fresh(node.repr - old(node.repr)) && old(node.repr) <= node.repr
      ensures KidsReady(node.View(), old(node.View()), sh)
      ensures sh == OneChild(old(node.View()), l, path1, drawn) && sh.n == drawn
    {
      if node.child0 != null {
        return Shares(l, true, [], false, false, drawn);
      } else if node.child1 != null {
        return Shares([], false, l, true, true, drawn);
      } else {
        node.AddChild(path1);
        return if path1 then Shares([], false, l, true, true, drawn) else Shares(l, true, [], false, false, drawn);
      }
    }

    method ChooseBySkew(node: TNode, l: seq<nat>, path1: bool) returns (sh: Shares)
      requires node.Valid() && node.lvl < 32
      requires (node.wt0 > 0 ==> node.View().c0.Node?) && (node.wt1 > 0 ==> node.View().c1.Node?)
      modifies node`child0, node`child1, node`repr, node`wt0, node`wt1
      ensures node.Valid() && fresh(node.repr - old(node.repr)) && old(node.repr) <= node.repr
      ensures KidsReady(node.View(), old(node.View()), sh)
      ensures sh == BySkew(Parameters(), old(node.View()), node.lvl, l, path1, drawn) && sh.n == drawn
    {
      hide DeltaLite, TNode.Valid, TNode.View;
      node.Parts();
      var hvy := if path1 then node.wt1 else node.wt0;
      var lite := if path1 then node.wt0 else node.wt1;
      var deltaHvy, deltaLite := SkewDeltas(node.lvl, |l|, hvy, lite);
      if deltaLite <= 0 || deltaHvy <= 0 {
        var all1 := if deltaLite <= 0 then path1 else !path1;
        sh := if all1 then Shares([], node.wt0 > 0, l, true, true, drawn)
              else Shares(l, true, [], node.wt1 > 0, false, drawn);
        node.ReadyChild(all1, |l|);
      } else {
        var liteList, hvyList := SplitOff(l, deltaLite);
        sh := if path1 then Shares(liteList, true, hvyList, true, true, drawn)
              else Shares(hvyList, true, liteList, true, false, drawn);
        node.ReadyChild(path1, deltaHvy);
        node.ReadyChild(!path1, deltaLite);
      }
    }

    /** The list handed to a node and the filters in its stub list, one after the other. */
    method Gather(flist: seq<nat>, stubs: seq<nat>) returns (l: seq<nat>)
      ensures l == flist + stubs
    {
      l := [];
      for i := 0 to |flist|
        invariant l == flist[..i]
      {
        l := l + [flist[i]];
      }
      for i := 0 to |stubs|
        invariant l == flist + stubs[..i]
      {
        l := l + [stubs[i]];
      }
    }

    /** The loop of finish_node over its list. */
    method EnterFinish(node: TNode, addr: nat, l: seq<nat>, filters: array<Filter>)
        returns (rest: seq<nat>, below: bool)
      requires node.Valid() && InRange(filters[..], l)
      modifies filters, node`valid, this`written
      ensures State(filters) == Entered(old(State(filters)), l, node.lvl, addr)
      ensures rest == Reject(l, old(filters[..]), Destination, node.lvl)
      ensures below <==> Select(l, old(filters[..]), Destination, node.lvl + 1) != []
      ensures node.Valid()
      ensures node.View() == if Select(l, old(filters[..]), Destination, node.lvl) != [] then old(node.View()).Marked()
                             else old(node.View())
    {
      var any;
      rest, any, below, written := TakeHere(filters, l, Destination, node.lvl, addr, written);
      if any { node.SetValid(); }
    }

    /** The second phase at a node and below. */
    method FinishNode(node: TNode, addr: nat, flist: seq<nat>, filters: array<Filter>, currNest: int)
      requires Ready(node, flist, filters[..]) && Fit(node.View(), node.lvl, LensOf(filters[..]))
      modifies filters, node.repr, this`written, this`drawn
      ensures State(filters) ==
              Finish(Parameters(), old(node.View()), node.lvl, addr, flist, currNest, old(State(filters)))
      ensures LensOf(filters[..]) == old(LensOf(filters[..]))
      decreases 32 - node.lvl, 3
    {
      hide EndBelow, LensOf, FinishDown, Fit, Select, Reject, TNode.View;
      node.Parts();
      ghost var fs, lens := filters[..], LensOf(filters[..]);
      ghost var t := node.View();
      var l := Gather(flist, node.stubs);
      FitParts(t, flist, node.lvl, lens);
      RestBelow(filters[..], l, node.lvl, addr);
      var rest, below := EnterFinish(node, addr, l, filters);
      node.Parts();
      var myNest := if node.valid then currNest + 1 else currNest;
      if node.lvl < 32 {
        FinishRest(node, addr, rest, below, filters, myNest);
      }
    }

    /** The second half of finish_node. */
    method FinishRest(node: TNode, addr: nat, l: seq<nat>, below: bool, filters: array<Filter>, myNest: int)
      requires node.Valid() && node.lvl < 32 && EndBelow(l, LensOf(filters[..]), node.lvl + 1)
      requires Fit(node.View(), node.lvl, LensOf(filters[..]))
      modifies filters, node.repr, this`written, this`drawn
      ensures State(filters) ==
              FinishDown(Parameters(), old(node.View()), node.lvl, addr, l, below, myNest, old(State(filters)))
      ensures LensOf(filters[..]) == old(LensOf(filters[..]))
      decreases 32 - node.lvl, 2
    {
      hide EndBelow, LensOf, Choose, FinishBoth, Fit, TNode.View;
      ghost var t, s := node.View(), State(filters);
      EndsInRange(filters[..], l, node.lvl + 1);
      Weights(t, node.lvl, LensOf(filters[..]));
      node.Parts();
      ChooseFits(Parameters(), t, node.lvl, l, below, myNest, s.fs, s.n);
      var sh := ChooseShares(node, l, below, myNest, filters);
      FinishKids(node, t, addr, sh, filters, myNest);
    }

    /** finish_node for a child, or nothing. */
    method FinishKid(kid: TNode?, ghost t: Tree, go: bool, addr: nat, ghost lev: nat, l: seq<nat>,
                     filters: array<Filter>, myNest: int)
      requires go ==> kid != null && kid.lvl == lev && Ready(kid, l, filters[..]) && kid.View() == OrBare(t)
      requires go ==> Fit(OrBare(t), lev, LensOf(filters[..])) && lev <= 32
      modifies filters, if go then kid.repr else {}, this`written, this`drawn
      ensures State(filters) ==
              if go then Finish(Parameters(), t, lev, addr, l, myNest, old(State(filters))) else old(State(filters))
      ensures LensOf(filters[..]) == old(LensOf(filters[..]))
      decreases 32 - lev, 4
    {
      hide LensOf, Fit, EndBelow, TNode.Valid;
      if go {
        FinishNode(kid, addr, l, filters, myNest);
      }
    }

    /** Both children of a node, one after the other, as the list was shared out. */
    method FinishKids(node: TNode, ghost t: Tree, addr: nat, sh: Shares, filters: array<Filter>, myNest: int)
      requires node.Valid() && node.lvl < 32 && t.Node? && KidsReady(node.View(), t, sh)
      requires KidsFit(t, sh, node.lvl, LensOf(filters[..]))
      modifies filters, node.repr, this`written, this`drawn
      ensures State(filters) ==
              FinishBoth(Parameters(), t, node.lvl, addr, sh, myNest, old(State(filters)))
      ensures LensOf(filters[..]) == old(LensOf(filters[..]))
      decreases 32 - node.lvl, 1
    {
      hide LensOf, Fit, EndBelow, KidAddr, Finish;
      var one, lev := sh.firstOne, node.lvl;
      var a, b := node.Kid(one), node.Kid(!one);
      FinishKid(a, t.Kid(one), sh.Go(one), KidAddr(addr, lev, one), lev + 1, sh.List(one), filters, myNest);
      FinishKid(b, t.Kid(!one), sh.Go(!one), KidAddr(addr, lev, !one), lev + 1, sh.List(!one), filters, myNest);
    }

    /** build_tree: every filter of the list gets its destination address as often as it stands
        in the list, a prefix of its own length written with zeros below it, and no other field
        changes. The nesting limit is kept if the prefix lengths guarantee it. */
    method BuildTree(flist: seq<nat>, filters: array<Filter>)
      requires EndBelow(flist, LensOf(filters[..]), 0)
      modifies filters, this`root, this`written, this`drawn
      ensures State(filters) == Built(Parameters(), flist, old(State(filters)))
      ensures multiset(written) == multiset(old(written)) + multiset(flist)
      ensures PutBelow(old(filters[..]), filters[..], flist, 0, 0)
      ensures InRange(old(filters[..]), flist) && InRange(filters[..], flist)
      ensures NoDup(flist) && Guaranteed(old(filters[..]), flist, nest) ==>
                NestedAtMost(filters[..], flist, Destination, nest)
    {
      hide AddStub, Finish, EndBelow, LensOf, Fit, Wrote, Guaranteed, NestedAtMost;
      ghost var ps, s := Parameters(), State(filters);
      EndsInRange(s.fs, flist, 0);
      var tempList := Gather([], flist);
      assert tempList == flist;
      root := new TNode(0);
      AddStubs(root, 0, tempList, filters, 0);
      BuiltFits(ps, flist, s);
      FinishNode(root, 0, [], filters, 0);
      BuiltWrites(ps, flist, s);
      BuiltPuts(ps, flist, s);
      if NoDup(flist) && Guaranteed(s.fs, flist, nest) {
        GuaranteeHolds(ps, flist, s);
      }
    }
  }
}
