/** What both address tries do with the filters that reach a node: the loop that gives the
    node's address to the filters whose prefix ends there and rotates the others. */
module TrieNode {
  import opened Filters

  /** The state of the loop: the filters, the list, the log of assignments, and whether a
      prefix ending here or one level below was met. */
  datatype Visit = Visit(fs: seq<Filter>, list: seq<nat>, log: seq<nat>, here: bool, below: bool)

  /** One turn of the loop. */
  ghost function Turn(v: Visit, side: Side, lev: int, addr: nat): Visit
    requires v.list != [] && v.list[0] < |v.fs|
  {
    var q := v.list[0];
    if Len(v.fs[q], side) == lev then
      Visit(v.fs[q := WithAddr(v.fs[q], side, addr)], v.list[1..], v.log + [q], true, v.below)
    else
      Visit(v.fs, v.list[1..] + [q], v.log, v.here, v.below || Len(v.fs[q], side) == lev + 1)
  }

  /** The state after i turns. */
  ghost function Visited(fs: seq<Filter>, l: seq<nat>, log: seq<nat>, i: nat, side: Side, lev: int, addr: nat): Visit
    requires i <= |l|
  {
    Visit(Assigned(fs, l, i, side, lev, addr), l[i..] + RejectTo(l, i, fs, side, lev),
          log + SelectTo(l, i, fs, side, lev),
          SelectTo(l, i, fs, side, lev) != [], SelectTo(l, i, fs, side, lev + 1) != [])
  }

  ghost predicate InRange(fs: seq<Filter>, l: seq<nat>) {
    forall j :: 0 <= j < |l| ==> l[j] < |fs|
  }

  lemma {:induction false} VisitedNext(fs: seq<Filter>, l: seq<nat>, log: seq<nat>, i: nat, side: Side, lev: int,
                                       addr: nat)
    requires InRange(fs, l) && i < |l|
    ensures var v := Visited(fs, l, log, i, side, lev, addr);
            && v.list != [] && v.list[0] < |v.fs|
            && Turn(v, side, lev, addr) == Visited(fs, l, log, i + 1, side, lev, addr)
  {
    var v := Visited(fs, l, log, i, side, lev, addr);
    var q := l[i];
    assert v.list[0] == q && v.list[1..] == l[i + 1..] + RejectTo(l, i, fs, side, lev);
    AssignedIs(fs, l, i, side, lev, addr);
    assert Len(v.fs[q], side) == Len(fs[q], side);
    var w := Visited(fs, l, log, i + 1, side, lev, addr);
    if Ends(fs, side, lev, q) {
      assert v.log + [q] == w.log;
    } else {
      assert v.list[1..] + [q] == w.list;
    }
  }

  method TakeFirst(filters: array<Filter>, ghost v: Visit, list: seq<nat>, here: bool, below: bool, side: Side,
                   lev: nat, addr: nat)
    returns (list': seq<nat>, here': bool, below': bool, ghost v': Visit)
    requires v.list != [] && v.list[0] < |v.fs|
    requires v.fs == filters[..] && v.list == list && v.here == here && v.below == below
    modifies filters
    ensures v' == Turn(v, side, lev, addr)
    ensures v'.fs == filters[..] && v'.list == list' && v'.here == here' && v'.below == below'
  {
    var q := list[0];
    list', here', below' := list[1..], here, below;
    ghost var log := v.log;
    if Len(filters[q], side) == lev {
      filters[q] := WithAddr(filters[q], side, addr);
      log := log + [q];
      here' := true;
    } else {
      list' := list' + [q];
    }
    if Len(filters[q], side) == lev + 1 { below' := true; }
    v' := Visit(filters[..], list', log, here', below');
  }

  /** The whole loop, one turn for every filter of the list. */
  method TakeHere(filters: array<Filter>, l: seq<nat>, side: Side, lev: nat, addr: nat, ghost log: seq<nat>)
    returns (rest: seq<nat>, here: bool, below: bool, ghost log': seq<nat>)
    requires InRange(filters[..], l)
    modifies filters
    ensures Visit(filters[..], rest, log', here, below) == Visited(old(filters[..]), l, log, |l|, side, lev, addr)
    ensures rest == Reject(l, old(filters[..]), side, lev)
  {
    ghost var fs := filters[..];
    ghost var v := Visit(fs, l, log, false, false);
    rest, here, below := l, false, false;
    var i := 0;
    while i < |l|
      invariant 0 <= i <= |l|
      invariant v == Visited(fs, l, log, i, side, lev, addr)
      invariant v.fs == filters[..] && v.list == rest && v.here == here && v.below == below
    {
      VisitedNext(fs, l, log, i, side, lev, addr);
      rest, here, below, v := TakeFirst(filters, v, rest, here, below, side, lev, addr);
      i := i + 1;
    }
    log' := v.log;
  }
}
