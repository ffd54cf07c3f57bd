/** Duplicate removal (remove_redundant_filters in db_generator/custom_db.cc and redundant_check
    in db_generator/redundant_filter_check.cc): filters are compared within tuple buckets only. */
module RedundantFilters {
  import opened Filters
  import opened Power
  import opened TupleBst

  // ---------- the comparison ----------

  /** An address with the bits below its prefix length masked. */
  function Masked(addr: nat, len: int): nat {
    if 1 <= len <= 32 then Shl(Shr(addr, 32 - len), 32 - len) else 0
  }

  predicate SaPrefixMatch(f: Filter, g: Filter) { f.saLen == g.saLen && Masked(f.sa, f.saLen) == Masked(g.sa, g.saLen) }
  predicate DaPrefixMatch(f: Filter, g: Filter) { f.daLen == g.daLen && Masked(f.da, f.daLen) == Masked(g.da, g.daLen) }
  predicate SpRangeMatch(f: Filter, g: Filter) { f.spLo == g.spLo && f.spHi == g.spHi }
  predicate DpRangeMatch(f: Filter, g: Filter) { f.dpLo == g.dpLo && f.dpHi == g.dpHi }
  predicate ProtMatch(f: Filter, g: Filter) { f.prot == g.prot }
  predicate FlagMatch(f: Filter, g: Filter) { f.flags == g.flags && f.flagsMask == g.flagsMask }

  predicate RedundantCheck(f: Filter, g: Filter) {
    && SaPrefixMatch(f, g) && DaPrefixMatch(f, g)
    && SpRangeMatch(f, g) && DpRangeMatch(f, g)
    && ProtMatch(f, g) && FlagMatch(f, g)
  }

  lemma {:induction false} MaskRounds(addr: nat, k: nat)
    requires k <= 32 && addr < ADDRESSES
    ensures Shl(Shr(addr, k), k) <= addr < Shl(Shr(addr, k), k) + Pow2(k)
    ensures LowZeros(Shl(Shr(addr, k), k), k)
  {
    if k > 0 {
      MaskRounds(addr / 2, k - 1);
      var x := Shl(Shr(addr / 2, k - 1), k - 1);
      assert Shl(Shr(addr, k), k) == x * 2 % ADDRESSES == x * 2;
      EvenRounds(x, k);
    }
  }

  lemma {:induction false} EvenRounds(x: nat, k: nat)
    requires k > 0 && LowZeros(x, k - 1)
    ensures LowZeros(x * 2, k)
  {
    assert x * 2 % 2 == 0 && x * 2 / 2 == x;
  }

  /** Two addresses compare equal exactly when one lies under the other's prefix. */
  lemma {:induction false} MatchMeansSamePrefix(a: nat, b: nat, len: int)
    requires 0 <= len <= 32 && a < ADDRESSES && b < ADDRESSES
    ensures IsPrefix(Masked(a, len), len) && Covers(Masked(a, len), len, a)
    ensures Masked(a, len) == Masked(b, len) <==> Covers(Masked(a, len), len, b)
  {
    if len == 0 {
      ZeroLow(32);
      AddressCount();
    } else {
      MaskRounds(a, 32 - len);
      MaskRounds(b, 32 - len);
      if Covers(Masked(a, len), len, b) {
        AlignedUnique(Masked(a, len), b, 32 - len);
      }
    }
  }

  // ---------- buckets ----------

  /** The tuple that remove_redundant_filters files a filter under. */
  function TupleOf(f: Filter): FiveTuple {
    FiveTuple(f.saLen, f.daLen, f.spHi - f.spLo + 1, f.dpHi - f.dpLo + 1,
              if f.prot > 0 then 1 else 0, if f.flagsMask > 0 then 1 else 0)
  }

  /** Filter i is the first of its class among all filters, whatever their buckets. */
  ghost predicate First(fs: seq<Filter>, i: int) {
    1 <= i < |fs| && forall j {:trigger RedundantCheck(fs[i], fs[j])} :: 1 <= j < i ==> !RedundantCheck(fs[i], fs[j])
  }

  /** The firsts among filters 1..i that belong to a tuple, in order. */
  ghost function KeptOf(fs: seq<Filter>, i: nat, t: FiveTuple): seq<nat>
    requires i == 0 || i < |fs|
  {
    if i == 0 then []
    else if TupleOf(fs[i]) == t && First(fs, i) then KeptOf(fs, i - 1, t) + [i]
    else KeptOf(fs, i - 1, t)
  }

  ghost predicate Ascending(l: seq<nat>) {
    forall a, b :: 0 <= a < b < |l| ==> l[a] < l[b]
  }

  lemma {:induction false} KeptBounds(fs: seq<Filter>, i: nat, t: FiveTuple)
    requires i == 0 || i < |fs|
    ensures forall k :: k in KeptOf(fs, i, t) ==> 1 <= k <= i
    ensures forall a :: 0 <= a < |KeptOf(fs, i, t)| ==> KeptOf(fs, i, t)[a] <= i
  {
    if i > 0 { KeptBounds(fs, i - 1, t); }
  }

  lemma {:induction false} KeptHas(fs: seq<Filter>, i: nat, t: FiveTuple, k: nat)
    requires 1 <= k <= i < |fs| && First(fs, k) && TupleOf(fs[k]) == t
    ensures k in KeptOf(fs, i, t)
  {
    if k < i { KeptHas(fs, i - 1, t, k); }
  }

  lemma {:induction false} KeptMembers(fs: seq<Filter>, i: nat, t: FiveTuple)
    requires i == 0 || i < |fs|
    ensures forall k {:trigger k in KeptOf(fs, i, t)} :: k in KeptOf(fs, i, t) <==>
            1 <= k <= i && First(fs, k) && TupleOf(fs[k]) == t
    ensures Ascending(KeptOf(fs, i, t))
  {
    if i > 0 {
      KeptMembers(fs, i - 1, t);
      var prev := KeptOf(fs, i - 1, t);
      forall a | 0 <= a < |prev|
        ensures prev[a] < i
      {
        assert prev[a] in prev;
      }
    }
  }

  /** The first filter of i's class. */
  lemma {:induction false} FirstOfClass(fs: seq<Filter>, i: nat, j: nat) returns (k: nat)
    requires 1 <= j < i < |fs| && RedundantCheck(fs[i], fs[j])
    ensures 1 <= k <= j && First(fs, k) && RedundantCheck(fs[i], fs[k])
    decreases j
  {
    if First(fs, j) {
      k := j;
    } else {
      var l :| 1 <= l < j && RedundantCheck(fs[j], fs[l]);
      RedundantIsEquivalence(fs[i], fs[j], fs[l]);
      k := FirstOfClass(fs, i, l);
    }
  }

  /** Filter i repeats one of the listed ones. */
  ghost predicate Repeats(fs: seq<Filter>, i: nat, l: seq<nat>)
    requires i < |fs|
  {
    exists a :: 0 <= a < |l| && l[a] < |fs| && RedundantCheck(fs[i], fs[l[a]])
  }

  /** The comparison is an equivalence, finer than that by tuple. */
  lemma {:induction false} RedundantIsEquivalence(f: Filter, g: Filter, h: Filter)
    ensures RedundantCheck(f, f) && (RedundantCheck(f, g) <==> RedundantCheck(g, f))
    ensures RedundantCheck(f, g) && RedundantCheck(g, h) ==> RedundantCheck(f, h)
    ensures RedundantCheck(f, g) ==> TupleOf(f) == TupleOf(g)
  {
  }

  lemma {:induction false} NotFirstRepeats(fs: seq<Filter>, i: nat)
    requires 1 <= i < |fs| && !First(fs, i)
    ensures Repeats(fs, i, KeptOf(fs, i - 1, TupleOf(fs[i])))
  {
    var j :| 1 <= j < i && RedundantCheck(fs[i], fs[j]);
    var k := FirstOfClass(fs, i, j);
    RedundantIsEquivalence(fs[i], fs[k], fs[i]);
    KeptHas(fs, i - 1, TupleOf(fs[i]), k);
    RepeatsMember(fs, i, KeptOf(fs, i - 1, TupleOf(fs[i])), k);
  }

  lemma {:induction false} RepeatsMember(fs: seq<Filter>, i: nat, l: seq<nat>, k: nat)
    requires i < |fs| && k in l && k < |fs| && RedundantCheck(fs[i], fs[k])
    ensures Repeats(fs, i, l)
  {
  }

  /** Comparing with the kept filters of one bucket decides what comparing with all earlier
      filters would. */
  lemma {:induction false} BucketSuffices(fs: seq<Filter>, i: nat)
    requires 1 <= i < |fs|
    ensures First(fs, i) <==> !Repeats(fs, i, KeptOf(fs, i - 1, TupleOf(fs[i])))
  {
    if First(fs, i) {
      KeptBounds(fs, i - 1, TupleOf(fs[i]));
      FirstRepeatsNone(fs, i, KeptOf(fs, i - 1, TupleOf(fs[i])));
    } else {
      NotFirstRepeats(fs, i);
    }
  }

  lemma {:induction false} FirstRepeatsNone(fs: seq<Filter>, i: nat, l: seq<nat>)
    requires First(fs, i) && forall k :: k in l ==> 1 <= k < i
    ensures !Repeats(fs, i, l)
  {
    forall a | 0 <= a < |l|
      ensures 1 <= l[a] < i
    {
      assert l[a] in l;
    }
  }

  // ---------- the order of the output ----------

  /** The first filter with a tuple, or n + 1 if filters 1..n have none. */
  ghost function FirstWith(fs: seq<Filter>, n: nat, t: FiveTuple): nat
    requires n == 0 || n < |fs|
  {
    if n == 0 then 1
    else if FirstWith(fs, n - 1, t) < n then FirstWith(fs, n - 1, t)
    else if TupleOf(fs[n]) == t then n
    else n + 1
  }

  ghost function Rank(fs: seq<Filter>, n: nat): Node -> int
    requires n == 0 || n < |fs|
  {
    (m: Node) => FirstWith(fs, n, m.tuple)
  }

  /** It has the tuple if there is one, and no filter before it has. */
  lemma {:induction false} FirstWithIs(fs: seq<Filter>, n: nat, t: FiveTuple)
    requires n == 0 || n < |fs|
    ensures 1 <= FirstWith(fs, n, t) <= n + 1
    ensures FirstWith(fs, n, t) <= n ==> TupleOf(fs[FirstWith(fs, n, t)]) == t
    ensures forall j :: 1 <= j < FirstWith(fs, n, t) && j <= n ==> TupleOf(fs[j]) != t
  {
    if n > 0 { FirstWithIs(fs, n - 1, t); }
  }

  /** Filter i comes before filter j in the output: of smaller scope, or of a tuple of the same
      scope that was met earlier, or earlier in the same tuple. */
  ghost predicate Before(fs: seq<Filter>, n: nat, i: nat, j: nat)
    requires n < |fs| && i < |fs| && j < |fs|
  {
    var s, t := TupleOf(fs[i]), TupleOf(fs[j]);
    || Scope(s) < Scope(t)
    || (Scope(s) == Scope(t) && FirstWith(fs, n, s) < FirstWith(fs, n, t))
    || (s == t && i < j)
  }

  /** The kept filters of a list of nodes. */
  ghost function Flat(fs: seq<Filter>, n: nat, ns: seq<Node>): seq<nat>
    requires n == 0 || n < |fs|
  {
    if ns == [] then [] else Flat(fs, n, ns[..|ns| - 1]) + KeptOf(fs, n, ns[|ns| - 1].tuple)
  }

  /** Every two of the listed filters stand in the order of the output. */
  ghost predicate InOrder(fs: seq<Filter>, n: nat, l: seq<nat>)
    requires n < |fs|
  {
    && (forall a :: 0 <= a < |l| ==> l[a] < |fs|)
    && forall a, b :: 0 <= a < b < |l| ==> Before(fs, n, l[a], l[b])
  }

  lemma {:induction false} FlatMembers(fs: seq<Filter>, n: nat, ns: seq<Node>)
    requires n < |fs|
    ensures forall k {:trigger k in Flat(fs, n, ns)} :: k in Flat(fs, n, ns) <==>
            1 <= k <= n && First(fs, k) && HasTuple(ns, TupleOf(fs[k]))
  {
    if ns != [] {
      var rest, last := ns[..|ns| - 1], ns[|ns| - 1];
      FlatMembers(fs, n, rest);
      KeptMembers(fs, n, last.tuple);
      assert ns == rest + [last];
      forall t
        ensures HasTuple(ns, t) <==> HasTuple(rest, t) || last.tuple == t
      {
        if HasTuple(rest, t) {
          var i :| 0 <= i < |rest| && rest[i].tuple == t;
          assert ns[i].tuple == t;
        }
        if last.tuple == t { assert ns[|ns| - 1].tuple == t; }
      }
    }
  }

  lemma {:induction false} FlatInOrder(fs: seq<Filter>, n: nat, ns: seq<Node>)
    requires n < |fs| && RankSorted(ns, Rank(fs, n))
    requires forall a :: 0 <= a < |ns| ==> ns[a].scope == Scope(ns[a].tuple)
    ensures InOrder(fs, n, Flat(fs, n, ns))
  {
    if ns != [] {
      var rest, last := ns[..|ns| - 1], ns[|ns| - 1];
      FlatInOrder(fs, n, rest);
      FlatMembers(fs, n, rest);
      KeptMembers(fs, n, last.tuple);
      var p, q := Flat(fs, n, rest), KeptOf(fs, n, last.tuple);
      forall b | 0 <= b < |q|
        ensures q[b] < |fs| && TupleOf(fs[q[b]]) == last.tuple
      {
        assert q[b] in q;
      }
      forall a, b | 0 <= a < |p| && 0 <= b < |q|
        ensures Before(fs, n, p[a], q[b])
      {
        assert p[a] in p;
        var c :| 0 <= c < |rest| && rest[c].tuple == TupleOf(fs[p[a]]);
        assert Precedes(ns[c], ns[|ns| - 1], Rank(fs, n));
      }
    }
  }

  // ---------- the removal itself ----------

  /** What the first loop knows of the tuples after filters 1..i: every tuple met has a node, and
      the nodes were created in the order in which their tuples were first met. */
  ghost predicate Met(fs: seq<Filter>, i: nat, created: seq<Node>)
    requires i == 0 || i < |fs|
  {
    && (forall a :: 0 <= a < |created| ==> created[a].scope == Scope(created[a].tuple))
    && (forall a :: 0 <= a < |created| ==> FirstWith(fs, i, created[a].tuple) <= i)
    && (forall j :: 1 <= j <= i ==> HasTuple(created, TupleOf(fs[j])))
    && RanksRise(fs, i, created)
  }

  ghost predicate RanksRise(fs: seq<Filter>, i: nat, created: seq<Node>)
    requires i == 0 || i < |fs|
  {
    forall a, b :: 0 <= a < b < |created| ==> FirstWith(fs, i, created[a].tuple) < FirstWith(fs, i, created[b].tuple)
  }

  /** The list of every node but those of the given tuple holds the firsts of its bucket. */
  ghost predicate Filed(fs: seq<Filter>, i: nat, created: seq<Node>)
    requires i == 0 || i < |fs|
    reads created
  {
    forall a :: 0 <= a < |created| ==> created[a].items == KeptOf(fs, i, created[a].tuple)
  }

  lemma {:induction false} NothingKept(fs: seq<Filter>, i: nat, t: FiveTuple)
    requires i < |fs| && forall j :: 1 <= j <= i ==> TupleOf(fs[j]) != t
    ensures KeptOf(fs, i, t) == [] && FirstWith(fs, i, t) == i + 1
  {
    if i > 0 { NothingKept(fs, i - 1, t); }
  }

  /** A tuple that no node has was not met before. */
  lemma {:induction false} NewTuple(fs: seq<Filter>, i: nat, created: seq<Node>, t: FiveTuple)
    requires i < |fs| && Met(fs, i, created) && !HasTuple(created, t)
    ensures KeptOf(fs, i, t) == [] && FirstWith(fs, i, t) == i + 1
  {
    forall j | 1 <= j <= i
      ensures TupleOf(fs[j]) != t
    {
      assert HasTuple(created, TupleOf(fs[j]));
    }
    NothingKept(fs, i, t);
  }

  lemma {:induction false} MetStep(fs: seq<Filter>, i: nat, created: seq<Node>, created': seq<Node>, item: Node)
    requires 1 <= i < |fs| && Met(fs, i - 1, created)
    requires item.tuple == TupleOf(fs[i]) && item.scope == Scope(item.tuple)
    requires created' == if HasTuple(created, item.tuple) then created else created + [item]
    ensures Met(fs, i, created')
  {
    hide FirstWith, HasTuple, TupleOf, Scope;
    assert forall j :: 1 <= j < i ==> HasTuple(created, TupleOf(fs[j]));
    RanksKept(fs, i, created);
    if !HasTuple(created, item.tuple) {
      NewRank(fs, i, created, item.tuple);
    }
    TuplesMet(fs, i, created, created', item);
  }

  /** The tuple of a new node has the last rank. */
  lemma {:induction false} NewRank(fs: seq<Filter>, i: nat, created: seq<Node>, t: FiveTuple)
    requires 1 <= i < |fs| && Met(fs, i - 1, created) && !HasTuple(created, t) && t == TupleOf(fs[i])
    ensures FirstWith(fs, i, t) == i
  {
    hide Met, HasTuple, TupleOf;
    NewTuple(fs, i - 1, created, t);
  }

  lemma {:induction false} TuplesMet(fs: seq<Filter>, i: nat, created: seq<Node>, created': seq<Node>, item: Node)
    requires 1 <= i < |fs| && forall j :: 1 <= j < i ==> HasTuple(created, TupleOf(fs[j]))
    requires created' == if HasTuple(created, item.tuple) then created else created + [item]
    requires item.tuple == TupleOf(fs[i])
    ensures forall j :: 1 <= j <= i ==> HasTuple(created', TupleOf(fs[j]))
  {
    assert created' != created ==> created'[|created|].tuple == item.tuple;
    forall j | 1 <= j < i
      ensures HasTuple(created', TupleOf(fs[j]))
    {
      HasTupleStill(created, created', TupleOf(fs[j]));
    }
  }

  lemma {:induction false} HasTupleStill(ns: seq<Node>, ns': seq<Node>, t: FiveTuple)
    requires ns <= ns' && HasTuple(ns, t)
    ensures HasTuple(ns', t)
  {
    var a :| 0 <= a < |ns| && ns[a].tuple == t;
    assert ns'[a].tuple == t;
  }

  lemma {:induction false} RanksKept(fs: seq<Filter>, i: nat, created: seq<Node>)
    requires 1 <= i < |fs| && Met(fs, i - 1, created)
    ensures RanksRise(fs, i, created)
    ensures forall a :: 0 <= a < |created| ==> FirstWith(fs, i, created[a].tuple) < i
  {
    forall a | 0 <= a < |created|
      ensures FirstWith(fs, i, created[a].tuple) == FirstWith(fs, i - 1, created[a].tuple) < i
    {
    }
  }

  /** The loop over a tuple's list. */
  method IsRepeated(fs: seq<Filter>, i: nat, list: seq<nat>) returns (rflag: bool)
    requires i < |fs| && forall a :: 0 <= a < |list| ==> list[a] < |fs|
    ensures rflag <==> Repeats(fs, i, list)
  {
    rflag := false;
    var findex := 0;
    while findex < |list| && !rflag
      invariant 0 <= findex <= |list|
      invariant rflag ==> Repeats(fs, i, list)
      invariant !rflag ==> forall a :: 0 <= a < findex ==> !RedundantCheck(fs[i], fs[list[a]])
    {
      rflag := RedundantCheck(fs[i], fs[list[findex]]);
      findex := findex + 1;
    }
  }

  /** A new bucket starts with the empty list that it should have. */
  method InsertFiled(tree: TupleBst, fs: seq<Filter>, n: nat, t: FiveTuple) returns (item: Node)
    requires n < |fs| && tree.Valid() && Met(fs, n, tree.created) && Filed(fs, n, tree.created)
    modifies tree, tree.nodes
    ensures tree.Valid() && Filed(fs, n, tree.created)
    ensures tree.ptrIndex == old(tree.ptrIndex) && fresh(tree.nodes - old(tree.nodes))
    ensures item in tree.created && item.tuple == t && item.scope == Scope(t)
    ensures tree.created == if HasTuple(old(tree.created), t) then old(tree.created) else old(tree.created) + [item]
  {
    if !HasTuple(tree.created, t) {
      NewTuple(fs, n, tree.created, t);
    }
    item := tree.Insert(t);
  }

  /** Find or create the bucket of filter i. */
  method FindBucket(tree: TupleBst, fs: seq<Filter>, i: nat) returns (item: Node)
    requires 1 <= i < |fs| && tree.Valid() && Met(fs, i - 1, tree.created) && Filed(fs, i - 1, tree.created)
    modifies tree, tree.nodes
    ensures tree.Valid() && Met(fs, i, tree.created) && Filed(fs, i - 1, tree.created)
    ensures tree.ptrIndex == old(tree.ptrIndex) && fresh(tree.nodes - old(tree.nodes))
    ensures item in tree.created && item.tuple == TupleOf(fs[i])
  {
    hide Met, Filed, FirstWith, KeptOf;
    ghost var created := tree.created;
    item := InsertFiled(tree, fs, i - 1, TupleOf(fs[i]));
    MetStep(fs, i, created, tree.created, item);
  }

  /** Append filter i to its bucket unless the bucket holds a duplicate. */
  method AddToBucket(tree: TupleBst, fs: seq<Filter>, i: nat, item: Node) returns (kept: bool)
    requires 1 <= i < |fs| && tree.Valid() && Filed(fs, i - 1, tree.created)
    requires item in tree.created && item.tuple == TupleOf(fs[i])
    modifies item`items
    ensures tree.Valid() && Filed(fs, i, tree.created)
    ensures kept <==> First(fs, i)
  {
    KeptBounds(fs, i - 1, item.tuple);
    BucketSuffices(fs, i);
    var rflag := IsRepeated(fs, i, item.items);
    tree.TuplesUnique(item);
    if !rflag {
      tree.Append(item, i);
    }
    kept := !rflag;
    ghost var created := tree.created;
    forall a | 0 <= a < |created|
      ensures created[a].items == KeptOf(fs, i, created[a].tuple)
    {
      assert created[a] in created;
    }
  }

  /** One turn of the first loop. */
  method FileOne(tree: TupleBst, fs: seq<Filter>, i: nat) returns (kept: bool)
    requires 1 <= i < |fs| && tree.Valid() && Met(fs, i - 1, tree.created) && Filed(fs, i - 1, tree.created)
    modifies tree, tree.nodes
    ensures tree.Valid() && Met(fs, i, tree.created) && Filed(fs, i, tree.created)
    ensures tree.ptrIndex == old(tree.ptrIndex) && fresh(tree.nodes - old(tree.nodes))
    ensures kept <==> First(fs, i)
  {
    var item := FindBucket(tree, fs, i);
    tree.TuplesUnique(item);
    kept := AddToBucket(tree, fs, i, item);
  }

  // ---------- reading the buckets off the tree ----------

  lemma {:induction false} SortedNodes(ns: seq<Node>, sorted: seq<Node>)
    requires multiset(sorted) == multiset(ns)
    ensures forall a :: 0 <= a < |sorted| ==> sorted[a] in ns
    ensures forall t :: HasTuple(sorted, t) <==> HasTuple(ns, t)
  {
    forall a | 0 <= a < |sorted|
      ensures sorted[a] in ns
    {
      assert sorted[a] in multiset(sorted);
    }
    forall a | 0 <= a < |ns|
      ensures ns[a] in sorted
    {
      assert ns[a] in multiset(ns);
    }
  }

  lemma {:induction false} RanksAreIncreasing(fs: seq<Filter>, n: nat, created: seq<Node>)
    requires n < |fs| && RanksRise(fs, n, created)
    ensures Increasing(created, Rank(fs, n))
  {
  }

  /** The filters that the walk over the buckets meets, and their order. */
  lemma {:induction false} WalkOrder(fs: seq<Filter>, n: nat, created: seq<Node>)
    requires n + 1 == |fs| && Met(fs, n, created)
    ensures var order := Flat(fs, n, SortByScope(created));
            && InOrder(fs, n, order)
            && forall k {:trigger k in order} :: k in order <==> 1 <= k <= n && First(fs, k)
  {
    var sorted := SortByScope(created);
    RanksAreIncreasing(fs, n, created);
    SortByScopeIs(created, Rank(fs, n));
    SortedNodes(created, sorted);
    forall a | 0 <= a < |sorted|
      ensures sorted[a].scope == Scope(sorted[a].tuple)
    {
      assert sorted[a] in created;
    }
    FlatMembers(fs, n, sorted);
    FlatInOrder(fs, n, sorted);
  }

  ghost function FirstSet(fs: seq<Filter>, n: nat): set<int> {
    set k | 1 <= k <= n && First(fs, k)
  }

  ghost function Elements(l: seq<nat>): set<int> {
    set k | k in l
  }

  lemma {:induction false} NoDupCard(l: seq<nat>)
    requires NoDup(l)
    ensures |Elements(l)| == |l|
  {
    if l != [] {
      var rest, last := l[..|l| - 1], l[|l| - 1];
      NoDupCard(rest);
      assert l == rest + [last];
      assert Elements(l) == Elements(rest) + {last};
    }
  }

  lemma {:induction false} InOrderNoDup(fs: seq<Filter>, n: nat, l: seq<nat>)
    requires n < |fs| && InOrder(fs, n, l)
    ensures NoDup(l)
  {
    forall a, b | 0 <= a < b < |l|
      ensures l[a] != l[b]
    {
      assert Before(fs, n, l[a], l[b]);
    }
  }

  /** The output: each listed filter, in order. */
  ghost predicate Outputs(fs: seq<Filter>, order: seq<nat>, filters: seq<Filter>) {
    |filters| == |order| && forall a :: 0 <= a < |order| ==> order[a] < |fs| && filters[a] == fs[order[a]]
  }

  /** Append the filters of one list to the output. */
  method EmitBucket(fs: seq<Filter>, list: seq<nat>, filters0: seq<Filter>, ghost order: seq<nat>)
    returns (filters: seq<Filter>)
    requires Outputs(fs, order, filters0) && forall a :: 0 <= a < |list| ==> list[a] < |fs|
    ensures Outputs(fs, order + list, filters)
  {
    filters := filters0;
    for findex := 0 to |list|
      invariant Outputs(fs, order + list[..findex], filters)
    {
      filters := filters + [fs[list[findex]]];
    }
    assert list[..|list|] == list;
  }

  /** The second loop: append every bucket's filters to the output. */
  method Emit(fs: seq<Filter>, n: nat, nodes: seq<Node>) returns (filters: seq<Filter>, ghost order: seq<nat>)
    requires n < |fs| && Filed(fs, n, nodes)
    ensures order == Flat(fs, n, nodes) && Outputs(fs, order, filters)
  {
    filters, order := [], [];
    for i := 0 to |nodes|
      invariant order == Flat(fs, n, nodes[..i]) && Outputs(fs, order, filters)
    {
      KeptBounds(fs, n, nodes[i].tuple);
      assert nodes[..i + 1][..i] == nodes[..i];
      filters := EmitBucket(fs, nodes[i].items, filters, order);
      order := order + nodes[i].items;
    }
    assert nodes[..|nodes|] == nodes;
  }

  /** The first loop: file all filters and count those that are kept. */
  method FileAll(tree: TupleBst, fs: seq<Filter>, numFilters: nat) returns (filterCnt: int)
    requires numFilters + 1 == |fs| && tree.Valid() && tree.created == []
    modifies tree, tree.nodes
    ensures tree.Valid() && Met(fs, numFilters, tree.created) && Filed(fs, numFilters, tree.created)
    ensures tree.ptrIndex == old(tree.ptrIndex) && filterCnt == |FirstSet(fs, numFilters)|
  {
    hide Met, Filed, First, FirstSet, TupleBst.Valid;
    NothingMet(fs);
    filterCnt := 0;
    var i := 1;
    while i <= numFilters
      invariant 1 <= i <= numFilters + 1
      invariant fresh(tree.nodes - old(tree.nodes)) && tree.Valid() && tree.ptrIndex == old(tree.ptrIndex)
      invariant Met(fs, i - 1, tree.created) && Filed(fs, i - 1, tree.created)
      invariant filterCnt == |FirstSet(fs, i - 1)|
    {
      FirstSetStep(fs, i);
      var kept := FileOne(tree, fs, i);
      filterCnt := filterCnt + (if kept then 1 else 0);
      i := i + 1;
    }
  }

  lemma {:induction false} NothingMet(fs: seq<Filter>)
    ensures Met(fs, 0, []) && Filed(fs, 0, []) && FirstSet(fs, 0) == {}
  {
  }

  lemma {:induction false} FirstSetStep(fs: seq<Filter>, i: nat)
    requires i >= 1
    ensures |FirstSet(fs, i)| == |FirstSet(fs, i - 1)| + if First(fs, i) then 1 else 0
  {
    assert FirstSet(fs, i) == if First(fs, i) then FirstSet(fs, i - 1) + {i as int} else FirstSet(fs, i - 1);
  }

  /** remove_redundant_filters, for filters 1..numFilters of the array. The output keeps the
      first filter of every class of duplicates and no other, each once, in nondecreasing scope,
      grouped by tuple, tuples of equal scope in the order of their first filters. */
  method RemoveRedundantFilters(numFilters: nat, fs: seq<Filter>)
    returns (filters: seq<Filter>, filterCnt: int, ghost order: seq<nat>)
    requires numFilters + 1 == |fs|
    ensures filterCnt == |filters| && Outputs(fs, order, filters)
    ensures forall k {:trigger k in order} :: k in order <==> 1 <= k <= numFilters && First(fs, k)
    ensures NoDup(order) && InOrder(fs, numFilters, order)
  {
    var tree := new TupleBst();
    filterCnt := FileAll(tree, fs, numFilters);
    var lists := tree.GetTupleLists();
    filters, order := EmitLists(fs, numFilters, tree, lists);
    InOrderNoDup(fs, numFilters, order);
    NoDupCard(order);
    assert Elements(order) == FirstSet(fs, numFilters);
  }

  method EmitLists(fs: seq<Filter>, n: nat, tree: TupleBst, lists: array<Node?>)
    returns (filters: seq<Filter>, ghost order: seq<nat>)
    requires n + 1 == |fs| && Met(fs, n, tree.created) && Filed(fs, n, tree.created)
    requires lists[..] == SortByScope(tree.created)
    ensures Outputs(fs, order, filters)
    ensures forall k {:trigger k in order} :: k in order <==> 1 <= k <= n && First(fs, k)
    ensures InOrder(fs, n, order)
  {
    WalkOrder(fs, n, tree.created);
    ghost var sorted := SortByScope(tree.created);
    RanksAreIncreasing(fs, n, tree.created);
    SortByScopeIs(tree.created, Rank(fs, n));
    SortedNodes(tree.created, sorted);
    var nodes: seq<Node> := lists[..];
    filters, order := Emit(fs, n, nodes);
  }
}
