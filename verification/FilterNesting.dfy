/** The order of the filters that duplicate removal keeps (remove_redundant_filters in
    db_generator/custom_db.cc, db_generator/TupleBST.h): whether a filter that contains another one
    comes after it. */
module FilterNesting {
  import opened Power
  import opened Filters
  import opened TupleBst
  import opened RedundantFilters

  // ---------- containment ----------

  /** The fields of a packet header that filters look at. */
  datatype Header = Header(sa: nat, da: nat, sp: int, dp: int, prot: int, flags: nat)

  function BitAnd(a: nat, b: nat): nat
    decreases a + b
  {
    if a == 0 || b == 0 then 0 else 2 * BitAnd(a / 2, b / 2) + (a % 2) * (b % 2)
  }

  /** The header matches the filter. Protocol 0 stands for any. */
  predicate Matches(f: Filter, h: Header) {
    && h.sa < ADDRESSES && h.da < ADDRESSES
    && Masked(h.sa, f.saLen) == Masked(f.sa, f.saLen)
    && Masked(h.da, f.daLen) == Masked(f.da, f.daLen)
    && f.spLo <= h.sp <= f.spHi && f.dpLo <= h.dp <= f.dpHi
    && (f.prot <= 0 || h.prot == f.prot)
    && BitAnd(h.flags, f.flagsMask) == BitAnd(f.flags, f.flagsMask)
  }

  /** Addresses of 32 bits, prefix lengths up to 32 and port ranges that are not empty. */
  predicate Proper(f: Filter) {
    && f.sa < ADDRESSES && f.da < ADDRESSES && 0 <= f.saLen <= 32 && 0 <= f.daLen <= 32
    && f.spLo <= f.spHi && f.dpLo <= f.dpHi
  }

  /** Every header that matches f matches g. */
  ghost predicate Contains(g: Filter, f: Filter) {
    forall h: Header :: Matches(f, h) ==> Matches(g, h)
  }

  /** A header that matches f. */
  function Sample(f: Filter): Header { Header(f.sa, f.da, f.spLo, f.dpLo, f.prot, f.flags) }

  lemma {:induction false} SampleMatches(f: Filter)
    requires Proper(f)
    ensures Matches(f, Sample(f))
  {
  }

  lemma {:induction false} AndSelf(m: nat)
    ensures BitAnd(m, m) == m && BitAnd(0, m) == 0
  {
    if m > 0 { AndSelf(m / 2); }
  }

  /** The last address under a prefix. */
  function LastUnder(a: nat, len: int): nat { Masked(a, len) + Span(len) - 1 }

  lemma {:induction false} LastMatches(a: nat, len: int)
    requires a < ADDRESSES && 0 <= len <= 32
    ensures LastUnder(a, len) < ADDRESSES && Masked(LastUnder(a, len), len) == Masked(a, len)
    ensures Masked(a, len) < ADDRESSES && Masked(Masked(a, len), len) == Masked(a, len)
  {
    hide Masked, Span;
    MatchMeansSamePrefix(a, a, len);
    PrefixEnds(Masked(a, len), len);
    MatchMeansSamePrefix(a, LastUnder(a, len), len);
    MatchMeansSamePrefix(a, Masked(a, len), len);
  }

  lemma {:induction false} PrefixEnds(p: nat, len: int)
    requires IsPrefix(p, len)
    ensures p + Span(len) <= ADDRESSES
  {
    AddressCount();
    SpanFits(p, 32 - len, 32);
  }

  /** A prefix under which lie both ends of another one is not longer. */
  lemma {:induction false} NotLonger(a: nat, len: int, b: nat, len': int)
    requires a < ADDRESSES && b < ADDRESSES && 0 <= len <= 32 && 0 <= len' <= 32
    requires Masked(Masked(a, len), len') == Masked(b, len') && Masked(LastUnder(a, len), len') == Masked(b, len')
    ensures len' <= len
  {
    hide Masked, Span;
    LastMatches(a, len);
    var lo, hi := Masked(a, len), LastUnder(a, len);
    MatchMeansSamePrefix(b, lo, len');
    MatchMeansSamePrefix(b, hi, len');
    if len' > len { SpansDouble(len, len'); }
  }

  lemma {:induction false} SpansDouble(len: int, len': int)
    requires 0 <= len < len' <= 32
    ensures Span(len) >= 2 * Span(len')
  {
    Pow2Monotone(32 - len', 31 - len);
  }

  /** A filter that contains another one has no longer prefixes, no narrower port ranges, and no
      protocol or flags where the other one has none. */
  lemma {:induction false} ContainsWider(g: Filter, f: Filter)
    requires Proper(f) && Proper(g) && Contains(g, f)
    ensures g.saLen <= f.saLen && g.daLen <= f.daLen
    ensures g.spLo <= f.spLo && f.spHi <= g.spHi && g.dpLo <= f.dpLo && f.dpHi <= g.dpHi
    ensures (f.prot <= 0 ==> g.prot <= 0) && (f.flagsMask == 0 ==> g.flagsMask == 0)
  {
    hide Masked, BitAnd, Span;
    var h := Sample(f);
    SampleMatches(f);
    ContainsPrefixes(g, f);
    assert Matches(f, h.(sp := f.spHi, dp := f.dpHi));
    assert f.prot <= 0 ==> Matches(f, h.(prot := 1)) && Matches(f, h.(prot := 2));
    if f.flagsMask == 0 {
      AndNone(f);
      assert Matches(f, h.(flags := 0)) && Matches(f, h.(flags := g.flagsMask));
      AndSelf(g.flagsMask);
    }
  }

  lemma {:induction false} AndNone(f: Filter)
    requires f.flagsMask == 0
    ensures forall x: nat :: BitAnd(x, f.flagsMask) == 0
  {
  }

  lemma {:induction false} ContainsPrefixes(g: Filter, f: Filter)
    requires Proper(f) && Proper(g) && Contains(g, f)
    ensures g.saLen <= f.saLen && g.daLen <= f.daLen
  {
    hide Masked, BitAnd, LastUnder;
    var h := Sample(f);
    SampleMatches(f);
    LastMatches(f.sa, f.saLen);
    LastMatches(f.da, f.daLen);
    assert Matches(f, h.(sa := Masked(f.sa, f.saLen))) && Matches(f, h.(sa := LastUnder(f.sa, f.saLen)));
    assert Matches(f, h.(da := Masked(f.da, f.daLen))) && Matches(f, h.(da := LastUnder(f.da, f.daLen)));
    NotLonger(f.sa, f.saLen, g.sa, g.saLen);
    NotLonger(f.da, f.daLen, g.da, g.daLen);
  }

  /** Filters are duplicates exactly if they match the same headers and agree in protocol and flags. */
  lemma {:induction false} DuplicatesMatchSame(f: Filter, g: Filter)
    requires Proper(f) && Proper(g)
    ensures RedundantCheck(f, g) <==>
            && Contains(f, g) && Contains(g, f)
            && f.prot == g.prot && f.flags == g.flags && f.flagsMask == g.flagsMask
  {
    hide Masked, BitAnd;
    if Contains(f, g) && Contains(g, f) {
      ContainsWider(f, g);
      ContainsWider(g, f);
      SampleMatches(f);
      assert Matches(g, Sample(f));
    }
  }

  // ---------- the order ----------

  lemma {:induction false} LogGrows(m: int, n: int)
    requires m <= n
    ensures Log2(m) <= Log2(n)
  {
    if m >= 2 { LogGrows(m / 2, n / 2); }
  }

  lemma {:induction false} ProductGrows(a: int, b: int, c: int, d: int)
    requires 0 < a <= c && 0 < b <= d
    ensures a * b <= c * d
  {
    Larger(a, c, b);
    Larger(b, d, c);
  }

  /** The logarithm that the port ranges of a filter add to its scope. */
  function PortLog(f: Filter): nat { Log2((f.spHi - f.spLo + 1) * (f.dpHi - f.dpLo + 1)) }

  /** A filter that contains another one has at least its scope. They have the same scope exactly
      if they agree in prefix lengths, in having a protocol and flags, and in the rounded
      logarithm of their port ranges. */
  lemma {:induction false} ContainsScope(g: Filter, f: Filter)
    requires Proper(f) && Proper(g) && Contains(g, f)
    ensures Scope(TupleOf(g)) >= Scope(TupleOf(f))
    ensures Scope(TupleOf(g)) == Scope(TupleOf(f)) <==>
            && g.saLen == f.saLen && g.daLen == f.daLen && PortLog(g) == PortLog(f)
            && (g.prot > 0 <==> f.prot > 0) && (g.flagsMask > 0 <==> f.flagsMask > 0)
  {
    hide Contains, Log2, Proper;
    assert f.spLo <= f.spHi && f.dpLo <= f.dpHi by { ProperPorts(f); }
    ContainsWider(g, f);
    ProductGrows(f.spHi - f.spLo + 1, f.dpHi - f.dpLo + 1, g.spHi - g.spLo + 1, g.dpHi - g.dpLo + 1);
    LogGrows((f.spHi - f.spLo + 1) * (f.dpHi - f.dpLo + 1), (g.spHi - g.spLo + 1) * (g.dpHi - g.dpLo + 1));
  }

  lemma {:induction false} ProperPorts(f: Filter)
    requires Proper(f)
    ensures f.spLo <= f.spHi && f.dpLo <= f.dpHi
  {
  }

  /** Of two kept filters the one that contains the other comes after it, unless they have the same
      scope; then it does exactly if its tuple was met later, or it stands later in the same
      tuple. */
  lemma {:induction false} ContainingComesLater(fs: seq<Filter>, n: nat, i: nat, k: nat)
    requires n < |fs| && First(fs, i) && First(fs, k) && i <= n && k <= n && i != k
    requires Proper(fs[i]) && Proper(fs[k]) && Contains(fs[k], fs[i])
    ensures var s, t := TupleOf(fs[i]), TupleOf(fs[k]);
            Before(fs, n, i, k) <==>
              Scope(s) != Scope(t) || FirstWith(fs, n, s) < FirstWith(fs, n, t) || (s == t && i < k)
  {
    hide Contains, Proper, Scope, TupleOf, FirstWith, First;
    ContainsScope(fs[k], fs[i]);
  }

  /** Agreement in all that the scope counts. */
  predicate SameScope(g: Filter, f: Filter) {
    && g.saLen == f.saLen && g.daLen == f.daLen && PortLog(g) == PortLog(f)
    && (g.prot > 0 <==> f.prot > 0) && (g.flagsMask > 0 <==> f.flagsMask > 0)
  }

  /** In the input filter i stands before filter k of the same tuple, or a filter of i's tuple
      before all of k's. */
  ghost predicate StandsBefore(fs: seq<Filter>, n: nat, i: nat, k: nat)
    requires n < |fs| && i <= n && k <= n
  {
    var s, t := TupleOf(fs[i]), TupleOf(fs[k]);
    if s == t then i < k
    else exists j :: 1 <= j <= n && TupleOf(fs[j]) == s && forall m :: 1 <= m <= j ==> TupleOf(fs[m]) != t
  }

  lemma {:induction false} StandsBeforeIs(fs: seq<Filter>, n: nat, i: nat, k: nat)
    requires n < |fs| && 1 <= i <= n && 1 <= k <= n
    ensures var s, t := TupleOf(fs[i]), TupleOf(fs[k]);
            StandsBefore(fs, n, i, k) <==> FirstWith(fs, n, s) < FirstWith(fs, n, t) || (s == t && i < k)
  {
    hide TupleOf, FirstWith;
    var s, t := TupleOf(fs[i]), TupleOf(fs[k]);
    FirstWithIs(fs, n, s);
    FirstWithIs(fs, n, t);
    var a, b := FirstWith(fs, n, s), FirstWith(fs, n, t);
    assert a <= n && b <= n;
    if s != t && a < b {
      assert TupleOf(fs[a]) == s && forall m :: 1 <= m <= a ==> TupleOf(fs[m]) != t;
    }
  }

  /** The order of a filter and one that contains it. */
  lemma {:induction false} PairInOrder(fs: seq<Filter>, n: nat, i: nat, k: nat)
    requires n < |fs| && 1 <= i <= n && 1 <= k <= n && i != k
    requires Proper(fs[i]) && Proper(fs[k]) && Contains(fs[k], fs[i])
    ensures Before(fs, n, i, k) <==> (SameScope(fs[k], fs[i]) ==> StandsBefore(fs, n, i, k))
    ensures !(Before(fs, n, i, k) && Before(fs, n, k, i))
  {
    hide Contains, Proper, Scope, TupleOf, FirstWith, StandsBefore, PortLog;
    ContainsScope(fs[k], fs[i]);
    StandsBeforeIs(fs, n, i, k);
  }

  /** No filter of the list follows one that contains it. */
  ghost predicate NoneFollows(fs: seq<Filter>, order: seq<nat>)
    requires forall a :: 0 <= a < |order| ==> order[a] < |fs|
  {
    forall a, b :: 0 <= a < b < |order| ==> !Contains(fs[order[a]], fs[order[b]])
  }

  /** In the input every filter of the list that another one of the same scope contains stands
      before it. */
  ghost predicate ContainedFirst(fs: seq<Filter>, n: nat, order: seq<nat>)
    requires n < |fs| && forall q :: q in order ==> q <= n
  {
    forall i, k :: i in order && k in order && i != k ==>
      (Contains(fs[k], fs[i]) && SameScope(fs[k], fs[i]) ==> StandsBefore(fs, n, i, k))
  }

  /** The order prevents nesting exactly if the input does so for the pairs of the same scope. */
  lemma {:induction false} WhenOrderPreventsNesting(fs: seq<Filter>, n: nat, order: seq<nat>)
    requires n + 1 == |fs| && InOrder(fs, n, order) && NoDup(order)
    requires forall k :: k in order ==> 1 <= k <= n && Proper(fs[k])
    ensures NoneFollows(fs, order) <==> ContainedFirst(fs, n, order)
  {
    hide Contains, Proper, SameScope, StandsBefore, Before;
    if NoneFollows(fs, order) {
      forall i, k | i in order && k in order && i != k && Contains(fs[k], fs[i]) && SameScope(fs[k], fs[i])
        ensures StandsBefore(fs, n, i, k)
      {
        var a :| 0 <= a < |order| && order[a] == i;
        var b :| 0 <= b < |order| && order[b] == k;
        assert a < b;
        PairInOrder(fs, n, i, k);
      }
    }
    if ContainedFirst(fs, n, order) {
      forall a, b | 0 <= a < b < |order|
        ensures !Contains(fs[order[a]], fs[order[b]])
      {
        var i, k := order[b], order[a];
        assert i in order && k in order;
        if Contains(fs[k], fs[i]) { PairInOrder(fs, n, i, k); }
      }
    }
  }

  /** Two filters that differ in their source ports only: 0 to 2 and 0 to 1. */
  function Ports(hi: int): Filter { Filter(0, 0, 0, 0, 0, hi, 0, 0, 0, 0, 0) }

  /** The order does not prevent nesting: where the widths of the port ranges round to the same
      logarithm, a filter that stands first comes first, whether it contains the other or not. */
  lemma {:induction false} NestingRemains()
    ensures var fs := [Ports(0), Ports(2), Ports(1)];
            && First(fs, 1) && First(fs, 2) && Contains(fs[1], fs[2]) && !Contains(fs[2], fs[1])
            && Before(fs, 2, 1, 2)
  {
    hide Contains, FirstWith;
    var fs := [Ports(0), Ports(2), Ports(1)];
    WiderPortsContain();
    WiderMetFirst(fs);
    assert Log2(3) == 1 == Log2(2);
  }

  lemma {:induction false} WiderPortsContain()
    ensures Contains(Ports(2), Ports(1)) && !Contains(Ports(1), Ports(2))
  {
    hide Masked, BitAnd;
    var h := Header(0, 0, 2, 0, 0, 0);
    assert Matches(Ports(2), h) && !Matches(Ports(1), h);
  }

  lemma {:induction false} WiderMetFirst(fs: seq<Filter>)
    requires fs == [Ports(0), Ports(2), Ports(1)]
    ensures FirstWith(fs, 2, TupleOf(fs[1])) < FirstWith(fs, 2, TupleOf(fs[2]))
  {
    hide FirstWith;
    var s, t := TupleOf(fs[1]), TupleOf(fs[2]);
    assert s.spWid == 3 && t.spWid == 2;
    RankNext(fs, 1, s);
    RankNext(fs, 1, t);
    RankNext(fs, 2, s);
    RankNext(fs, 2, t);
  }

  lemma {:induction false} RankNext(fs: seq<Filter>, n: nat, t: FiveTuple)
    requires 0 < n < |fs|
    ensures FirstWith(fs, 0, t) == 1
    ensures FirstWith(fs, n, t) ==
            if FirstWith(fs, n - 1, t) < n then FirstWith(fs, n - 1, t) else if TupleOf(fs[n]) == t then n else n + 1
  {
  }
}
