/** click_qsort (click-dpdk/lib/glue.cc): three-way quicksort after Bentley and McIlroy, with an
    explicit stack of pending ranges instead of recursion. */
module QuickSort {
  import opened Power

  /** A comparator in the style of the C library: negative, zero or positive. */
  type Cmp<!T> = (T, T) -> int

  predicate Leq<T>(cmp: Cmp<T>, x: T, y: T) { cmp(x, y) <= 0 }

  /** The comparators that sorting is meant for. All other results hold for any comparator. */
  ghost predicate Consistent<T(!new)>(cmp: Cmp<T>) {
    && (forall x, y :: cmp(x, y) < 0 <==> cmp(y, x) > 0)
    && (forall x, y, z :: Leq(cmp, x, y) && Leq(cmp, y, z) ==> Leq(cmp, x, z))
  }

  ghost predicate Sorted<T>(cmp: Cmp<T>, s: seq<T>) {
    forall i, j :: 0 <= i < j < |s| ==> Leq(cmp, s[i], s[j])
  }

  // ---------- permutations of a range ----------

  /** t is s with the elements of lo..hi permuted. */
  ghost predicate Permuted<T>(s: seq<T>, t: seq<T>, lo: int, hi: int) {
    && 0 <= lo <= hi <= |s| == |t|
    && s[..lo] == t[..lo] && s[hi..] == t[hi..]
    && multiset(s[lo..hi]) == multiset(t[lo..hi])
  }

  lemma {:induction false} PermutedWider<T>(s: seq<T>, t: seq<T>, lo: int, hi: int, lo': int, hi': int)
    requires Permuted(s, t, lo, hi) && 0 <= lo' <= lo && hi <= hi' <= |s|
    ensures Permuted(s, t, lo', hi')
  {
    assert s[lo'..hi'] == s[lo'..lo] + s[lo..hi] + s[hi..hi'];
    assert t[lo'..hi'] == t[lo'..lo] + t[lo..hi] + t[hi..hi'];
    assert s[lo'..lo] == s[..lo][lo'..] == t[..lo][lo'..] == t[lo'..lo];
    assert s[hi..hi'] == s[hi..][..hi' - hi] == t[hi..][..hi' - hi] == t[hi..hi'];
    assert s[..lo'] == s[..lo][..lo'] == t[..lo][..lo'] == t[..lo'];
    assert s[hi'..] == s[hi..][hi' - hi..] == t[hi..][hi' - hi..] == t[hi'..];
  }

  lemma {:induction false} SwapPermutes<T>(s: seq<T>, i: int, j: int, lo: int, hi: int)
    requires 0 <= lo <= i < hi <= |s| && lo <= j < hi
    ensures Permuted(s, s[i := s[j]][j := s[i]], lo, hi)
  {
    var t := s[i := s[j]][j := s[i]];
    var m := s[lo..hi];
    assert t[lo..hi] == m[i - lo := m[j - lo]][j - lo := m[i - lo]];
    assert s[..lo] == t[..lo] && s[hi..] == t[hi..];
  }

  /** What holds of every element of a range holds of every element after a permutation. */
  lemma {:induction false} PermutedKeeps<T(!new)>(s: seq<T>, t: seq<T>, lo: int, hi: int, p: T -> bool)
    requires Permuted(s, t, lo, hi) && forall i :: lo <= i < hi ==> p(s[i])
    ensures forall i :: lo <= i < hi ==> p(t[i])
  {
    forall i | lo <= i < hi
      ensures p(t[i])
    {
      assert t[i] == t[lo..hi][i - lo];
      assert t[i] in multiset(s[lo..hi]);
      var k :| 0 <= k < hi - lo && s[lo..hi][k] == t[i];
      assert s[lo + k] == t[i];
    }
  }

  // ---------- pending ranges ----------

  datatype Range = Range(lo: nat, hi: nat) {
    function Size(): int { hi - lo }
    predicate Has(i: int) { lo <= i < hi }
  }

  /** The ranges still to sort, as the stack holds them. */
  datatype Pending = Bottom | Above(rest: Pending, top: Range) {
    function Depth(): nat { if Bottom? then 0 else rest.Depth() + 1 }

    /** Positions i and j lie in the same pending range. */
    ghost predicate Together(i: int, j: int) {
      Above? && ((top.Has(i) && top.Has(j)) || rest.Together(i, j))
    }

    /** Range r shares no position with the pending ones. */
    ghost predicate Apart(r: Range) {
      Above? ==> (top.hi <= r.lo || r.hi <= top.lo) && rest.Apart(r)
    }

    /** Ranges lie in the array, apart from each other, and the k-th from the bottom holds at
        most n / 2^k elements. */
    ghost predicate Nested(n: nat) {
      Above? ==> rest.Nested(n) && rest.Apart(top) && top.lo <= top.hi <= n && top.Size() <= Halved(n, rest.Depth())
    }

    /** Termination: every cut loses the pivot. */
    ghost function Work(): int {
      if Bottom? then 0 else rest.Work() + 2 * top.Size() + 1
    }
  }

  /** n / 2^k */
  function Halved(n: nat, k: nat): nat {
    if k == 0 then n else Halved(n, k - 1) / 2
  }

  lemma {:induction false} HalvedBelow(n: nat, k: nat, bits: nat)
    requires n < Pow2(bits) && k <= bits
    ensures Halved(n, k) < Pow2(bits - k)
  {
    if k > 0 {
      HalvedBelow(n, k - 1, bits);
    }
  }

  lemma {:induction false} HalvedFalls(n: nat, k: nat, l: nat)
    requires k <= l
    ensures Halved(n, l) <= Halved(n, k)
  {
    if k < l { HalvedFalls(n, k, l - 1); }
  }

  /** Only elements of the same pending range may still be out of order. */
  ghost predicate OrderedApart<T>(cmp: Cmp<T>, s: seq<T>, p: Pending) {
    forall i, j {:trigger p.Together(i, j)} :: 0 <= i < j < |s| ==> Leq(cmp, s[i], s[j]) || p.Together(i, j)
  }

  lemma {:induction false} ApartNotTogether(p: Pending, r: Range, i: int, j: int)
    requires p.Apart(r) && (r.Has(i) || r.Has(j))
    ensures !p.Together(i, j)
  {
    if p.Above? { ApartNotTogether(p.rest, r, i, j); }
  }

  /** A range between two cuts, in order except inside its two outer parts. */
  ghost predicate Cut<T>(cmp: Cmp<T>, s: seq<T>, lo: int, m1: int, m2: int, hi: int) {
    && 0 <= lo <= m1 <= m2 <= hi <= |s|
    && forall i, j :: lo <= i < j < hi && (i < m1 <= j || i < m2 <= j || (m1 <= i && j < m2)) ==> Leq(cmp, s[i], s[j])
  }

  /** Cutting the top range leaves order everywhere but inside its two outer parts. */
  lemma {:induction false} CutKeepsOrder<T(!new)>(cmp: Cmp<T>, s: seq<T>, t: seq<T>, p: Pending, p': Pending, m1: nat,
                                           m2: nat)
    requires p.Above? && p.rest.Apart(p.top) && OrderedApart(cmp, s, p)
    requires Permuted(s, t, p.top.lo, p.top.hi) && Cut(cmp, t, p.top.lo, m1, m2, p.top.hi)
    requires forall i, j :: p.rest.Together(i, j) ==> p'.Together(i, j)
    requires forall i, j :: p.top.lo <= i < j < m1 || m2 <= i < j < p.top.hi ==> p'.Together(i, j)
    ensures OrderedApart(cmp, t, p')
  {
    forall i, j | 0 <= i < j < |t| && !p'.Together(i, j)
      ensures Leq(cmp, t[i], t[j])
    {
      if !(p.top.lo <= i && j < p.top.hi) {
        OrderedAcross(cmp, s, t, p, i, j);
      }
    }
  }

  lemma {:induction false} OrderedAcross<T(!new)>(cmp: Cmp<T>, s: seq<T>, t: seq<T>, p: Pending, i: int, j: int)
    requires p.Above? && p.rest.Apart(p.top) && OrderedApart(cmp, s, p) && Permuted(s, t, p.top.lo, p.top.hi)
    requires 0 <= i < j < |t| && !p.rest.Together(i, j) && !(p.top.lo <= i && j < p.top.hi)
    ensures Leq(cmp, t[i], t[j])
  {
    var r := p.top;
    assert forall k :: 0 <= k < r.lo ==> s[k] == s[..r.lo][k] == t[..r.lo][k] == t[k];
    assert forall k :: r.hi <= k < |s| ==> s[k] == s[r.hi..][k - r.hi] == t[r.hi..][k - r.hi] == t[k];
    if r.Has(i) {
      forall k | r.lo <= k < r.hi
        ensures Leq(cmp, s[k], t[j])
      {
        ApartNotTogether(p.rest, r, k, j);
        assert !p.Together(k, j);
      }
      PermutedKeeps(s, t, r.lo, r.hi, x => Leq(cmp, x, t[j]));
    } else if r.Has(j) {
      forall k | r.lo <= k < r.hi
        ensures Leq(cmp, t[i], s[k])
      {
        ApartNotTogether(p.rest, r, i, k);
        assert !p.Together(i, k);
      }
      PermutedKeeps(s, t, r.lo, r.hi, x => Leq(cmp, t[i], x));
    } else {
      assert !p.Together(i, j);
    }
  }

  // ---------- the array operations ----------

  method Swap<T>(a: array<T>, i: nat, j: nat, ghost lo: nat, ghost hi: nat)
    requires lo <= i < hi <= a.Length && lo <= j < hi
    modifies a
    ensures a[i] == old(a[j]) && a[j] == old(a[i])
    ensures forall k :: 0 <= k < a.Length && k != i && k != j ==> a[k] == old(a[k])
    ensures Permuted(old(a[..]), a[..], lo, hi)
  {
    SwapPermutes(a[..], i, j, lo, hi);
    a[i], a[j] := a[j], a[i];
    assert a[..] == old(a[..][i := a[j]][j := a[i]]);
  }

  /** cq_swapfunc on n elements: exchange two blocks that do not overlap. */
  method SwapBlocks<T>(a: array<T>, i: nat, j: nat, n: nat, ghost lo: nat, ghost hi: nat)
    requires lo <= i && i + n <= j && j + n <= hi <= a.Length
    modifies a
    ensures Permuted(old(a[..]), a[..], lo, hi)
    ensures forall k :: i <= k < i + n ==> a[k] == old(a[k + (j - i)])
    ensures forall k :: j <= k < j + n ==> a[k] == old(a[k - (j - i)])
    ensures forall k :: 0 <= k < a.Length && !(i <= k < i + n) && !(j <= k < j + n) ==> a[k] == old(a[k])
  {
    var c := 0;
    while c < n
      invariant 0 <= c <= n
      invariant Permuted(old(a[..]), a[..], lo, hi)
      invariant forall k :: i <= k < i + c ==> a[k] == old(a[k + (j - i)])
      invariant forall k :: j <= k < j + c ==> a[k] == old(a[k - (j - i)])
      invariant forall k :: 0 <= k < a.Length && !(i <= k < i + c) && !(j <= k < j + c) ==> a[k] == old(a[k])
    {
      Swap(a, i + c, j + c, lo, hi);
      c := c + 1;
    }
  }

  /** Insertion sort, for ranges of fewer than seven elements. */
  method InsertionSort<T(!new)>(a: array<T>, lo: nat, hi: nat, cmp: Cmp<T>)
    requires lo <= hi <= a.Length
    modifies a
    ensures Permuted(old(a[..]), a[..], lo, hi)
    ensures Consistent(cmp) ==> forall i, j :: lo <= i < j < hi ==> Leq(cmp, a[i], a[j])
  {
    var pi := lo + 1;
    while pi < hi
      invariant lo < pi
      invariant Permuted(old(a[..]), a[..], lo, hi)
      invariant Consistent(cmp) ==> forall i, j :: lo <= i < j < pi && j < hi ==> Leq(cmp, a[i], a[j])
    {
      Insert(a, lo, pi, hi, cmp);
      pi := pi + 1;
    }
  }

  /** The inner loop of the insertion sort: sink a[pi] into the sorted elements before it. */
  method Insert<T(!new)>(a: array<T>, lo: nat, pi: nat, hi: nat, cmp: Cmp<T>)
    requires lo < pi < hi <= a.Length
    requires Consistent(cmp) ==> forall i, j :: lo <= i < j < pi ==> Leq(cmp, a[i], a[j])
    modifies a
    ensures Permuted(old(a[..]), a[..], lo, hi)
    ensures Consistent(cmp) ==> forall i, j :: lo <= i < j <= pi ==> Leq(cmp, a[i], a[j])
  {
    var pj := pi;
    while pj > lo && cmp(a[pj - 1], a[pj]) > 0
      invariant lo <= pj <= pi
      invariant Permuted(old(a[..]), a[..], lo, hi)
      invariant Consistent(cmp) ==> forall i, j :: lo <= i < j <= pi && j != pj ==> Leq(cmp, a[i], a[j])
    {
      Swap(a, pj, pj - 1, lo, hi);
      pj := pj - 1;
    }
    if Consistent(cmp) && pj > lo {
      forall i | lo <= i < pj
        ensures Leq(cmp, a[i], a[pj])
      {
        assert i < pj - 1 ==> Leq(cmp, a[i], a[pj - 1]);
        assert Leq(cmp, a[pj - 1], a[pj]);
      }
    }
  }

  /** m is the middle one of x, y and z: at most one of them is below it and at most one above. */
  ghost predicate IsMedian<T>(cmp: Cmp<T>, x: T, y: T, z: T, m: T) {
    && (m == x || m == y || m == z)
    && (cmp(x, m) < 0 ==> cmp(y, m) >= 0 && cmp(z, m) >= 0)
    && (cmp(y, m) < 0 ==> cmp(z, m) >= 0)
    && (cmp(x, m) > 0 ==> cmp(y, m) <= 0 && cmp(z, m) <= 0)
    && (cmp(y, m) > 0 ==> cmp(z, m) <= 0)
  }

  method Med3<T(!new)>(a: array<T>, i: nat, j: nat, k: nat, cmp: Cmp<T>) returns (m: nat)
    requires i < a.Length && j < a.Length && k < a.Length
    ensures m == i || m == j || m == k
    ensures Consistent(cmp) ==> IsMedian(cmp, a[i], a[j], a[k], a[m])
  {
    var ab := cmp(a[i], a[j]);
    var bc := cmp(a[j], a[k]);
    if ab < 0 {
      m := if bc < 0 then j else if cmp(a[i], a[k]) < 0 then k else i;
    } else {
      m := if bc > 0 then j else if cmp(a[i], a[k]) > 0 then k else i;
    }
  }

  /** The pivot's position: the middle, the median of three or the pseudomedian of nine. */
  method ChoosePivot<T(!new)>(a: array<T>, lo: nat, n: nat, cmp: Cmp<T>) returns (pm: nat)
    requires n >= 7 && lo + n <= a.Length
    ensures lo <= pm < lo + n
  {
    pm := lo + n / 2;
    if n > 7 {
      var p1, p2 := lo, lo + (n - 1);
      if n > 40 {
        var offset := n / 8;
        p1 := Med3(a, p1, p1 + offset, p1 + 2 * offset, cmp);
        pm := Med3(a, pm - offset, pm, pm + offset, cmp);
        p2 := Med3(a, p2 - 2 * offset, p2 - offset, p2, cmp);
      }
      pm := Med3(a, p1, pm, p2, cmp);
    }
  }

  /** The state of the partition: pivot and elements equal to it at both ends, smaller elements
      in pa..pb, unseen ones in pb..pc inclusive, larger ones up to pd. */
  ghost predicate Partitioning<T>(a: array<T>, lo: int, pa: int, pb: int, pc: int, pd: int, hi: int, cmp: Cmp<T>, p: T)
    reads a
  {
    && 0 <= lo < pa <= pb <= pc + 1 <= pd + 1 <= hi <= a.Length
    && a[lo] == p
    && (forall i :: lo < i < pa ==> cmp(a[i], p) == 0)
    && (forall i :: pa <= i < pb ==> cmp(a[i], p) < 0)
    && (forall i :: pc < i <= pd ==> cmp(a[i], p) > 0)
    && (forall i :: pd < i < hi ==> cmp(a[i], p) == 0)
  }

  /** The partition loop around the pivot in a[lo]. */
  method Partition<T(!new)>(a: array<T>, lo: nat, hi: nat, cmp: Cmp<T>) returns (pa: nat, pb: nat, pc: nat, pd: nat)
    requires lo + 1 < hi <= a.Length
    modifies a
    ensures Permuted(old(a[..]), a[..], lo, hi)
    ensures Partitioning(a, lo, pa, pb, pc, pd, hi, cmp, old(a[lo])) && pb == pc + 1
  {
    var pivot := a[lo];
    pa, pb := lo + 1, lo + 1;
    pc, pd := hi - 1, hi - 1;
    while true
      invariant Permuted(old(a[..]), a[..], lo, hi)
      invariant Partitioning(a, lo, pa, pb, pc, pd, hi, cmp, pivot)
      decreases pc + 1 - pb
    {
      pa, pb := ScanUp(a, lo, pa, pb, pc, pd, hi, cmp, pivot);
      pc, pd := ScanDown(a, lo, pa, pb, pc, pd, hi, cmp, pivot);
      if pb > pc { break; }
      Swap(a, pb, pc, lo, hi);
      pb := pb + 1;
      pc := pc - 1;
    }
  }

  /** The inner loop that moves pb up past elements that are not above the pivot. */
  method ScanUp<T(!new)>(a: array<T>, lo: nat, pa0: nat, pb0: nat, pc: nat, pd: nat, hi: nat, cmp: Cmp<T>, pivot: T)
    returns (pa: nat, pb: nat)
    requires hi <= a.Length && Partitioning(a, lo, pa0, pb0, pc, pd, hi, cmp, pivot)
    modifies a
    ensures Permuted(old(a[..]), a[..], lo, hi)
    ensures Partitioning(a, lo, pa, pb, pc, pd, hi, cmp, pivot)
    ensures pb0 <= pb && (pb <= pc ==> cmp(a[pb], pivot) > 0)
  {
    pa, pb := pa0, pb0;
    while pb <= pc && cmp(a[pb], pivot) <= 0
      invariant pb0 <= pb
      invariant Permuted(old(a[..]), a[..], lo, hi)
      invariant Partitioning(a, lo, pa, pb, pc, pd, hi, cmp, pivot)
    {
      if cmp(a[pb], pivot) == 0 {
        Swap(a, pa, pb, lo, hi);
        pa := pa + 1;
      }
      pb := pb + 1;
    }
  }

  /** The inner loop that moves pc down past elements that are not below the pivot. */
  method ScanDown<T(!new)>(a: array<T>, lo: nat, pa: nat, pb: nat, pc0: nat, pd0: nat, hi: nat, cmp: Cmp<T>, pivot: T)
    returns (pc: nat, pd: nat)
    requires hi <= a.Length && Partitioning(a, lo, pa, pb, pc0, pd0, hi, cmp, pivot)
    requires pb <= pc0 ==> cmp(a[pb], pivot) > 0
    modifies a
    ensures Permuted(old(a[..]), a[..], lo, hi)
    ensures Partitioning(a, lo, pa, pb, pc, pd, hi, cmp, pivot)
    ensures pc <= pc0 && (pb <= pc ==> pb < pc && cmp(a[pc], pivot) < 0 && cmp(a[pb], pivot) > 0)
  {
    pc, pd := pc0, pd0;
    while pc >= pb && cmp(a[pc], pivot) >= 0
      invariant pc <= pc0
      invariant Permuted(old(a[..]), a[..], lo, hi)
      invariant Partitioning(a, lo, pa, pb, pc, pd, hi, cmp, pivot)
      invariant pb <= pc ==> cmp(a[pb], pivot) > 0
    {
      if cmp(a[pc], pivot) == 0 {
        Swap(a, pc, pd, lo, hi);
        pd := pd - 1;
      }
      pc := pc - 1;
    }
  }

  /** Smaller elements, then the pivot and its equals, then larger ones. The pivot itself is
      in the middle part, whatever the comparator says of it. */
  ghost predicate ThreeWay<T>(s: seq<T>, lo: int, m1: int, m2: int, hi: int, cmp: Cmp<T>, p: T) {
    && 0 <= lo <= m1 < m2 <= hi <= |s|
    && (forall i :: lo <= i < m1 ==> cmp(s[i], p) < 0)
    && (forall i :: m1 <= i < m2 ==> cmp(s[i], p) == 0 || s[i] == p)
    && (forall i :: m2 <= i < hi ==> cmp(s[i], p) > 0)
  }

  lemma {:induction false} ThreeWayCuts<T(!new)>(s: seq<T>, lo: int, m1: int, m2: int, hi: int, cmp: Cmp<T>, p: T)
    requires Consistent(cmp) && ThreeWay(s, lo, m1, m2, hi, cmp, p)
    ensures Cut(cmp, s, lo, m1, m2, hi)
  {
    assert cmp(p, p) == 0;
    forall i, j | lo <= i < j < hi && (i < m1 <= j || i < m2 <= j || (m1 <= i && j < m2))
      ensures Leq(cmp, s[i], s[j])
    {
      assert Leq(cmp, s[i], p) && Leq(cmp, p, s[j]);
    }
  }

  /** Swap the pivot and its equals from the left end up to the larger elements. */
  method GatherLeft<T(!new)>(a: array<T>, lo: nat, pa: nat, pb: nat, pc: nat, pd: nat, hi: nat, cmp: Cmp<T>, ghost p: T)
    requires hi <= a.Length && Partitioning(a, lo, pa, pb, pc, pd, hi, cmp, p) && pb == pc + 1
    modifies a
    ensures Permuted(old(a[..]), a[..], lo, hi)
    ensures forall k :: lo <= k < lo + (pb - pa) ==> cmp(a[k], p) < 0
    ensures forall k :: lo + (pb - pa) <= k < pb ==> cmp(a[k], p) == 0 || a[k] == p
    ensures forall k :: pb <= k < hi ==> a[k] == old(a[k])
  {
    var s := if pa - lo < pb - pa then pa - lo else pb - pa;
    SwapBlocks(a, lo, pb - s, s, lo, hi);
  }

  /** Swap the equals of the pivot from the right end down to the smaller elements. */
  method GatherRight<T(!new)>(a: array<T>, ghost lo: nat, pb: nat, pc: nat, pd: nat, hi: nat, cmp: Cmp<T>, ghost p: T)
    requires lo <= pb <= hi <= a.Length && pb == pc + 1 && pc <= pd < hi
    requires forall k :: pc < k <= pd ==> cmp(a[k], p) > 0
    requires forall k :: pd < k < hi ==> cmp(a[k], p) == 0
    modifies a
    ensures Permuted(old(a[..]), a[..], lo, hi)
    ensures forall k :: 0 <= k < pb ==> a[k] == old(a[k])
    ensures forall k :: pb <= k < hi - (pd - pc) ==> cmp(a[k], p) == 0
    ensures forall k :: hi - (pd - pc) <= k < hi ==> cmp(a[k], p) > 0
  {
    var s := if pd - pc < hi - pd - 1 then pd - pc else hi - pd - 1;
    SwapBlocks(a, pb, hi - s, s, lo, hi);
  }

  /** Swap the extreme ranges, which are equal to the pivot, into the middle. */
  method GatherEqual<T(!new)>(a: array<T>, lo: nat, pa: nat, pb: nat, pc: nat, pd: nat, hi: nat, cmp: Cmp<T>,
                       ghost p: T)
    requires hi <= a.Length && Partitioning(a, lo, pa, pb, pc, pd, hi, cmp, p) && pb == pc + 1
    modifies a
    ensures Permuted(old(a[..]), a[..], lo, hi)
    ensures ThreeWay(a[..], lo, lo + (pb - pa), hi - (pd - pc), hi, cmp, p)
  {
    GatherLeft(a, lo, pa, pb, pc, pd, hi, cmp, p);
    GatherRight(a, lo, pb, pc, pd, hi, cmp, p);
  }

  // ---------- the stack ----------

  /** The stack of size_t words holds the pending ranges. */
  ghost predicate Holds(stack: seq<nat>, p: Pending) {
    p.Above? ==>
      && 2 * p.Depth() <= |stack|
      && stack[2 * p.rest.Depth()] == p.top.lo && stack[2 * p.rest.Depth() + 1] == p.top.hi
      && Holds(stack, p.rest)
  }

  lemma {:induction false} HoldsBelow(stack: seq<nat>, stack': seq<nat>, p: Pending)
    requires Holds(stack, p) && 2 * p.Depth() <= |stack'|
    requires forall k :: 0 <= k < 2 * p.Depth() && k < |stack| ==> stack'[k] == stack[k]
    ensures Holds(stack', p)
  {
    if p.Above? { HoldsBelow(stack, stack', p.rest); }
  }

  /** The pending ranges after the top one has been cut: the larger part below the smaller,
      and no empty part on top. */
  function Recut(p: Pending, m1: nat, m2: nat): Pending
    requires p.Above?
  {
    var left, right := Range(p.top.lo, m1), Range(m2, p.top.hi);
    var big := if right.Size() > left.Size() then right else left;
    var small := if right.Size() > left.Size() then left else right;
    if left.Size() == 0 && right.Size() == 0 then p.rest
    else if small.Size() == 0 then Above(p.rest, big)
    else Above(Above(p.rest, big), small)
  }

  lemma {:induction false} ApartFromPart(p: Pending, r: Range, part: Range)
    requires p.Apart(r) && r.lo <= part.lo && part.hi <= r.hi
    ensures p.Apart(part)
  {
    if p.Above? { ApartFromPart(p.rest, r, part); }
  }

  lemma {:induction false} RecutNested(p: Pending, m1: nat, m2: nat, n: nat)
    requires p.Above? && p.Nested(n) && p.top.lo <= m1 < m2 <= p.top.hi
    ensures Recut(p, m1, m2).Nested(n)
  {
    var left, right := Range(p.top.lo, m1), Range(m2, p.top.hi);
    ApartFromPart(p.rest, p.top, left);
    ApartFromPart(p.rest, p.top, right);
    var big := if right.Size() > left.Size() then right else left;
    var small := if right.Size() > left.Size() then left else right;
    assert Above(p.rest, big).Nested(n) && Above(p.rest, big).Apart(small);
    assert 2 * small.Size() <= p.top.Size() <= Halved(n, p.rest.Depth());
  }

  lemma {:induction false} WorkNonNegative(p: Pending, n: nat)
    requires p.Nested(n)
    ensures p.Work() >= 0
  {
    if p.Above? { WorkNonNegative(p.rest, n); }
  }

  /** Why the assertion on the stack size cannot fire: a range that is cut has at least seven
      elements, so fewer than 8w - 2 ranges lie below it. */
  lemma {:induction false} StackSuffices(k: nat, size: nat, n: nat, w: nat)
    requires 7 <= size <= Halved(n, k) && n < Pow2(8 * w)
    ensures 2 * k + 4 < (8 * w + 1) * 2
  {
    if w == 0 {
      HalvedFalls(n, 0, k);
    } else if k >= 8 * w - 2 {
      assert Pow2(2) == 2 * Pow2(1);
      HalvedBelow(n, 8 * w - 2, 8 * w);
      HalvedFalls(n, 8 * w - 2, k);
    }
  }

  /** Mark the parts left to sort; sp0 is the position of the popped range. */
  method PushParts(stack: array<nat>, sp0: nat, less: nat, greater: nat, ghost p: Pending) returns (sp: nat)
    requires p.Above? && sp0 == 2 * p.rest.Depth() && Holds(stack[..], p)
    requires sp0 + 4 < stack.Length
    requires p.top.lo + less < p.top.hi - greater && less + greater > 0
    modifies stack
    ensures var next := Recut(p, p.top.lo + less, p.top.hi - greater);
            Holds(stack[..], next) && sp == 2 * next.Depth()
  {
    ghost var was := stack[..];
    assert was[sp0] == p.top.lo && was[sp0 + 1] == p.top.hi;
    stack[sp0 + 2] := stack[sp0 + 1] - greater;
    stack[sp0 + 3] := stack[sp0 + 1];
    stack[sp0 + 1] := stack[sp0] + less;
    if stack[sp0 + 3] - stack[sp0 + 2] > stack[sp0 + 1] - stack[sp0] {
      stack[sp0], stack[sp0 + 2] := stack[sp0 + 2], stack[sp0];
      stack[sp0 + 1], stack[sp0 + 3] := stack[sp0 + 3], stack[sp0 + 1];
    }
    sp := sp0 + (if stack[sp0 + 2] != stack[sp0 + 3] then 4 else 2);
    HoldsBelow(was, stack[..], p.rest);
  }

  // ---------- the sort ----------

  /** The position past the parts: sort one popped range, or cut it in three. */
  method CutRange<T(!new)>(a: array<T>, lo: nat, hi: nat, cmp: Cmp<T>) returns (less: nat, greater: nat)
    requires lo + 7 <= hi <= a.Length
    modifies a
    ensures Permuted(old(a[..]), a[..], lo, hi)
    ensures lo + less < hi - greater
    ensures Consistent(cmp) ==> Cut(cmp, a[..], lo, lo + less, hi - greater, hi)
  {
    var pm := ChoosePivot(a, lo, hi - lo, cmp);
    Swap(a, lo, pm, lo, hi);
    ghost var pivot := a[lo];
    var pa, pb, pc, pd := Partition(a, lo, hi, cmp);
    GatherEqual(a, lo, pa, pb, pc, pd, hi, cmp, pivot);
    less, greater := pb - pa, pd - pc;
    if Consistent(cmp) {
      ThreeWayCuts(a[..], lo, lo + less, hi - greater, hi, cmp, pivot);
    }
  }

  /** What the loop knows of the array and of the ranges still to sort. */
  ghost predicate Invariant<T(!new)>(cmp: Cmp<T>, s: seq<T>, p: Pending) {
    p.Nested(|s|) && (Consistent(cmp) ==> OrderedApart(cmp, s, p))
  }

  method SortTop<T(!new)>(a: array<T>, cmp: Cmp<T>, ghost p: Pending, lo: nat, hi: nat)
    requires p.Above? && p.top == Range(lo, hi) && Invariant(cmp, a[..], p)
    modifies a
    ensures Invariant(cmp, a[..], p.rest)
    ensures Permuted(old(a[..]), a[..], 0, a.Length)
  {
    InsertionSort(a, lo, hi, cmp);
    if Consistent(cmp) {
      CutKeepsOrder(cmp, old(a[..]), a[..], p, p.rest, lo, hi);
    }
    PermutedWider(old(a[..]), a[..], lo, hi, 0, a.Length);
  }

  method CutTop<T(!new)>(a: array<T>, cmp: Cmp<T>, ghost p: Pending, lo: nat, hi: nat) returns (less: nat, greater: nat)
    requires p.Above? && p.top == Range(lo, hi) && Invariant(cmp, a[..], p)
    requires hi - lo >= 7
    modifies a
    ensures lo + less < hi - greater
    ensures Invariant(cmp, a[..], Recut(p, lo + less, hi - greater))
    ensures Permuted(old(a[..]), a[..], 0, a.Length)
  {
    less, greater := CutRange(a, lo, hi, cmp);
    RecutNested(p, lo + less, hi - greater, a.Length);
    if Consistent(cmp) {
      CutKeepsOrder(cmp, old(a[..]), a[..], p, Recut(p, lo + less, hi - greater), lo + less, hi - greater);
    }
    PermutedWider(old(a[..]), a[..], lo, hi, 0, a.Length);
  }

  /** One round of the loop: pop a range, and sort it or cut it and push what is left. */
  method Round<T(!new)>(a: array<T>, cmp: Cmp<T>, stack: array<nat>, sp0: nat, ghost p: Pending, ghost w: nat)
    returns (sp: nat, ghost next: Pending)
    requires a.Length < Pow2(8 * w) && stack.Length == (8 * w + 1) * 2 && a as object != stack
    requires p.Above? && sp0 == 2 * p.Depth() && Holds(stack[..], p) && Invariant(cmp, a[..], p)
    modifies a, stack
    ensures sp == 2 * next.Depth() && Holds(stack[..], next) && Invariant(cmp, a[..], next)
    ensures next.Work() < p.Work()
    ensures Permuted(old(a[..]), a[..], 0, a.Length)
  {
    sp := sp0 - 2;
    assert stack[..][sp] == p.top.lo && stack[..][sp + 1] == p.top.hi;
    var lo, hi := stack[sp], stack[sp + 1];
    if hi - lo < 7 {
      SortTop(a, cmp, p, lo, hi);
      next := p.rest;
    } else {
      var less, greater := CutTop(a, cmp, p, lo, hi);
      next := Recut(p, lo + less, hi - greater);
      if less != 0 || greater != 0 {
        StackSuffices(p.rest.Depth(), hi - lo, a.Length, w);
        sp := PushParts(stack, sp, less, greater, p);
      }
    }
  }

  lemma {:induction false} NothingPending<T(!new)>(cmp: Cmp<T>, s: seq<T>)
    requires OrderedApart(cmp, s, Bottom)
    ensures Sorted(cmp, s)
  {
    forall i, j | 0 <= i < j < |s|
      ensures Leq(cmp, s[i], s[j])
    {
      assert !Bottom.Together(i, j);
    }
  }

  /** sizeOfSizeT is the width of size_t in bytes, so an array has fewer than 2^(8 sizeOfSizeT)
      elements. The stack has the source's CQ_STACKSIZ words. */
  method ClickQsort<T(!new)>(a: array<T>, cmp: Cmp<T>, sizeOfSizeT: nat)
    requires a.Length < Pow2(8 * sizeOfSizeT)
    modifies a
    ensures multiset(a[..]) == multiset(old(a[..]))
    ensures Consistent(cmp) ==> Sorted(cmp, a[..])
  {
    var stack := new nat[(8 * sizeOfSizeT + 1) * 2](_ => 0);
    stack[0], stack[1] := 0, a.Length;
    var sp := 2;
    ghost var p := Above(Bottom, Range(0, a.Length));
    while sp != 0
      invariant fresh(stack) && stack.Length == (8 * sizeOfSizeT + 1) * 2
      invariant sp == 2 * p.Depth() && Holds(stack[..], p)
      invariant Invariant(cmp, a[..], p)
      invariant Permuted(old(a[..]), a[..], 0, a.Length)
      decreases p.Work()
    {
      WorkNonNegative(p, a.Length);
      sp, p := Round(a, cmp, stack, sp, p, sizeOfSizeT);
    }
    if Consistent(cmp) { NothingPending(cmp, a[..]); }
    assert a[..] == a[..][0..a.Length] && old(a[..]) == old(a[..])[0..a.Length];
  }
}
