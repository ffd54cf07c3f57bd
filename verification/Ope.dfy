/** Order-preserving encryption (crypto/ope.cc): a binary search over a tree of plaintext and
    ciphertext intervals that is sampled lazily and memoised across calls. */
module Ope {
  import Hgd
  import Bits
  import Blocks
  import Prng
  import opened Power

  type Counter = c: Bits.Bytes | |c| == 16 witness seq(16, _ => 0)

  /** AES with its key: an invertible cipher on 16 bytes. */
  type Aes = c: Blocks.Cipher | c.Valid() && c.size == 16
    witness Blocks.Cipher(16, (x: Bits.Bytes) => x, (x: Bits.Bytes) => x)

  /** A tree node: plaintexts dLo..dHi are spread over ciphertexts rLo..rHi, both inclusive. */
  datatype Node = Node(dLo: int, dHi: int, rLo: int, rHi: int) {
    function NDomain(): int { dHi - dLo + 1 }
    function NRange(): int { rHi - rLo + 1 }
    function RGap(): int { NRange() / 2 }
    /** The ciphertext at which the node splits, and the key of its entry in the cache. */
    function Split(): int { rLo + RGap() }
    predicate Sound() { 1 <= NDomain() <= NRange() }
    function Low(dgap: int): Node { Node(dLo, dLo + dgap - 1, rLo, Split() - 1) }
    function High(dgap: int): Node { Node(dLo + dgap, dHi, Split(), rHi) }
    function Child(dgap: int, low: bool): Node { if low then Low(dgap) else High(dgap) }
  }

  /** The keyed primitives. The sampler's draw and the counter it leaves behind are functions of
      the counter that it starts from. */
  datatype Keyed = Keyed(
    aes: Aes,
    nodeCtr: Node -> Counter,
    textCtr: int -> Counter,
    hgd: (Counter, int, int, int) -> int,
    after: (Counter, int, int, int) -> Counter)

  /** The sampler draws what the urn allows. */
  ghost predicate InUrn(k: Keyed) {
    forall c, kk, nn1, nn2 :: Hgd.ValidArgs(kk, nn1, nn2) ==>
      0 <= k.hgd(c, kk, nn1, nn2) <= nn1 && kk - nn2 <= k.hgd(c, kk, nn1, nn2) <= kk
  }

  /** HGD does so whenever its variate lies in the range that it computes for the variate. */
  lemma {:induction false} HgdInUrn(k: Keyed, variate: (Counter, int, int, int) -> real)
    requires forall c, kk, nn1, nn2 :: Hgd.ValidArgs(kk, nn1, nn2) ==>
               var p := Hgd.Normalise(kk, nn1, nn2);
               && p.minJX as real <= variate(c, kk, nn1, nn2) <= p.maxJX as real
               && k.hgd(c, kk, nn1, nn2) == Hgd.Variate(kk, nn1, nn2, variate(c, kk, nn1, nn2))
    ensures InUrn(k)
  {
    forall c, kk, nn1, nn2 | Hgd.ValidArgs(kk, nn1, nn2)
      ensures 0 <= k.hgd(c, kk, nn1, nn2) <= nn1 && kk - nn2 <= k.hgd(c, kk, nn1, nn2) <= kk
    {
      Hgd.VariateInUrn(kk, nn1, nn2, variate(c, kk, nn1, nn2));
    }
  }

  /** What a search comes to: a leaf, the exception of its range check, or no return at all
      (the search has entered an interval without plaintexts, which has no leaf). */
  datatype Outcome = Leaf(d: int, rLo: int, rHi: int) | Thrown | NoReturn
  datatype Result = Value(v: int) | Threw | Diverged

  // ---------- the tree, without memoisation ----------

  /** How many plaintexts of a node lie below its split point. */
  type Draw = Node -> int

  /** Both parts of a node get enough ciphertexts for their plaintexts. */
  ghost predicate Legal(gap: Draw) {
    forall n: Node :: 0 <= n.NDomain() <= n.NRange() ==>
      && 0 <= gap(n) <= n.NDomain()
      && n.NDomain() - (n.NRange() - n.RGap()) <= gap(n) <= n.RGap()
  }

  /** The draw for a node, from the counter that the node's bounds determine. */
  function Tree(k: Keyed): Draw {
    (n: Node) => k.hgd(k.nodeCtr(n), n.RGap(), n.NDomain(), n.NRange() - n.NDomain())
  }

  /** The bounds of the sampler are what the search tree needs. */
  lemma {:induction false} TreeIsLegal(k: Keyed)
    requires InUrn(k)
    ensures Legal(Tree(k))
  {
    forall n: Node | 0 <= n.NDomain() <= n.NRange()
      ensures 0 <= Tree(k)(n) <= n.NDomain()
      ensures n.NDomain() - (n.NRange() - n.RGap()) <= Tree(k)(n) <= n.RGap()
    {
      assert Hgd.ValidArgs(n.RGap(), n.NDomain(), n.NRange() - n.NDomain());
    }
  }

  /** A sampler that draws x for one state of the generator and these arguments, y for another one, and
      otherwise as few as it may. */
  function TwoDraws(c: Counter, n: Node, x: int, d: Counter, m: Node, y: int): (Counter, int, int, int) -> int {
    (a: Counter, kk: int, nn1: int, nn2: int) =>
      if a == c && (kk, nn1, nn2) == (n.RGap(), n.NDomain(), n.NRange() - n.NDomain()) then x
      else if a == d && (kk, nn1, nn2) == (m.RGap(), m.NDomain(), m.NRange() - m.NDomain()) then y
      else if kk > nn2 then kk - nn2 else 0
  }

  /** What the urn of a node allows. */
  predicate Drawable(n: Node, x: int) {
    && 0 <= n.NDomain() <= n.NRange() && 0 <= x <= n.NDomain()
    && n.NDomain() - (n.NRange() - n.RGap()) <= x <= n.RGap()
  }

  /** Each node has coins of its own: two nodes with different counters have every pair of draws that
      their urns allow. */
  lemma {:induction false} EveryTwoDraws(k: Keyed, n: Node, x: int, m: Node, y: int) returns (k': Keyed)
    requires Drawable(n, x) && Drawable(m, y) && k.nodeCtr(n) != k.nodeCtr(m)
    ensures k' == k.(hgd := k'.hgd) && InUrn(k') && Tree(k')(n) == x && Tree(k')(m) == y
  {
    k' := k.(hgd := TwoDraws(k.nodeCtr(n), n, x, k.nodeCtr(m), m, y));
  }

  /** lazy_sample on the fully sampled tree. */
  function Search(gap: Draw, n: Node, goLow: (int, int) -> bool): (o: Outcome)
    ensures o.Leaf? ==> o.rLo <= o.rHi
    decreases if n.Sound() then n.NRange() else 0
  {
    if n.NRange() < n.NDomain() then Thrown
    else if n.NDomain() == 1 then Leaf(n.dLo, n.rLo, n.rHi)
    else if n.NDomain() < 1 then NoReturn
    else
      var dgap := gap(n);
      Search(gap, n.Child(dgap, goLow(n.dLo + dgap, n.Split())), goLow)
  }

  lemma {:induction false} SearchStep(gap: Draw, n: Node, goLow: (int, int) -> bool, dgap: int, low: bool)
    requires 2 <= n.NDomain() <= n.NRange() && dgap == gap(n) && low == goLow(n.dLo + dgap, n.Split())
    ensures Search(gap, n, goLow) == Search(gap, n.Child(dgap, low), goLow)
  {
  }

  /** Where a search ends without going on to a child. */
  lemma {:induction false} SearchEnds(gap: Draw, n: Node, goLow: (int, int) -> bool)
    ensures n.NRange() < n.NDomain() ==> Search(gap, n, goLow) == Thrown
    ensures n.NDomain() == 1 <= n.NRange() ==> Search(gap, n, goLow) == Leaf(n.dLo, n.rLo, n.rHi)
    ensures n.NDomain() < 1 && n.NDomain() <= n.NRange() ==> Search(gap, n, goLow) == NoReturn
  {
  }

  /** Both children of a node are smaller and have enough ciphertexts. */
  lemma {:induction false} ChildShrinks(gap: Draw, n: Node, low: bool)
    requires Legal(gap) && 2 <= n.NDomain() <= n.NRange()
    ensures var m := n.Child(gap(n), low); 0 <= m.NDomain() <= m.NRange() < n.NRange()
  {
  }

  function ByPlaintext(p: int): (int, int) -> bool { (d, r) => p < d }
  function ByCiphertext(c: int): (int, int) -> bool { (d, r) => c < r }

  function Root(pbits: nat, cbits: nat): Node { Node(0, Pow2(pbits), 0, Pow2(cbits)) }

  function EncryptSpec(k: Keyed, pbits: nat, cbits: nat, p: int): Result {
    match Search(Tree(k), Root(pbits, cbits), ByPlaintext(p))
    case Leaf(_, lo, hi) => Value(Place(k, p, lo, hi))
    case Thrown => Threw
    case NoReturn => Diverged
  }

  /** The ciphertext for p in the interval lo..hi: a pseudo-random number for p alone. */
  function Place(k: Keyed, p: int, lo: int, hi: int): (c: int)
    requires lo <= hi
    ensures lo <= c <= hi
  {
    lo + Prng.RandMod(k.aes, k.textCtr(p), hi - lo + 1)
  }

  function DecryptSpec(k: Keyed, pbits: nat, cbits: nat, c: int): Result {
    match Search(Tree(k), Root(pbits, cbits), ByCiphertext(c))
    case Leaf(d, _, _) => Value(d)
    case Thrown => Threw
    case NoReturn => Diverged
  }

  // ---------- each plaintext owns an interval of ciphertexts ----------

  /** A search for a plaintext of the node ends at that plaintext's own leaf. */
  lemma {:induction false} FindsPlaintext(gap: Draw, n: Node, p: int)
    requires Legal(gap) && n.Sound() && n.dLo <= p <= n.dHi
    ensures var o := Search(gap, n, ByPlaintext(p));
            o.Leaf? && o.d == p && n.rLo <= o.rLo <= o.rHi <= n.rHi
    decreases n.NRange()
  {
    if n.NDomain() > 1 {
      FindsPlaintext(gap, n.Child(gap(n), p < n.dLo + gap(n)), p);
    }
  }

  /** Larger plaintexts own larger ciphertexts. */
  lemma {:induction false} IntervalsOrdered(gap: Draw, n: Node, p: int, q: int)
    requires Legal(gap) && n.Sound() && n.dLo <= p < q <= n.dHi
    ensures var a, b := Search(gap, n, ByPlaintext(p)), Search(gap, n, ByPlaintext(q));
            a.Leaf? && b.Leaf? && a.rHi < b.rLo
    decreases n.NRange()
  {
    var dgap := gap(n);
    FindsPlaintext(gap, n.Child(dgap, p < n.dLo + dgap), p);
    FindsPlaintext(gap, n.Child(dgap, q < n.dLo + dgap), q);
    if (p < n.dLo + dgap) == (q < n.dLo + dgap) {
      IntervalsOrdered(gap, n.Child(dgap, p < n.dLo + dgap), p, q);
    }
  }

  /** The search that compares ciphertexts takes the branches of the search that compares
      plaintexts, for every ciphertext that the plaintext owns. */
  lemma {:induction false} SameBranches(gap: Draw, n: Node, p: int, c: int)
    requires Legal(gap) && n.Sound() && n.dLo <= p <= n.dHi
    requires var o := Search(gap, n, ByPlaintext(p)); o.Leaf? && o.rLo <= c <= o.rHi
    ensures Search(gap, n, ByCiphertext(c)) == Search(gap, n, ByPlaintext(p))
    decreases n.NRange()
  {
    if n.NDomain() > 1 {
      var child := n.Child(gap(n), p < n.dLo + gap(n));
      FindsPlaintext(gap, child, p);
      SameBranches(gap, child, p, c);
    }
  }

  /** A search by ciphertext that returns has found the owner of the ciphertext. */
  lemma {:induction false} FindsOwner(gap: Draw, n: Node, c: int)
    requires Legal(gap) && n.Sound() && n.rLo <= c <= n.rHi
    ensures var o := Search(gap, n, ByCiphertext(c));
            && !o.Thrown?
            && (o.Leaf? ==> n.dLo <= o.d <= n.dHi && o.rLo <= c <= o.rHi && o == Search(gap, n, ByPlaintext(o.d)))
    decreases n.NRange()
  {
    if n.NDomain() > 1 {
      var dgap := gap(n);
      var child := n.Child(dgap, c < n.Split());
      if child.Sound() {
        FindsOwner(gap, child, c);
        var o := Search(gap, child, ByCiphertext(c));
        if o.Leaf? {
          assert (o.d < n.dLo + dgap) == (c < n.Split());
        }
      }
    }
  }

  // ---------- the main results ----------

  lemma {:induction false} EncryptInInterval(k: Keyed, pbits: nat, cbits: nat, p: int)
    requires InUrn(k) && pbits <= cbits && 0 <= p <= Pow2(pbits)
    ensures var o := Search(Tree(k), Root(pbits, cbits), ByPlaintext(p));
            var e := EncryptSpec(k, pbits, cbits, p);
            && o.Leaf? && o.d == p && e.Value?
            && 0 <= o.rLo <= e.v <= o.rHi <= Pow2(cbits)
  {
    TreeIsLegal(k);
    Pow2Monotone(pbits, cbits);
    FindsPlaintext(Tree(k), Root(pbits, cbits), p);
  }

  lemma {:induction false} EncryptIncreases(k: Keyed, pbits: nat, cbits: nat, p: int, q: int)
    requires InUrn(k) && pbits <= cbits && 0 <= p < q <= Pow2(pbits)
    ensures var e, f := EncryptSpec(k, pbits, cbits, p), EncryptSpec(k, pbits, cbits, q);
            e.Value? && f.Value? && e.v < f.v
  {
    EncryptInInterval(k, pbits, cbits, p);
    EncryptInInterval(k, pbits, cbits, q);
    TreeIsLegal(k);
    Pow2Monotone(pbits, cbits);
    IntervalsOrdered(Tree(k), Root(pbits, cbits), p, q);
  }

  /** The law the scheme is named for. */
  lemma {:induction false} EncryptPreservesOrder(k: Keyed, pbits: nat, cbits: nat, p: int, q: int)
    requires InUrn(k) && pbits <= cbits && 0 <= p <= Pow2(pbits) && 0 <= q <= Pow2(pbits)
    ensures var e, f := EncryptSpec(k, pbits, cbits, p), EncryptSpec(k, pbits, cbits, q);
            e.Value? && f.Value? && (p < q <==> e.v < f.v)
  {
    if p < q {
      EncryptIncreases(k, pbits, cbits, p, q);
    } else if q < p {
      EncryptIncreases(k, pbits, cbits, q, p);
    } else {
      EncryptInInterval(k, pbits, cbits, p);
    }
  }

  lemma {:induction false} DecryptInvertsEncrypt(k: Keyed, pbits: nat, cbits: nat, p: int)
    requires InUrn(k) && pbits <= cbits && 0 <= p <= Pow2(pbits)
    ensures var e := EncryptSpec(k, pbits, cbits, p);
            e.Value? && DecryptSpec(k, pbits, cbits, e.v) == Value(p)
  {
    TreeIsLegal(k);
    EncryptInInterval(k, pbits, cbits, p);
    SameBranches(Tree(k), Root(pbits, cbits), p, EncryptSpec(k, pbits, cbits, p).v);
  }

  /** Decryption of any number of the ciphertext space: it returns p exactly for the
      numbers in the interval that p owns, and for the others it does not return. */
  lemma {:induction false} DecryptReturnsOwner(k: Keyed, pbits: nat, cbits: nat, c: int, p: int)
    requires InUrn(k) && pbits <= cbits && 0 <= c <= Pow2(cbits)
    ensures DecryptSpec(k, pbits, cbits, c) != Threw
    ensures DecryptSpec(k, pbits, cbits, c) == Value(p) <==>
            0 <= p <= Pow2(pbits) &&
            var o := Search(Tree(k), Root(pbits, cbits), ByPlaintext(p)); o.Leaf? && o.rLo <= c <= o.rHi
  {
    TreeIsLegal(k);
    Pow2Monotone(pbits, cbits);
    var root := Root(pbits, cbits);
    FindsOwner(Tree(k), root, c);
    if 0 <= p <= Pow2(pbits) {
      FindsPlaintext(Tree(k), root, p);
      var o := Search(Tree(k), root, ByPlaintext(p));
      if o.rLo <= c <= o.rHi {
        SameBranches(Tree(k), root, p, c);
      }
    }
  }

  // ---------- where in its interval a plaintext is put ----------

  /** Intervals of fewer than 2^120 ciphertexts take one block: the place in the interval is what AES
      makes of the plaintext's own counter plus one, modulo the length of the interval. */
  lemma {:induction false} EncryptIs(k: Keyed, pbits: nat, cbits: nat, p: int, o: Outcome) returns (times: nat)
    requires o == Search(Tree(k), Root(pbits, cbits), ByPlaintext(p))
    requires o.Leaf? && o.rHi - o.rLo < Pow2(120)
    ensures var max, e := o.rHi - o.rLo + 1, EncryptSpec(k, pbits, cbits, p);
            && e.Value? && Prng.NumBits(max) / 8 < 16
            && Bits.FromLittleEndian(k.aes.Enc(Prng.Next(k.textCtr(p)))[..Prng.NumBits(max) / 8 + 1])
               == times * max + (e.v - o.rLo)
  {
    hide Search, Tree, Pow2, Bits.FromLittleEndian, Prng.Next, Prng.NumBits, Prng.RandMod;
    Prng.FewBits(o.rHi - o.rLo + 1, 120);
    times := Prng.RandModIs(k.aes, k.textCtr(p), o.rHi - o.rLo + 1);
  }

  lemma {:induction false} SameDrawsSameSearch(gap: Draw, other: Draw, n: Node, goLow: (int, int) -> bool)
    requires forall m: Node :: gap(m) == other(m)
    ensures Search(gap, n, goLow) == Search(other, n, goLow)
    decreases if n.Sound() then n.NRange() else 0
  {
    if !(n.NRange() < n.NDomain()) && n.NDomain() > 1 {
      var child := n.Child(gap(n), goLow(n.dLo + gap(n), n.Split()));
      SameDrawsSameSearch(gap, other, child, goLow);
    }
  }

  /** The key of the cipher decides nothing but the place in the interval. */
  lemma {:induction false} KeyDecidesPlace(k: Keyed, aes: Aes, pbits: nat, cbits: nat, p: int)
    ensures var o := Search(Tree(k), Root(pbits, cbits), ByPlaintext(p));
            EncryptSpec(k.(aes := aes), pbits, cbits, p) ==
            if o.Leaf? then Value(Place(k.(aes := aes), p, o.rLo, o.rHi)) else if o.Thrown? then Threw else Diverged
  {
    hide Search, Root, ByPlaintext;
    SameDrawsSameSearch(Tree(k), Tree(k.(aes := aes)), Root(pbits, cbits), ByPlaintext(p));
  }

  /** Every ciphertext of a plaintext's interval is its ciphertext under some key. */
  lemma {:induction false} EveryCiphertext(k: Keyed, pbits: nat, cbits: nat, p: int, c: int) returns (aes: Aes)
    requires var o := Search(Tree(k), Root(pbits, cbits), ByPlaintext(p));
             o.Leaf? && o.rLo <= c <= o.rHi < o.rLo + Pow2(120)
    ensures EncryptSpec(k.(aes := aes), pbits, cbits, p) == Value(c)
  {
    hide Search, Tree, Pow2, EncryptSpec;
    hide Prng.RandMod;
    var o := Search(Tree(k), Root(pbits, cbits), ByPlaintext(p));
    aes := Prng.EveryNumberDrawn(k.textCtr(p), o.rHi - o.rLo + 1, c - o.rLo);
    KeyDecidesPlace(k, aes, pbits, cbits, p);
  }

  /** Plaintexts with different counters have every pair of ciphertexts of their intervals. */
  lemma {:induction false} EveryTwoCiphertexts(k: Keyed, pbits: nat, cbits: nat, p: int, c: int, q: int, d: int)
    returns (aes: Aes)
    requires k.textCtr(p) != k.textCtr(q)
    requires var o := Search(Tree(k), Root(pbits, cbits), ByPlaintext(p));
             o.Leaf? && o.rLo <= c <= o.rHi < o.rLo + Pow2(112)
    requires var o := Search(Tree(k), Root(pbits, cbits), ByPlaintext(q));
             o.Leaf? && o.rLo <= d <= o.rHi < o.rLo + Pow2(112)
    ensures EncryptSpec(k.(aes := aes), pbits, cbits, p) == Value(c)
    ensures EncryptSpec(k.(aes := aes), pbits, cbits, q) == Value(d)
  {
    hide Search, Tree, Pow2, EncryptSpec;
    hide Prng.RandMod;
    var o := Search(Tree(k), Root(pbits, cbits), ByPlaintext(p));
    var o' := Search(Tree(k), Root(pbits, cbits), ByPlaintext(q));
    aes := Prng.EveryPairDrawn(k.textCtr(p), o.rHi - o.rLo + 1, c - o.rLo,
                               k.textCtr(q), o'.rHi - o'.rLo + 1, d - o'.rLo);
    KeyDecidesPlace(k, aes, pbits, cbits, p);
    KeyDecidesPlace(k, aes, pbits, cbits, q);
  }

  /** The range check throws exactly when the ciphertext space is the smaller one, and then
      for every argument. */
  lemma {:induction false} ThrowsIffTooNarrow(gap: Draw, pbits: nat, cbits: nat, goLow: (int, int) -> bool)
    requires Legal(gap)
    ensures Search(gap, Root(pbits, cbits), goLow) == Thrown <==> cbits < pbits
  {
    Pow2Monotone(pbits, cbits);
    if pbits <= cbits {
      NeverThrows(gap, Root(pbits, cbits), goLow);
    }
  }

  lemma {:induction false} NeverThrows(gap: Draw, n: Node, goLow: (int, int) -> bool)
    requires Legal(gap) && n.NDomain() <= n.NRange()
    ensures Search(gap, n, goLow) != Thrown
    decreases n.NRange()
  {
    if n.NDomain() > 1 {
      NeverThrows(gap, n.Child(gap(n), goLow(n.dLo + gap(n), n.Split())), goLow);
    }
  }

  // ---------- depth ----------

  /** Number of nodes that a search visits before it returns or throws. */
  function Visits(gap: Draw, n: Node, goLow: (int, int) -> bool): nat
    requires Search(gap, n, goLow) != NoReturn
    decreases if n.Sound() then n.NRange() else 0
  {
    if n.NRange() < n.NDomain() || n.NDomain() <= 1 then 1
    else 1 + Visits(gap, n.Child(gap(n), goLow(n.dLo + gap(n), n.Split())), goLow)
  }

  /** The branches are those that the search takes. */
  predicate Taken(gap: Draw, n: Node, goLow: (int, int) -> bool, path: seq<bool>)
    decreases |path|
  {
    || path == []
    || (path[0] == goLow(n.dLo + gap(n), n.Split()) && Taken(gap, n.Child(gap(n), path[0]), goLow, path[1..]))
  }

  /** A search that returns or throws is over after bits + 2 nodes; one that does neither has
      entered a part of the tree without plaintexts by then. */
  lemma {:induction false} VisitsBound(gap: Draw, n: Node, goLow: (int, int) -> bool, bits: nat)
    requires Legal(gap) && 0 <= n.NDomain() <= n.NRange() <= Pow2(bits) + 1
    ensures Search(gap, n, goLow) != NoReturn ==> Visits(gap, n, goLow) <= bits + 2
    ensures Search(gap, n, goLow) == NoReturn ==>
              exists path :: |path| <= bits + 1 && Taken(gap, n, goLow, path) && At(gap, n, path).NDomain() == 0
    decreases bits
  {
    if n.NDomain() > 1 {
      var low := goLow(n.dLo + gap(n), n.Split());
      var child := n.Child(gap(n), low);
      ChildShrinks(gap, n, low);
      if bits > 0 {
        VisitsBound(gap, child, goLow, bits - 1);
        if Search(gap, n, goLow) == NoReturn {
          var path :| |path| <= bits && Taken(gap, child, goLow, path) && At(gap, child, path).NDomain() == 0;
          assert ([low] + path)[1..] == path;
          assert Taken(gap, n, goLow, [low] + path);
          assert At(gap, n, [low] + path) == At(gap, child, path);
        }
      } else {
        assert Pow2(0) == 1;
        SearchEnds(gap, child, goLow);
      }
    } else {
      assert Taken(gap, n, goLow, []) && At(gap, n, []) == n;
    }
  }

  /** From the root. */
  lemma {:induction false} DepthBound(gap: Draw, pbits: nat, cbits: nat, goLow: (int, int) -> bool)
    requires Legal(gap) && Search(gap, Root(pbits, cbits), goLow) != NoReturn
    ensures Visits(gap, Root(pbits, cbits), goLow) <= cbits + 2
  {
    Pow2Monotone(pbits, cbits);
    if pbits <= cbits {
      VisitsBound(gap, Root(pbits, cbits), goLow, cbits);
    }
  }

  /** The search of an encryption is never deeper than that. */
  lemma {:induction false} EncryptDepth(gap: Draw, pbits: nat, cbits: nat, p: int)
    requires Legal(gap) && pbits <= cbits && 0 <= p <= Pow2(pbits)
    ensures var root := Root(pbits, cbits);
            Search(gap, root, ByPlaintext(p)) != NoReturn && Visits(gap, root, ByPlaintext(p)) <= cbits + 2
  {
    Pow2Monotone(pbits, cbits);
    FindsPlaintext(gap, Root(pbits, cbits), p);
    DepthBound(gap, pbits, cbits, ByPlaintext(p));
  }

  // ---------- memoisation ----------

  /** The node reached from n by the given branches, true for low. */
  ghost function At(gap: Draw, n: Node, path: seq<bool>): Node
    decreases |path|
  {
    if path == [] then n else At(gap, n.Child(gap(n), path[0]), path[1..])
  }

  lemma {:induction false} AtStep(gap: Draw, n: Node, path: seq<bool>, low: bool)
    ensures var m := At(gap, n, path); At(gap, n, path + [low]) == m.Child(gap(m), low)
    decreases |path|
  {
    if path == [] {
      assert ([] + [low])[1..] == [];
    } else {
      AtStep(gap, n.Child(gap(n), path[0]), path[1..], low);
      assert (path + [low])[1..] == path[1..] + [low];
    }
  }

  lemma {:induction false} SplitInside(gap: Draw, n: Node, path: seq<bool>)
    requires At(gap, n, path).NRange() >= 2
    ensures n.rLo < At(gap, n, path).Split() <= n.rHi
    decreases |path|
  {
    if path != [] {
      SplitInside(gap, n.Child(gap(n), path[0]), path[1..]);
    }
  }

  /** A node without plaintexts only ever leads to such nodes: no leaf and no exception
      ends a search that has entered one, whatever branches it takes. */
  lemma {:induction false} EmptyStaysEmpty(gap: Draw, n: Node, path: seq<bool>)
    requires Legal(gap) && n.NDomain() == 0 <= n.NRange()
    ensures At(gap, n, path).NDomain() == 0 <= At(gap, n, path).NRange()
    decreases |path|
  {
    if path != [] {
      EmptyStaysEmpty(gap, n.Child(gap(n), path[0]), path[1..]);
    }
  }

  /** A split point belongs to one node of the whole tree. */
  lemma {:induction false} SplitsDistinct(gap: Draw, n: Node, p: seq<bool>, q: seq<bool>)
    requires At(gap, n, p).NRange() >= 2 && At(gap, n, q).NRange() >= 2
    ensures At(gap, n, p).Split() == At(gap, n, q).Split() <==> p == q
    decreases |p|
  {
    var dgap := gap(n);
    if p != [] { SplitInside(gap, n.Child(dgap, p[0]), p[1..]); }
    if q != [] { SplitInside(gap, n.Child(dgap, q[0]), q[1..]); }
    if p != [] && q != [] && p[0] == q[0] {
      SplitsDistinct(gap, n.Child(dgap, p[0]), p[1..], q[1..]);
      assert p == [p[0]] + p[1..] && q == [q[0]] + q[1..];
    }
  }

  /** The entry is the draw for some node of the tree, under that node's split point. */
  ghost predicate DrawnFor(gap: Draw, root: Node, key: int, dgap: int) {
    exists path :: var m := At(gap, root, path); m.NRange() >= 2 && key == m.Split() && dgap == gap(m)
  }

  ghost predicate Coherent(gap: Draw, root: Node, cache: map<int, int>) {
    forall key :: key in cache ==> DrawnFor(gap, root, key, cache[key])
  }

  /** Whatever calls filled the cache, an entry found for a node is that node's fresh draw. */
  lemma {:induction false} CachedIsFresh(gap: Draw, root: Node, cache: map<int, int>, path: seq<bool>)
    requires Coherent(gap, root, cache) && At(gap, root, path).NRange() >= 2
    ensures var m := At(gap, root, path); m.Split() in cache ==> cache[m.Split()] == gap(m)
  {
    var m := At(gap, root, path);
    if m.Split() in cache {
      assert DrawnFor(gap, root, m.Split(), cache[m.Split()]);
      var other :| var o := At(gap, root, other);
        o.NRange() >= 2 && m.Split() == o.Split() && cache[m.Split()] == gap(o);
      SplitsDistinct(gap, root, path, other);
    }
  }

  /** Adding a node's draw under its split point keeps the cache coherent. */
  lemma {:induction false} CacheGrows(gap: Draw, root: Node, cache: map<int, int>, path: seq<bool>)
    requires Coherent(gap, root, cache) && At(gap, root, path).NRange() >= 2
    ensures var m := At(gap, root, path); Coherent(gap, root, cache[m.Split() := gap(m)])
  {
    hide At;
    var m := At(gap, root, path);
    assert DrawnFor(gap, root, m.Split(), gap(m));
  }

  lemma {:induction false} TreeIs(k: Keyed, n: Node)
    ensures Tree(k)(n) == k.hgd(k.nodeCtr(n), n.NRange() / 2, n.NDomain(), n.NRange() - n.NDomain())
  {
  }

  // ---------- the objects ----------

  /** HGD draws from the generator's counter and moves it on. */
  method DomainGap(k: Keyed, ndomain: int, nrange: int, rgap: int, prng: Prng.BlockRng) returns (dgap: int)
    requires Hgd.ValidArgs(rgap, ndomain, nrange - ndomain) && prng.Valid() && prng.bc == k.aes
    modifies prng.ctr
    ensures dgap == k.hgd(old(prng.ctr[..]), rgap, ndomain, nrange - ndomain)
  {
    var c: Counter := prng.ctr[..];
    dgap := k.hgd(c, rgap, ndomain, nrange - ndomain);
    var ok := prng.SetCtr(k.after(c, rgap, ndomain, nrange - ndomain));
  }

  /** The tail of encrypt: a generator of its own, started from the plaintext. */
  method PickIn(k: Keyed, ptext: int, lo: int, hi: int) returns (v: int)
    requires lo <= hi
    ensures v == Place(k, ptext, lo, hi)
  {
    var aesrand := new Prng.BlockRng(k.aes);
    var ok := aesrand.SetCtr(k.textCtr(ptext));
    var nrange := hi - lo + 1;
    var offset := aesrand.RandZzMod(nrange);
    v := lo + offset;
  }

  class OPE {
    const k: Keyed
    const pbits: nat
    const cbits: nat
    var dgapCache: map<int, int>

    ghost predicate Valid()
      reads this
    {
      Legal(Tree(k)) && Coherent(Tree(k), Root(pbits, cbits), dgapCache)
    }

    constructor (k: Keyed, pbits: nat, cbits: nat)
      requires InUrn(k)
      ensures Valid() && this.k == k && this.pbits == pbits && this.cbits == cbits
    {
      this.k, this.pbits, this.cbits := k, pbits, cbits;
      dgapCache := map[];
      TreeIsLegal(k);
    }

    /** The memo table gives the draw that a fresh computation gives, and keeps its entries. */
    method CachedGap(n: Node, prng: Prng.BlockRng, ghost path: seq<bool>) returns (dgap: int)
      requires Valid() && prng.Valid() && prng.bc == k.aes && n == At(Tree(k), Root(pbits, cbits), path)
               && 2 <= n.NDomain() <= n.NRange()
      modifies this`dgapCache, prng.ctr
      ensures Valid()
      ensures dgap == Tree(k)(n)
      ensures n.Split() in dgapCache
      ensures forall key :: key in old(dgapCache) ==> key in dgapCache && dgapCache[key] == old(dgapCache)[key]
    {
      hide Legal, Coherent, At, Tree;
      var ok := prng.SetCtr(k.nodeCtr(n));
      var ndomain, nrange := n.NDomain(), n.NRange();
      var rgap := nrange / 2;
      if n.rLo + rgap in dgapCache {
        CachedIsFresh(Tree(k), Root(pbits, cbits), dgapCache, path);
        dgap := dgapCache[n.rLo + rgap];
      } else {
        dgap := DomainGap(k, ndomain, nrange, nrange / 2, prng);
        TreeIs(k, n);
        CacheGrows(Tree(k), Root(pbits, cbits), dgapCache, path);
        dgapCache := dgapCache[n.rLo + rgap := dgap];
      }
    }

    /** The recursion with its memo table: the result never depends on what is in the table. */
    method LazySample(n: Node, goLow: (int, int) -> bool, prng: Prng.BlockRng, ghost path: seq<bool>)
      returns (o: Outcome)
      requires Valid() && prng.Valid() && prng.bc == k.aes && n == At(Tree(k), Root(pbits, cbits), path)
      modifies this`dgapCache, prng.ctr
      ensures Valid()
      ensures o == Search(Tree(k), n, goLow)
      ensures forall key :: key in old(dgapCache) ==> key in dgapCache && dgapCache[key] == old(dgapCache)[key]
      decreases if n.Sound() then n.NRange() else 0
    {
      hide Legal, Coherent, Search, At, Tree;
      SearchEnds(Tree(k), n, goLow);
      var ndomain, nrange := n.NDomain(), n.NRange();
      if nrange < ndomain { return Thrown; }
      if ndomain == 1 { return Leaf(n.dLo, n.rLo, n.rHi); }
      if ndomain < 1 { return NoReturn; }

      var rgap := nrange / 2;
      var dgap := CachedGap(n, prng, path);
      var low := goLow(n.dLo + dgap, n.rLo + rgap);
      SearchStep(Tree(k), n, goLow, dgap, low);
      AtStep(Tree(k), Root(pbits, cbits), path, low);
      ChildShrinks(Tree(k), n, low);
      if low {
        o := LazySample(Node(n.dLo, n.dLo + dgap - 1, n.rLo, n.rLo + rgap - 1), goLow, prng, path + [low]);
      } else {
        o := LazySample(Node(n.dLo + dgap, n.dHi, n.rLo + rgap, n.rHi), goLow, prng, path + [low]);
      }
    }

    method SearchTree(goLow: (int, int) -> bool) returns (o: Outcome)
      requires Valid()
      modifies this`dgapCache
      ensures Valid() && o == Search(Tree(k), Root(pbits, cbits), goLow)
    {
      hide Legal, Coherent, Search, Tree;
      var r := new Prng.BlockRng(k.aes);
      o := LazySample(Node(0, Pow2(pbits), 0, Pow2(cbits)), goLow, r, []);
    }

    method Encrypt(ptext: int) returns (c: Result)
      requires Valid()
      modifies this`dgapCache
      ensures Valid() && c == EncryptSpec(k, pbits, cbits, ptext)
    {
      var dr := SearchTree(ByPlaintext(ptext));
      if dr.Thrown? { return Threw; }
      if dr.NoReturn? { return Diverged; }
      var v := PickIn(k, ptext, dr.rLo, dr.rHi);
      return Value(v);
    }

    method Decrypt(ctext: int) returns (p: Result)
      requires Valid()
      modifies this`dgapCache
      ensures Valid() && p == DecryptSpec(k, pbits, cbits, ctext)
    {
      var dr := SearchTree(ByCiphertext(ctext));
      if dr.Thrown? { return Threw; }
      if dr.NoReturn? { return Diverged; }
      return Value(dr.d);
    }
  }
}
