/** Hypergeometric sampling (crypto/hgd.cc): parameter normalisation, one pass of the
    inverse-transformation loop, and the symmetry mapping of the variate back to the
    caller's parameters. */
module Hgd {

  datatype Option<+T> = None | Some(value: T)

  /** The parameters the sampler works on after normalisation, with the range of its variate. */
  datatype Params = Params(n1: nat, n2: nat, k: nat, minJX: nat, maxJX: nat)

  /** The parameter check at the top of HGD. */
  predicate ValidArgs(kk: int, nn1: int, nn2: int) {
    0 <= nn1 && 0 <= nn2 && 0 <= kk <= nn1 + nn2
  }

  /** HGD's set-up: the smaller colour becomes n1 and the smaller half of the urn is drawn. */
  function Normalise(kk: int, nn1: int, nn2: int): (r: Params)
    requires ValidArgs(kk, nn1, nn2)
    ensures r.n1 <= r.n2 && 2 * r.k <= r.n1 + r.n2 && r.minJX <= r.maxJX && Bounded(r)
  {
    var n1 := if nn1 >= nn2 then nn2 else nn1;
    var n2 := if nn1 >= nn2 then nn1 else nn2;
    var k := if kk + kk >= n1 + n2 then n1 + n2 - kk else kk;
    Params(n1, n2, k, if k - n2 < 0 then 0 else k - n2, if n1 < k then n1 else k)
  }

  /** The last step of HGD: undo the normalisation, then truncate the real variate. */
  function Variate(kk: int, nn1: int, nn2: int, ix: real): int {
    var jx :=
      if kk + kk >= nn1 + nn2 then
        if nn1 > nn2 then (kk - nn2) as real + ix else nn1 as real - ix
      else
        if nn1 > nn2 then kk as real - ix else ix;
    jx.Floor
  }

  /** A variate in the sampler's range comes back as a count that the urn allows. */
  lemma {:induction false} VariateInUrn(kk: int, nn1: int, nn2: int, ix: real)
    requires ValidArgs(kk, nn1, nn2)
    requires var p := Normalise(kk, nn1, nn2); p.minJX as real <= ix <= p.maxJX as real
    ensures 0 <= Variate(kk, nn1, nn2, ix) <= nn1
    ensures kk - nn2 <= Variate(kk, nn1, nn2, ix) <= kk
  {
    var p := Normalise(kk, nn1, nn2);
    assert p.minJX == (if p.k < p.n2 then 0 else p.k - p.n2);
    assert p.maxJX == (if p.n1 < p.k then p.n1 else p.k);
  }

  // ---------- the law that the sampler draws from ----------

  /** Number of ways to choose k out of n. */
  function Choose(n: nat, k: int): nat {
    if k < 0 || k > n then 0
    else if n == 0 then 1
    else Choose(n - 1, k - 1) + Choose(n - 1, k)
  }

  lemma {:induction false} ChooseSymmetric(n: nat, k: int)
    ensures Choose(n, k) == Choose(n, n - k)
  {
    if 0 <= k <= n && n > 0 {
      ChooseSymmetric(n - 1, k - 1);
      ChooseSymmetric(n - 1, k);
    }
  }

  lemma {:induction false} ChoosePositive(n: nat, k: int)
    requires 0 <= k <= n
    ensures Choose(n, k) > 0
  {
    if n > 0 {
      if k == 0 { ChoosePositive(n - 1, k); } else { ChoosePositive(n - 1, k - 1); }
    }
  }

  /** The step from one binomial coefficient to the next in its row. */
  lemma {:induction false} ChooseNext(n: nat, k: nat)
    requires k < n
    ensures Choose(n, k + 1) * (k + 1) == Choose(n, k) * (n - k)
  {
    var a, b, c := Choose(n - 1, k - 1), Choose(n - 1, k), Choose(n - 1, k + 1);
    assert Choose(n, k + 1) == b + c;
    assert Choose(n, k) == a + b;
    if k + 1 < n {
      ChooseNext(n - 1, k);
    }
    if k > 0 {
      ChooseNext(n - 1, k - 1);
    }
    PascalStep(a, b, c, n, k);
  }

  lemma {:induction false} PascalStep(a: nat, b: nat, c: nat, n: nat, k: nat)
    requires k < n
    requires if k + 1 < n then c * (k + 1) == b * (n - 1 - k) else c == 0
    requires if k > 0 then b * k == a * (n - k) else a == 0
    ensures (b + c) * (k + 1) == (a + b) * (n - k)
  {
    assert c * (k + 1) == b * (n - 1 - k);
    assert b * k == a * (n - k);
    assert (b + c) * (k + 1) == b * k + b + c * (k + 1);
    assert (a + b) * (n - k) == a * (n - k) + b * (n - 1 - k) + b;
  }

  /** Number of ways a draw of k balls from n1 white and n2 black ones holds x white ones. */
  function Ways(k: int, n1: nat, n2: nat, x: int): nat {
    Choose(n1, x) * Choose(n2, k - x)
  }

  lemma {:induction false} VariateOfCount(kk: int, nn1: int, nn2: int, ix: nat)
    ensures Variate(kk, nn1, nn2, ix as real)
         == if kk + kk >= nn1 + nn2 then (if nn1 > nn2 then kk - nn2 + ix else nn1 - ix)
            else (if nn1 > nn2 then kk - ix else ix)
  {
    assert (kk - nn2) as real + ix as real == (kk - nn2 + ix) as real;
    assert nn1 as real - ix as real == (nn1 - ix) as real;
    assert kk as real - ix as real == (kk - ix) as real;
  }

  /** The four-way reduction keeps the law: a variate and the count it is mapped to
      are reached in equally many ways. */
  lemma {:induction false} VariateKeepsLaw(kk: int, nn1: int, nn2: int, ix: nat)
    requires ValidArgs(kk, nn1, nn2)
    ensures var p := Normalise(kk, nn1, nn2);
            Ways(p.k, p.n1, p.n2, ix) == Ways(kk, nn1, nn2, Variate(kk, nn1, nn2, ix as real))
  {
    VariateOfCount(kk, nn1, nn2, ix);
    if kk + kk >= nn1 + nn2 {
      UpperHalfKeepsLaw(kk, nn1, nn2, ix);
    } else if nn1 > nn2 {
      var p := Normalise(kk, nn1, nn2);
      assert p.k - (kk - ix) == ix;
    }
  }

  lemma {:induction false} UpperHalfKeepsLaw(kk: int, nn1: int, nn2: int, ix: nat)
    requires ValidArgs(kk, nn1, nn2) && kk + kk >= nn1 + nn2
    ensures var p := Normalise(kk, nn1, nn2);
            Ways(p.k, p.n1, p.n2, ix) == Ways(kk, nn1, nn2, if nn1 > nn2 then kk - nn2 + ix else nn1 - ix)
  {
    var k := nn1 + nn2 - kk;
    hide Choose;
    if nn1 > nn2 {
      WaysMirrored(kk, nn1, nn2, kk - nn2 + ix, k - ix, ix);
    } else {
      WaysMirrored(kk, nn1, nn2, nn1 - ix, ix, k - ix);
    }
  }

  lemma {:induction false} WaysMirrored(kk: int, nn1: nat, nn2: nat, x: int, a: int, b: int)
    requires a == nn1 - x && b == nn2 - (kk - x)
    ensures Ways(kk, nn1, nn2, x) == Choose(nn1, a) * Choose(nn2, b)
  {
    ChooseSymmetric(nn1, x);
    ChooseSymmetric(nn2, kk - x);
  }

  // ---------- the inverse-transformation loop ----------

  /** Probability mass of variate i, scaled so that the least variate has mass w. */
  ghost function Mass(p: Params, w: real, i: int): real {
    Share(w, Ways(p.k, p.n1, p.n2, i), Ways(p.k, p.n1, p.n2, p.minJX))
  }

  ghost function Share(w: real, x: int, base: int): real {
    if base == 0 then 0.0 else w * x as real / base as real
  }

  /** Total mass of the variates from the least one up to and including i. */
  ghost function Cumulative(p: Params, w: real, i: int): real
    decreases i - p.minJX
  {
    if i < p.minJX then 0.0 else Cumulative(p, w, i - 1) + Mass(p, w, i)
  }

  /** The bounds that Normalise sets. */
  ghost predicate Bounded(p: Params) {
    && p.k <= p.n1 + p.n2
    && p.minJX == (if p.k - p.n2 < 0 then 0 else p.k - p.n2)
    && p.maxJX == (if p.n1 < p.k then p.n1 else p.k)
  }

  lemma {:induction false} WaysNext(p: Params, i: nat)
    requires Bounded(p) && p.minJX <= i <= p.maxJX
    ensures Ways(p.k, p.n1, p.n2, i + 1) * ((i + 1) * (p.n2 - p.k + i + 1))
         == Ways(p.k, p.n1, p.n2, i) * ((p.n1 - i) * (p.k - i))
  {
    var a, b := Choose(p.n1, i), Choose(p.n2, p.k - i);
    var a', b' := Choose(p.n1, i + 1), Choose(p.n2, p.k - i - 1);
    var u, v := i + 1, p.n2 - p.k + i + 1;
    if i < p.n1 { ChooseNext(p.n1, i); }
    assert a' * u == a * (p.n1 - i);
    if i < p.k { ChooseNext(p.n2, p.k - i - 1); }
    assert b' * v == b * (p.k - i);
    Regroup(a', b', u, v, a, b, p.n1 - i, p.k - i);
  }

  lemma {:induction false} Regroup(a': int, b': int, u: int, v: int, a: int, b: int, c: int, d: int)
    requires a' * u == a * c && b' * v == b * d
    ensures (a' * b') * (u * v) == (a * b) * (c * d)
  {
    assert (a' * b') * (u * v) == (a' * u) * (b' * v);
    assert (a * b) * (c * d) == (a * c) * (b * d);
  }

  lemma {:induction false} LeastIsPossible(p: Params)
    requires Bounded(p)
    ensures Ways(p.k, p.n1, p.n2, p.minJX) > 0
  {
    ChoosePositive(p.n1, p.minJX);
    ChoosePositive(p.n2, p.k - p.minJX);
    assert forall a: nat, b: nat :: a > 0 && b > 0 ==> a * b > 0;
  }

  /** The loop's update of P. */
  ghost function Update(mass: real, c: int, d: int, u: int, v: int): real
    requires u > 0 && v > 0
  {
    mass * c as real * d as real / u as real / v as real
  }

  /** The loop's update of P is the step from one mass to the next. */
  lemma {:induction false} MassNext(p: Params, w: real, i: nat)
    requires Bounded(p) && p.minJX <= i <= p.maxJX
    ensures Update(Mass(p, w, i), p.n1 - i, p.k - i, i + 1, p.n2 - p.k + i + 1) == Mass(p, w, i + 1)
  {
    WaysNext(p, i);
    LeastIsPossible(p);
    ShareNext(w, Ways(p.k, p.n1, p.n2, p.minJX), Ways(p.k, p.n1, p.n2, i), Ways(p.k, p.n1, p.n2, i + 1),
              p.n1 - i, p.k - i, i + 1, p.n2 - p.k + i + 1);
  }

  lemma {:induction false} ShareNext(w: real, base: int, x: int, y: int, c: int, d: int, u: int, v: int)
    requires base > 0 && u > 0 && v > 0
    requires y * (u * v) == x * (c * d)
    ensures Update(Share(w, x, base), c, d, u, v) == Share(w, y, base)
  {
    CastProduct(y, u, v);
    CastProduct(x, c, d);
    Quotient(w, x as real, y as real, base as real, c as real, d as real, u as real, v as real);
  }

  lemma {:induction false} MassInSteps(p: Params, w: real, i: nat, product: real, quotient: real)
    requires Bounded(p) && p.minJX <= i <= p.maxJX
    requires product == Mass(p, w, i) * (p.n1 - i) as real * (p.k - i) as real
    requires quotient == product / (i + 1) as real / (p.n2 - p.k + i + 1) as real
    ensures quotient == Mass(p, w, i + 1)
  {
    MassNext(p, w, i);
    assert quotient == Update(Mass(p, w, i), p.n1 - i, p.k - i, i + 1, p.n2 - p.k + i + 1);
  }

  lemma {:induction false} MassOfLeast(p: Params, w: real)
    requires Bounded(p)
    ensures Mass(p, w, p.minJX) == w
  {
    LeastIsPossible(p);
    ShareOfBase(w, Ways(p.k, p.n1, p.n2, p.minJX));
  }

  lemma {:induction false} CastProduct(x: int, a: int, b: int)
    ensures (x * (a * b)) as real == x as real * (a as real * b as real)
  {
    assert (a * b) as real == a as real * b as real;
  }

  lemma {:induction false} Quotient(w: real, x: real, y: real, base: real, c: real, d: real, u: real, v: real)
    requires base > 0.0 && u > 0.0 && v > 0.0
    requires y * (u * v) == x * (c * d)
    ensures w * x / base * c * d / u / v == w * y / base
  {
    var lhs := w * x / base * c * d / u / v;
    var m := w * x / base;
    assert m * base == w * x;
    assert lhs * v == m * c * d / u;
    assert lhs * v * u == m * c * d;
    calc {
      lhs * base * (u * v);
      (lhs * v * u) * base;
      (m * c * d) * base;
      (m * base) * (c * d);
      (w * x) * (c * d);
      w * (x * (c * d));
      w * (y * (u * v));
      (w * y) * (u * v);
    }
    var t := u * v;
    assert t > 0.0;
    assert (lhs * base) * t == (w * y) * t;
    CancelReal(lhs * base, w * y, t);
  }

  lemma {:induction false} CancelReal(a: real, b: real, t: real)
    requires t > 0.0 && a * t == b * t
    ensures a == b
  {
    assert a == a * t / t;
    assert b == b * t / t;
  }

  lemma {:induction false} ShareOfBase(w: real, base: int)
    requires base > 0
    ensures Share(w, base, base) == w
  {
    var b := base as real;
    assert w * b / b == w;
  }

  /** The arithmetic on P in the loop at label20, IX being raised between its two halves. */
  method NextMass(p: Params, ghost w: real, ix: nat, mass: real) returns (next: real)
    requires Bounded(p) && p.minJX <= ix <= p.maxJX
    requires mass == Mass(p, w, ix)
    ensures next == Mass(p, w, ix + 1)
  {
    var product := mass * (p.n1 - ix) as real * (p.k - ix) as real;
    var raised := ix + 1;
    next := product / raised as real / (p.n2 - p.k + raised) as real;
    MassInSteps(p, w, ix, product, next);
  }

  /** One pass from label10: a uniform number either selects the variate whose cell of the
      scaled cumulative law it falls in, or lies above all of them and is drawn again. */
  method InversePass(p: Params, w: real, uniform: real) returns (r: Option<nat>)
    requires Bounded(p)
    ensures r.None? ==> forall j :: p.minJX <= j <= p.maxJX ==> uniform > Cumulative(p, w, j)
    ensures r.Some? ==> p.minJX <= r.value <= p.maxJX && uniform <= Cumulative(p, w, r.value)
    ensures r.Some? ==> forall j :: p.minJX <= j < r.value ==> uniform > Cumulative(p, w, j)
  {
    MassOfLeast(p, w);
    var mass, ix, u := w, p.minJX, uniform;
    while u > mass
      invariant p.minJX <= ix <= p.maxJX
      invariant mass == Mass(p, w, ix)
      invariant u == uniform - Cumulative(p, w, ix - 1)
      invariant forall j :: p.minJX <= j < ix ==> uniform > Cumulative(p, w, j)
      decreases p.maxJX - ix
    {
      u := u - mass;
      mass := NextMass(p, w, ix, mass);
      ix := ix + 1;
      if ix > p.maxJX {
        return None;
      }
    }
    return Some(ix);
  }
}
