/** The 32-bit integer square root by Newton's method (click-dpdk/lib/integers.cc). */
module IntSqrt {
  import opened Power

  const WORD: nat := 0x1_0000_0000

  /** The result of a 32-bit operation. */
  function U32(x: int): nat { x % WORD }

  /** r is the square root of x rounded down. */
  predicate IsRoot(x: nat, r: nat) { r * r <= x < (r + 1) * (r + 1) }

  // ---------- the highest bit ----------

  /** The table of ffs_msb. */
  function HighestOfNibble(x: nat): nat
    requires x < 16
  {
    if x >= 8 then 1 else if x >= 4 then 2 else if x >= 2 then 3 else if x == 1 then 4 else 0
  }

  method Top16(x: nat) returns (y: nat, add: nat)
    requires 0 < x < WORD
    ensures 1 <= y < 0x1_0000 && (add == 0 || add == 16) && Scaled(x, y, 16 - add)
  {
    Powers();
    if x / 0x1_0000 == 0 { y, add := x, 16; } else { y, add := x / 0x1_0000, 0; }
  }

  method Top8(x: nat) returns (y: nat, add: nat)
    requires 0 < x < 0x1_0000
    ensures 1 <= y < 0x100 && (add == 0 || add == 8) && Scaled(x, y, 8 - add)
  {
    Powers();
    if x / 0x100 % 0x100 == 0 { y, add := x, 8; } else { y, add := x / 0x100, 0; }
  }

  method Top4(x: nat) returns (y: nat, add: nat)
    requires 0 < x < 0x100
    ensures 1 <= y < 0x10 && (add == 0 || add == 4) && Scaled(x, y, 4 - add)
  {
    Powers();
    if x / 0x10 % 0x10 == 0 { y, add := x, 4; } else { y, add := x / 0x10, 0; }
  }

  /** ffs_msb: the position of the highest bit that is set, counted from 1 at the top; 0 if none is. */
  method FfsMsb(x: nat) returns (r: nat)
    requires x < WORD
    ensures x == 0 ==> r == 0
    ensures x != 0 ==> 1 <= r <= 32 && Pow2(32 - r) <= x < Pow2(33 - r)
  {
    if x == 0 { return 0; }
    hide Scaled, Pow2;
    var x16, a16 := Top16(x);
    var x8, a8 := Top8(x16);
    var x4, a4 := Top4(x8);
    var h := Nibble(x4);
    r := a16 + a8 + a4 + h;
    ScaledPowers(x8, x4, 4 - a4, 4 - h);
    ScaledPowers(x16, x8, 8 - a8, 8 - a4 - h);
    ScaledPowers(x, x16, 16 - a16, 16 - a8 - a4 - h);
  }

  method Nibble(x: nat) returns (h: nat)
    requires 1 <= x < 0x10
    ensures 1 <= h <= 4 && Pow2(4 - h) <= x < Pow2(5 - h)
  {
    hide Pow2;
    Powers();
    h := HighestOfNibble(x % 0x10);
  }

  lemma {:induction false} Powers()
    ensures Pow2(0) == 1 && Pow2(1) == 2 && Pow2(2) == 4 && Pow2(3) == 8 && Pow2(4) == 16
    ensures Pow2(8) == 0x100 && Pow2(16) == 0x1_0000 && Pow2(32) == WORD
  {
    assert Pow2(4) == 16;
    Pow2Add(4, 4);
    Pow2Add(8, 8);
    Pow2Add(16, 16);
  }

  /** y is x without its k lowest bits. */
  predicate Scaled(x: nat, y: nat, k: nat) { y * Pow2(k) <= x < (y + 1) * Pow2(k) }

  lemma {:induction false} ScaledPowers(x: nat, y: nat, k: nat, j: nat)
    requires Scaled(x, y, k) && Pow2(j) <= y < Pow2(j + 1)
    ensures Pow2(j + k) <= x < Pow2(j + k + 1)
  {
    Pow2Add(j, k);
    Pow2Add(j + 1, k);
    hide Pow2;
    Larger(Pow2(j), y, Pow2(k));
    Larger(y + 1, Pow2(j + 1), Pow2(k));
  }

  // ---------- Newton's method ----------

  /** y is not below the square root of x. */
  predicate NotBelow(x: nat, y: nat) { x < (y + 1) * (y + 1) }

  function Newton(x: nat, y: nat): nat
    requires y > 0
  {
    (y + x / y) / 2
  }

  /** A step never falls below the root. */
  lemma {:induction false} StepStaysAbove(x: nat, y: nat)
    requires y > 0
    ensures NotBelow(x, Newton(x, y))
  {
    var q := x / y;
    var n := (y + q) / 2;
    QuotientBelow(x, y);
    FourTimes(y, q + 1);
    Squares(y + q + 1, 2 * (n + 1));
    assert (2 * (n + 1)) * (2 * (n + 1)) == 4 * ((n + 1) * (n + 1));
  }

  lemma {:induction false} QuotientBelow(x: nat, y: nat)
    requires y > 0
    ensures y * (x / y) <= x < y * (x / y + 1)
  {
  }

  lemma {:induction false} FourTimes(a: nat, b: nat)
    ensures 4 * (a * b) <= (a + b) * (a + b)
  {
    var d := a - b;
    assert d * d >= 0;
    assert (a + b) * (a + b) == 4 * (a * b) + d * d;
  }

  lemma {:induction false} Squares(a: nat, b: nat)
    requires a <= b
    ensures a * a <= b * b
  {
    Larger(a, b, a);
    Larger(a, b, b);
  }

  lemma {:induction false} ThreeAbove(z: nat, q: nat)
    requires q >= z + 3 && z > 0
    ensures z * q >= (z + 1) * (z + 1)
  {
    Larger(z + 3, q, z);
    assert q * z == z * q;
    assert (z + 1) * (z + 1) == z * z + 2 * z + 1 && (z + 3) * z == z * z + 3 * z;
  }

  /** The quotient by a number that is not below the root is at most two larger. */
  lemma {:induction false} QuotientNear(x: nat, z: nat, q: nat)
    requires z > 0 && z * q <= x < (z + 1) * (z + 1)
    ensures q <= z + 2
  {
    forall n: nat | n >= z + 3
      ensures z * n >= (z + 1) * (z + 1)
    {
      ThreeAbove(z, n);
    }
  }

  /** When a step does not fall, it started at the root and ends there or one above; and since
      the largest number is answered before, it ends where a square fits 32 bits. */
  lemma {:induction false} StepStops(x: nat, z: nat)
    requires z > 0 && NotBelow(x, z) && z <= Newton(x, z) && x < WORD - 1
    ensures IsRoot(x, z) && Newton(x, z) <= z + 1 && Newton(x, z) <= 0xFFFF
  {
    var q := x / z;
    QuotientBelow(x, z);
    QuotientNear(x, z, q);
    Larger(z, q, z);
    assert z * q == q * z;
    if z > 0xFFFF { Squares(0x1_0000, z); }
  }

  /** No step overflows 32 bits. */
  lemma {:induction false} SumFits(x: nat, y: nat, q: nat)
    requires 0 < y <= 0x8000_0000 && x < WORD && y * q <= x && NotBelow(x, y)
    ensures y + q < WORD
  {
    if y >= 0x1_0000 {
      Larger(0x1_0000, y, q);
    } else {
      QuotientNear(x, y, q);
    }
  }

  /** One step. */
  method Step(x: nat, y: nat) returns (n: nat)
    requires 0 < y <= 0x8000_0000 && x < WORD && NotBelow(x, y)
    ensures n == Newton(x, y) && NotBelow(x, n)
  {
    hide NotBelow;
    QuotientBelow(x, y);
    SumFits(x, y, x / y);
    StepStaysAbove(x, y);
    n := U32(y + x / y) / 2;
  }

  /** The first estimate, from the highest bit, or where ffs_msb is not built in from x / 2. */
  method FirstEstimate(x: nat, builtinMsb: bool) returns (y: nat)
    requires 0 < x < WORD - 1
    ensures 0 < y <= 0x8000_0000 && NotBelow(x, y)
  {
    if !builtinMsb {
      y := x / 2 + 1;
      assert (y + 1) * (y + 1) == y * y + 2 * y + 1;
      assert y * y >= 0;
    } else {
      var r := FfsMsb(x);
      EstimateByBit(x, r);
      y := Pow2((32 - r) / 2 + 1);
    }
  }

  lemma {:induction false} EstimateByBit(x: nat, r: nat)
    requires 1 <= r <= 32 && x < Pow2(33 - r)
    ensures var y := Pow2((32 - r) / 2 + 1); 0 < y <= 0x8000_0000 && NotBelow(x, y)
  {
    hide Pow2, NotBelow;
    var k := (32 - r) / 2 + 1;
    PowerOf17();
    Pow2Monotone(k, 17);
    Pow2Add(k, k);
    Pow2Monotone(33 - r, k + k);
    SquareNotBelow(x, Pow2(k));
  }

  lemma {:induction false} PowerOf17()
    ensures Pow2(17) == 0x2_0000
  {
    Powers();
    assert Pow2(17) == 2 * Pow2(16);
  }

  lemma {:induction false} SquareNotBelow(x: nat, y: nat)
    requires x < y * y
    ensures NotBelow(x, y)
  {
    assert (y + 1) * (y + 1) == y * y + 2 * y + 1;
  }

  /** int_sqrt: for every 32-bit number the square root rounded down. */
  method Sqrt(x: nat, builtinMsb: bool) returns (y: nat)
    requires x < WORD
    ensures IsRoot(x, y)
  {
    hide IsRoot;
    if U32(x + 1) <= 1 {
      SmallOrLargest(x);
      y := if x != 0 then 0xFFFF else 0;
    } else {
      y := SqrtByNewton(x, builtinMsb);
    }
  }

  method SqrtByNewton(x: nat, builtinMsb: bool) returns (y: nat)
    requires 0 < x < WORD - 1
    ensures IsRoot(x, y)
  {
    hide IsRoot, Newton, NotBelow, U32;
    y := FirstEstimate(x, builtinMsb);
    var z := y;
    y := Step(x, y);
    while y < z
      invariant 0 < z <= 0x8000_0000 && NotBelow(x, z) && NotBelow(x, y)
      invariant y == Newton(x, z)
      decreases z
    {
      Positive(x, y);
      z := y;
      y := Step(x, y);
    }
    StepStops(x, z);
    y := Correct(x, y, z);
  }

  lemma {:induction false} Positive(x: nat, y: nat)
    requires x > 0 && NotBelow(x, y)
    ensures y > 0
  {
  }

  lemma {:induction false} SmallOrLargest(x: nat)
    requires x < WORD && U32(x + 1) <= 1
    ensures IsRoot(x, if x != 0 then 0xFFFF else 0)
  {
  }

  /** The correction at the end. */
  method Correct(x: nat, y0: nat, ghost z: nat) returns (y: nat)
    requires IsRoot(x, z) && z <= y0 <= z + 1 && y0 <= 0xFFFF
    ensures y == z
  {
    y := y0;
    SquareSmall(y);
    while U32(y * y) > x
      invariant z <= y <= z + 1 && y <= 0xFFFF && U32(y * y) == y * y
      decreases y
    {
      y := y - 1;
      SquareSmall(y);
    }
  }

  lemma {:induction false} SquareSmall(y: nat)
    requires y <= 0xFFFF
    ensures U32(y * y) == y * y
  {
    Squares(y, 0xFFFF);
  }

  /** There is one such root. */
  lemma {:induction false} RootIsUnique(x: nat, r: nat, s: nat)
    requires IsRoot(x, r) && IsRoot(x, s)
    ensures r == s
  {
    if r < s { Squares(r + 1, s); }
    if s < r { Squares(s + 1, r); }
  }
}
