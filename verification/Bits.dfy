/** Bitwise operations on natural numbers, and numbers as strings of bits, highest bit first. */
module Bits {
  import opened Power

  type Byte = x: int | 0 <= x < 256
  type Bytes = seq<Byte>

  function BitXor(a: nat, b: nat): nat
    decreases a + b
  {
    if a == 0 then b else if b == 0 then a
    else 2 * BitXor(a / 2, b / 2) + (if a % 2 == b % 2 then 0 else 1)
  }

  function BitOr(a: nat, b: nat): nat
    decreases a + b
  {
    if a == 0 then b else if b == 0 then a
    else 2 * BitOr(a / 2, b / 2) + (if a % 2 == 0 && b % 2 == 0 then 0 else 1)
  }

  lemma {:induction false} XorStep(a: nat, b: nat)
    ensures BitXor(a, b) == 2 * BitXor(a / 2, b / 2) + (if a % 2 == b % 2 then 0 else 1)
  {
  }

  lemma {:induction false} XorCommutes(a: nat, b: nat)
    ensures BitXor(a, b) == BitXor(b, a)
    decreases a + b
  {
    if a != 0 && b != 0 { XorCommutes(a / 2, b / 2); }
  }

  lemma {:induction false} XorSelf(a: nat)
    ensures BitXor(a, a) == 0
  {
    if a != 0 { XorSelf(a / 2); }
  }

  lemma {:induction false} XorParts(a: nat, b: nat)
    ensures BitXor(a, b) / 2 == BitXor(a / 2, b / 2)
    ensures BitXor(a, b) % 2 == if a % 2 == b % 2 then 0 else 1
  {
    XorStep(a, b);
  }

  lemma {:induction false} SameHalves(a: nat, b: nat)
    requires a / 2 == b / 2 && a % 2 == b % 2
    ensures a == b
  {
  }

  lemma {:induction false} XorAssociates(a: nat, b: nat, c: nat)
    ensures BitXor(BitXor(a, b), c) == BitXor(a, BitXor(b, c))
    decreases a + b + c
  {
    if a != 0 && b != 0 && c != 0 {
      XorAssociatesStep(a, b, c);
    }
  }

  lemma {:induction false} XorAssociatesStep(a: nat, b: nat, c: nat)
    requires a != 0 && b != 0 && c != 0
    ensures BitXor(BitXor(a, b), c) == BitXor(a, BitXor(b, c))
    decreases a + b + c, 0
  {
    hide BitXor;
    XorAssociates(a / 2, b / 2, c / 2);
    XorParts(a, b);
    XorParts(b, c);
    XorParts(BitXor(a, b), c);
    XorParts(a, BitXor(b, c));
    SameHalves(BitXor(BitXor(a, b), c), BitXor(a, BitXor(b, c)));
  }

  lemma {:induction false} XorCancels(a: nat, b: nat)
    ensures BitXor(BitXor(a, b), b) == a
  {
    XorAssociates(a, b, b);
    XorSelf(b);
  }

  lemma {:induction false} XorFits(a: nat, b: nat, k: nat)
    requires a < Pow2(k) && b < Pow2(k)
    ensures BitXor(a, b) < Pow2(k)
    decreases k
  {
    if a != 0 && b != 0 { XorFits(a / 2, b / 2, k - 1); }
  }

  lemma {:induction false} OrFits(a: nat, b: nat, k: nat)
    requires a < Pow2(k) && b < Pow2(k)
    ensures BitOr(a, b) < Pow2(k)
    decreases k
  {
    if a != 0 && b != 0 { OrFits(a / 2, b / 2, k - 1); }
  }

  /** Where one operand's low bits are zero and the other fits in them, "or" adds. */
  lemma {:induction false} OrAdds(a: nat, b: nat, k: nat)
    requires b < Pow2(k)
    ensures BitOr(a * Pow2(k), b) == a * Pow2(k) + b
    decreases k
  {
    if k > 0 && a > 0 && b > 0 {
      OrAdds(a, b / 2, k - 1);
      Twice(a, Pow2(k - 1));
    }
  }

  lemma {:induction false} Pow2Of8()
    ensures Pow2(8) == 256
  {
    assert Pow2(4) == 16;
  }

  function XorByte(a: Byte, b: Byte): Byte {
    Pow2Of8();
    XorFits(a, b, 8);
    BitXor(a, b)
  }

  function OrByte(a: Byte, b: Byte): Byte {
    Pow2Of8();
    OrFits(a, b, 8);
    BitOr(a, b)
  }

  // ---------- strings of bits ----------

  function ToBits(x: nat, k: nat): (r: seq<bool>)
    ensures |r| == k
  {
    if k == 0 then [] else ToBits(x / 2, k - 1) + [x % 2 == 1]
  }

  function ToNat(bits: seq<bool>): nat {
    if bits == [] then 0
    else 2 * ToNat(bits[..|bits| - 1]) + (if bits[|bits| - 1] then 1 else 0)
  }

  lemma {:induction false} ToNatFits(bits: seq<bool>)
    ensures ToNat(bits) < Pow2(|bits|)
  {
    if bits != [] { ToNatFits(bits[..|bits| - 1]); }
  }

  lemma {:induction false} BitsOfNat(bits: seq<bool>)
    ensures ToBits(ToNat(bits), |bits|) == bits
  {
    if bits != [] { BitsOfNat(bits[..|bits| - 1]); }
  }

  lemma {:induction false} NatOfBits(x: nat, k: nat)
    requires x < Pow2(k)
    ensures ToNat(ToBits(x, k)) == x
  {
    if k > 0 {
      NatOfBits(x / 2, k - 1);
      assert ToBits(x, k)[..k - 1] == ToBits(x / 2, k - 1);
    }
  }

  lemma {:induction false} ToNatJoins(a: seq<bool>, b: seq<bool>)
    ensures ToNat(a + b) == ToNat(a) * Pow2(|b|) + ToNat(b)
    decreases |b|
  {
    if b == [] {
      assert a + b == a;
    } else {
      var b' := b[..|b| - 1];
      assert (a + b)[..|a + b| - 1] == a + b';
      ToNatJoins(a, b');
      Twice(ToNat(a), Pow2(|b'|));
    }
  }

  /** The highest and the lowest bits of a number. */
  lemma {:induction false} ToBitsSplits(x: nat, j: nat, k: nat)
    ensures ToBits(x, j + k) == ToBits(Shr(x, k), j) + ToBits(x, k)
    decreases k
  {
    hide ToBits, Shr;
    if k > 0 {
      ToBitsSplits(x / 2, j, k - 1);
      ToBitsLast(x, j + k);
      ToBitsLast(x, k);
      ShrFirst(x, k);
    } else {
      NoBits(x);
    }
  }

  lemma {:induction false} ToBitsLast(x: nat, k: nat)
    requires k > 0
    ensures ToBits(x, k) == ToBits(x / 2, k - 1) + [x % 2 == 1]
  {
  }

  lemma {:induction false} NoBits(x: nat)
    ensures ToBits(x, 0) == [] && Shr(x, 0) == x
  {
  }

  lemma {:induction false} ShrFirst(x: nat, k: nat)
    requires k > 0
    ensures Shr(x, k) == Shr(x / 2, k - 1)
  {
  }

  lemma {:induction false} Twice(x: nat, p: nat)
    ensures x * (2 * p) == 2 * (x * p)
  {
  }

  /** x & ((1 << k) - 1): the k lowest bits. */
  function Low(x: nat, k: nat): nat { if k == 0 then 0 else 2 * Low(x / 2, k - 1) + x % 2 }

  lemma {:induction false} LowFits(x: nat, k: nat)
    ensures Low(x, k) < Pow2(k)
  {
    if k > 0 { LowFits(x / 2, k - 1); }
  }

  /** Bits above the k lowest do not matter. */
  lemma {:induction false} ToBitsOfLow(x: nat, j: nat, k: nat)
    requires k <= j
    ensures ToBits(Low(x, j), k) == ToBits(x, k)
  {
    if k > 0 { ToBitsOfLow(x / 2, j - 1, k - 1); }
  }

  lemma {:induction false} ShrShr(x: nat, j: nat, k: nat)
    ensures Shr(Shr(x, j), k) == Shr(x, j + k)
    decreases j
  {
    if j > 0 { ShrShr(x / 2, j - 1, k); }
  }

  lemma {:induction false} ShrFits(x: nat, j: nat, k: nat)
    requires x < Pow2(j + k)
    ensures Shr(x, k) < Pow2(j)
    decreases k
  {
    if k > 0 { ShrFits(x / 2, j, k - 1); }
  }

  /** Shifting bits left appends zeros. */
  lemma {:induction false} ToBitsOfShifted(x: nat, j: nat, k: nat)
    ensures ToBits(x * Pow2(k), j + k) == ToBits(x, j) + ToBits(0, k)
    decreases k
  {
    if k > 0 {
      ToBitsOfShifted(x, j, k - 1);
      Twice(x, Pow2(k - 1));
    } else {
      assert x * Pow2(0) == x;
    }
  }

  /** Putting k more bits below x. */
  lemma {:induction false} ToBitsOfSum(x: nat, y: nat, j: nat, k: nat)
    requires y < Pow2(k)
    ensures ToBits(x * Pow2(k) + y, j + k) == ToBits(x, j) + ToBits(y, k)
    decreases k
  {
    if k > 0 {
      ToBitsOfSum(x, y / 2, j, k - 1);
      Twice(x, Pow2(k - 1));
    } else {
      assert x * Pow2(0) == x;
    }
  }

  // ---------- the bits of memory ----------

  function BitsOf(p: Bytes): (bits: seq<bool>)
    ensures |bits| == 8 * |p|
  {
    if p == [] then [] else BitsOf(p[..|p| - 1]) + ToBits(p[|p| - 1], 8)
  }

  lemma {:induction false} BitsOfNext(p: Bytes, k: nat)
    requires k < |p|
    ensures BitsOf(p[..k + 1]) == BitsOf(p[..k]) + ToBits(p[k], 8)
  {
    assert p[..k + 1][..k] == p[..k];
  }

  lemma {:induction false} BitsOfPrefix(p: Bytes, k: nat)
    requires k <= |p|
    ensures BitsOf(p)[..8 * k] == BitsOf(p[..k])
    decreases |p|
  {
    if k < |p| {
      BitsOfPrefix(p[..|p| - 1], k);
      assert p[..|p| - 1][..k] == p[..k];
    } else {
      assert p[..k] == p;
    }
  }

  lemma {:induction false} BitsOfByte(p: Bytes, k: nat)
    requires k < |p|
    ensures BitsOf(p)[8 * k..8 * k + 8] == ToBits(p[k], 8)
  {
    BitsOfPrefix(p, k + 1);
    BitsOfNext(p, k);
    assert BitsOf(p)[8 * k..8 * k + 8] == BitsOf(p)[..8 * (k + 1)][8 * k..];
  }

  lemma {:induction false} BytesFromBits(p: Bytes, q: Bytes)
    requires BitsOf(p) == BitsOf(q)
    ensures p == q
    decreases |p|
  {
    assert |p| == |q|;
    if p != [] {
      var k := |p| - 1;
      var a, b := BitsOf(p[..k]), BitsOf(q[..k]);
      assert BitsOf(p)[..8 * k] == a && BitsOf(q)[..8 * k] == b;
      assert BitsOf(p)[8 * k..] == ToBits(p[k], 8) && BitsOf(q)[8 * k..] == ToBits(q[k], 8);
      BytesFromBits(p[..k], q[..k]);
      Pow2Of8();
      NatOfBits(p[k], 8);
      NatOfBits(q[k], 8);
      assert p == p[..k] + [p[k]] && q == q[..k] + [q[k]];
    }
  }

  /** Whole bytes from bits. */
  function ToBytes(bits: seq<bool>): (p: Bytes)
    requires |bits| % 8 == 0
    ensures 8 * |p| == |bits|
  {
    if bits == [] then []
    else
      Pow2Of8();
      ToNatFits(bits[|bits| - 8..]);
      ToBytes(bits[..|bits| - 8]) + [ToNat(bits[|bits| - 8..])]
  }

  lemma {:induction false} BitsOfToBytes(bits: seq<bool>)
    requires |bits| % 8 == 0
    ensures BitsOf(ToBytes(bits)) == bits
  {
    if bits != [] {
      BitsOfToBytes(bits[..|bits| - 8]);
      BitsOfNat(bits[|bits| - 8..]);
      var p := ToBytes(bits);
      assert p[..|p| - 1] == ToBytes(bits[..|bits| - 8]);
      assert bits == bits[..|bits| - 8] + bits[|bits| - 8..];
    }
  }

  // ---------- numbers in memory ----------

  /** A number in memory, lowest byte first, as NTL and the machines the libraries are written for have it. */
  function LittleEndian(x: nat, k: nat): (p: Bytes)
    ensures |p| == k
  {
    if k == 0 then [] else [x % 256] + LittleEndian(x / 256, k - 1)
  }

  function FromLittleEndian(p: Bytes): nat {
    if p == [] then 0 else p[0] + 256 * FromLittleEndian(p[1..])
  }

  lemma {:induction false} WordFits(p: Bytes)
    ensures FromLittleEndian(p) < Pow2(8 * |p|)
    decreases |p|
  {
    if p != [] {
      WordFits(p[1..]);
      Pow2Of8();
      Pow2Add(8, 8 * (|p| - 1));
    }
  }

  lemma {:induction false} WordOfNumber(x: nat, k: nat)
    requires x < Pow2(8 * k)
    ensures FromLittleEndian(LittleEndian(x, k)) == x
  {
    if k > 0 {
      Pow2Of8();
      Pow2Add(8, 8 * (k - 1));
      WordOfNumber(x / 256, k - 1);
    }
  }

  lemma {:induction false} LowestByte(b: Byte, rest: nat)
    ensures (b + 256 * rest) % 256 == b && (b + 256 * rest) / 256 == rest
  {
  }

  lemma {:induction false} NumberOfWord(p: Bytes)
    ensures LittleEndian(FromLittleEndian(p), |p|) == p
    decreases |p|
  {
    if p != [] {
      NumberOfWord(p[1..]);
      LowestByte(p[0], FromLittleEndian(p[1..]));
      assert FromLittleEndian(p) == p[0] + 256 * FromLittleEndian(p[1..]);
      hide FromLittleEndian;
      assert LittleEndian(FromLittleEndian(p), |p|) == [p[0]] + LittleEndian(FromLittleEndian(p[1..]), |p| - 1);
    }
  }

  /** The lowest bytes of a number that fits in them. */
  lemma {:induction false} LittleEndianStarts(x: nat, n: nat, k: nat)
    requires n <= k
    ensures LittleEndian(x, k)[..n] == LittleEndian(x, n)
  {
    if n > 0 { LittleEndianStarts(x / 256, n - 1, k - 1); }
  }
}
