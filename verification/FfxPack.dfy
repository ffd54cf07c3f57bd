/** Two bit fields in memory and in 64-bit words (crypto/ffx.cc). Bits are taken from the most
    significant end of each byte. */
module FfxPack {
  import opened Power
  import opened Bits

  const WORD: nat := 0x1_0000_0000_0000_0000

  /** x << k in 64 bits. */
  function Shl64(x: nat, k: nat): nat { x * Pow2(k) % WORD }

  lemma {:induction false} WordIs()
    ensures Pow2(64) == WORD
  {
    assert Pow2(8) == 256;
    Pow2Add(8, 8);
    assert Pow2(16) == 0x1_0000;
    Pow2Add(16, 16);
    assert Pow2(32) == 0x1_0000_0000;
    Pow2Add(32, 32);
  }

  lemma {:induction false} ShlFits(x: nat, j: nat, k: nat)
    requires x < Pow2(j) && j + k <= 64
    ensures Shl64(x, k) == x * Pow2(k)
  {
    WordIs();
    Pow2Add(j, k);
    Pow2Monotone(j + k, 64);
    assert x * Pow2(k) < Pow2(j) * Pow2(k) by { Larger(x, Pow2(j), Pow2(k)); }
  }

  /** x << k | y puts the k bits of y after the bits of x. */
  lemma {:induction false} Appends(bits: seq<bool>, y: nat, k: nat)
    requires |bits| + k <= 64 && y < Pow2(k)
    ensures BitOr(Shl64(ToNat(bits), k), y) == ToNat(bits + ToBits(y, k))
  {
    ToNatFits(bits);
    ShlFits(ToNat(bits), |bits|, k);
    OrAdds(ToNat(bits), y, k);
    ToNatJoins(bits, ToBits(y, k));
    NatOfBits(y, k);
  }

  /** The r high bits of a byte and the rest. */
  lemma {:induction false} CutByte(x: Byte, r: nat)
    requires r <= 8
    ensures Shr(x, 8 - r) < Pow2(r) && ToBits(Shr(x, 8 - r), r) == ToBits(x, 8)[..r]
    ensures Low(x, 8 - r) == ToNat(ToBits(x, 8)[r..])
  {
    Pow2Of8();
    ShrFits(x, r, 8 - r);
    ToBitsSplits(x, r, 8 - r);
    ToBitsOfLow(x, 8 - r, 8 - r);
    LowFits(x, 8 - r);
    NatOfBits(Low(x, 8 - r), 8 - r);
    assert ToBits(x, 8)[r..] == ToBits(x, 8 - r);
  }

  /** Shifting by one more bit drops the last bit. */
  lemma {:induction false} ShrDropsLast(bits: seq<bool>, k: nat)
    requires bits != []
    ensures Shr(ToNat(bits), k + 1) == Shr(ToNat(bits[..|bits| - 1]), k)
  {
    hide ToNat;
    NatHalves(bits);
  }

  lemma {:induction false} NatHalves(bits: seq<bool>)
    requires bits != []
    ensures ToNat(bits) / 2 == ToNat(bits[..|bits| - 1])
  {
  }

  lemma {:induction false} ShrOfNat(x: seq<bool>, y: seq<bool>)
    ensures Shr(ToNat(x + y), |y|) == ToNat(x)
    decreases |y|
  {
    hide ToNat;
    if y == [] {
      assert x + y == x;
    } else {
      ShrOfNat(x, y[..|y| - 1]);
      assert (x + y)[..|x + y| - 1] == x + y[..|y| - 1];
      hide Shr;
      ShrDropsLast(x + y, |y| - 1);
    }
  }

  // ---------- unpacking ----------

  function FieldA(p: Bytes, abits: nat): nat
    requires abits <= 8 * |p|
  {
    ToNat(BitsOf(p)[..abits])
  }

  function FieldB(p: Bytes, abits: nat, bbits: nat): nat
    requires abits + bbits <= 8 * |p|
  {
    ToNat(BitsOf(p)[abits..abits + bbits])
  }

  /** The second field ends in the byte in which the first one ends. */
  predicate ShortTail(abits: nat, bbits: nat) { abits % 8 != 0 && bbits < 8 - abits % 8 }

  /** What ffx_mem_to_u64 makes of the two fields: where the second one ends in the byte in which
      the first one ends, the source shifts it too far. */
  function Unpacked(p: Bytes, abits: nat, bbits: nat): (nat, nat)
    requires abits + bbits <= 8 * |p|
  {
    (FieldA(p, abits),
     if ShortTail(abits, bbits) then Shr(FieldB(p, abits, bbits), abits % 8) else FieldB(p, abits, bbits))
  }

  /** The loop that takes whole bytes: bits has the bits of x taken before. */
  method TakeBytes(p: Bytes, from: nat, x0: nat, n: nat, ghost have: seq<bool>) returns (x: nat, k: nat, left: nat)
    requires 8 * from + n <= 8 * |p| && |have| + n <= 64 && x0 == ToNat(have)
    ensures k == from + n / 8 && left == n % 8
    ensures x == ToNat(have + BitsOf(p)[8 * from..8 * k])
  {
    hide ToNat, ToBits, BitsOf, BitOr;
    ghost var all := BitsOf(p);
    x, k, left := x0, from, n;
    assert have + all[8 * from..8 * from] == have;
    while left >= 8
      invariant from <= k && 8 * (k - from) + left == n
      invariant x == ToNat(have + all[8 * from..8 * k])
    {
      Pow2Of8();
      Appends(have + all[8 * from..8 * k], p[k], 8);
      BitsOfByte(p, k);
      JoinSlices(have, all, 8 * from, 8 * k, 8 * k + 8);
      x := BitOr(Shl64(x, 8), p[k]);
      k := k + 1;
      left := left - 8;
    }
  }

  lemma {:induction false} CatSlices<T>(all: seq<T>, i: nat, j: nat, k: nat)
    requires i <= j <= k <= |all|
    ensures all[i..j] + all[j..k] == all[i..k]
  {
  }

  lemma {:induction false} JoinSlices<T>(have: seq<T>, all: seq<T>, i: nat, j: nat, k: nat)
    requires i <= j <= k <= |all|
    ensures have + all[i..j] + all[j..k] == have + all[i..k]
  {
    assert all[i..j] + all[j..k] == all[i..k];
  }

  /** ffx_mem_to_u64. */
  method MemToU64(p: Bytes, abits: nat, bbits: nat) returns (ok: bool, a: nat, b: nat)
    requires abits + bbits <= 8 * |p|
    ensures ok <==> abits <= 64 && bbits <= 64
    ensures ok ==> (a, b) == Unpacked(p, abits, bbits)
  {
    if !(abits <= 64 && bbits <= 64) { return false, 0, 0; }
    ok := true;
    hide ToNat, ToBits, BitsOf, BitOr, Shl64, Low, Shr, FieldA, FieldB;
    var k, r;
    NoBitsNoValue(BitsOf(p));
    a, k, r := TakeBytes(p, 0, 0, abits, []);
    assert 8 * k + r == abits;
    assert [] + BitsOf(p)[8 * 0..8 * k] == BitsOf(p)[..8 * k];
    if r == 0 {
      b := TakeSecond(p, abits, bbits, k);
      FieldAIs(p, k);
    } else {
      a, b := TakeShared(p, k, a, r, bbits);
    }
  }

  lemma {:induction false} FieldAIs(p: Bytes, k: nat)
    requires k <= |p|
    ensures FieldA(p, 8 * k) == ToNat(BitsOf(p)[..8 * k])
  {
  }

  method TakeSecond(p: Bytes, abits: nat, bbits: nat, k: nat) returns (b: nat)
    requires 8 * k == abits && abits + bbits <= 8 * |p| && bbits <= 64
    ensures b == FieldB(p, abits, bbits)
  {
    hide ToNat, BitsOf;
    NoBitsNoValue(BitsOf(p));
    b := TakeRest(p, k, 0, bbits, []);
    assert [] + BitsOf(p)[8 * k..8 * k + bbits] == BitsOf(p)[abits..abits + bbits];
  }

  /** The byte k, in which the first field ends with r bits and the second one starts. */
  method TakeShared(p: Bytes, k: nat, a0: nat, r: nat, bbits: nat) returns (a: nat, b: nat)
    requires 0 < r < 8 && 8 * k + r + bbits <= 8 * |p| && 8 * k + r <= 64 && bbits <= 64
    requires a0 == ToNat(BitsOf(p)[..8 * k])
    ensures a == FieldA(p, 8 * k + r)
    ensures b == if bbits < 8 - r then Shr(FieldB(p, 8 * k + r, bbits), r) else FieldB(p, 8 * k + r, bbits)
  {
    hide ToNat, ToBits, BitsOf, BitOr, Shl64, Low, Shr;
    ghost var all := BitsOf(p);
    ghost var i := 8 * k + r;
    CutByte(p[k], r);
    BitsOfByte(p, k);
    Appends(all[..8 * k], Shr(p[k], 8 - r), r);
    assert all[..8 * k] + all[8 * k..8 * k + 8][..r] == all[..i];
    a := BitOr(Shl64(a0, r), Shr(p[k], 8 - r));
    var pleft := Low(p[k], 8 - r);
    assert all[8 * k..8 * k + 8][r..] == all[i..8 * k + 8];
    if bbits < 8 - r {
      b := Shr(pleft, 8 - bbits);
      CatSlices(all, i, i + bbits, 8 * k + 8);
      ShrOfNat(all[i..i + bbits], all[i + bbits..8 * k + 8]);
      ShrShr(pleft, 8 - r - bbits, r);
    } else {
      b := TakeRest(p, k + 1, pleft, bbits - (8 - r), all[i..8 * k + 8]);
      CatSlices(all, i, 8 * k + 8, i + bbits);
    }
  }

  lemma {:induction false} NoBitsNoValue(bits: seq<bool>)
    ensures ToNat([]) == 0 && bits[..0] == []
  {
  }

  /** The whole bytes of the second field and its last bits. */
  method TakeRest(p: Bytes, from: nat, x0: nat, n: nat, ghost have: seq<bool>) returns (x: nat)
    requires 8 * from + n <= 8 * |p| && |have| + n <= 64 && x0 == ToNat(have)
    ensures x == ToNat(have + BitsOf(p)[8 * from..8 * from + n])
  {
    hide ToNat, ToBits, BitsOf, BitOr, Shl64, Shr;
    ghost var all := BitsOf(p);
    var k, left;
    x, k, left := TakeBytes(p, from, x0, n, have);
    if left != 0 {
      CutByte(p[k], left);
      BitsOfByte(p, k);
      Appends(have + all[8 * from..8 * k], Shr(p[k], 8 - left), left);
      assert all[8 * k..8 * k + 8][..left] == all[8 * k..8 * k + left];
      JoinSlices(have, all, 8 * from, 8 * k, 8 * k + left);
      x := BitOr(Shl64(x, left), Shr(p[k], 8 - left));
    }
  }

  /** When the shift goes too far nevertheless the field is right: exactly when it is zero. */
  lemma {:induction false} ShortTailLoses(p: Bytes, abits: nat, bbits: nat)
    requires abits + bbits <= 8 * |p| && ShortTail(abits, bbits)
    ensures Shr(FieldB(p, abits, bbits), abits % 8) == FieldB(p, abits, bbits) <==> FieldB(p, abits, bbits) == 0
  {
    ShrLess(FieldB(p, abits, bbits), abits % 8);
  }

  lemma {:induction false} ShrLess(x: nat, k: nat)
    ensures Shr(x, k) <= x && (k > 0 && x > 0 ==> Shr(x, k) < x)
  {
    if k > 0 { ShrLess(x / 2, k - 1); }
  }

  // ---------- packing ----------

  /** Unpacking undoes packing unless the second field is shifted too far. */
  lemma {:induction false} UnpackInvertsPack(a: nat, b: nat, abits: nat, bbits: nat, p: Bytes)
    requires a < Pow2(abits) && b < Pow2(bbits) && abits + bbits <= 8 * |p|
    requires BitsOf(p)[..abits + bbits] == ToBits(a, abits) + ToBits(b, bbits)
    ensures FieldA(p, abits) == a && FieldB(p, abits, bbits) == b
  {
    hide ToBits, ToNat, BitsOf, Pow2;
    var bits := BitsOf(p);
    NatOfBits(a, abits);
    NatOfBits(b, bbits);
    assert bits[..abits] == bits[..abits + bbits][..abits];
    assert bits[abits..abits + bbits] == bits[..abits + bbits][abits..];
  }

  /** So the unpacker returns what was packed exactly when the second field is not shifted too
      far, or is zero. */
  lemma {:induction false} UnpackedIffNotShort(a: nat, b: nat, abits: nat, bbits: nat, p: Bytes)
    requires a < Pow2(abits) && b < Pow2(bbits) && abits + bbits <= 8 * |p|
    requires BitsOf(p)[..abits + bbits] == ToBits(a, abits) + ToBits(b, bbits)
    ensures Unpacked(p, abits, bbits) == (a, b) <==> !ShortTail(abits, bbits) || b == 0
  {
    hide ToBits, BitsOf, Pow2, FieldA, FieldB;
    UnpackInvertsPack(a, b, abits, bbits, p);
    ShrLess(b, abits % 8);
  }

  /** The two fields and zeros up to a whole byte. */
  function Packed(a: nat, b: nat, abits: nat, bbits: nat): (bits: seq<bool>)
    ensures |bits| % 8 == 0 && |bits| == (abits + bbits + 7) / 8 * 8
  {
    ToBits(a, abits) + ToBits(b, bbits) + ToBits(0, (8 - (abits + bbits) % 8) % 8)
  }

  /** The loop that writes whole bytes. */
  method PutBytes(x: nat, n: nat, p: array<Byte>, from: nat) returns (k: nat, left: nat)
    requires 8 * from + n <= 8 * p.Length
    modifies p
    ensures k == from + n / 8 && left == n % 8
    ensures BitsOf(p[..k]) == BitsOf(old(p[..from])) + ToBits(Shr(x, left), n - left)
    ensures forall i :: k <= i < p.Length ==> p[i] == old(p[i])
  {
    hide ToBits, BitsOf, Low, Shr;
    k, left := from, n;
    ghost var before := BitsOf(p[..from]);
    while left >= 8
      invariant from <= k && 8 * (k - from) + left == n
      invariant BitsOf(p[..k]) == before + ToBits(Shr(x, left), n - left)
      invariant forall i :: k <= i < p.Length ==> p[i] == old(p[i])
    {
      ghost var y := Shr(x, left - 8);
      Pow2Of8();
      LowFits(y, 8);
      ShrShr(x, left - 8, 8);
      ToBitsSplits(y, n - left, 8);
      ToBitsOfLow(y, 8, 8);
      k := PutByte(Low(Shr(x, left - 8), 8), p, k);
      left := left - 8;
    }
    NoBits(x);
    assert n == left ==> ToBits(Shr(x, left), 0) == [];
  }

  /** The whole bytes of the second field and its last bits. */
  method PutRest(x: nat, n: nat, p: array<Byte>, from: nat) returns (k: nat)
    requires 8 * from + n <= 8 * p.Length
    modifies p
    ensures k == from + (n + 7) / 8
    ensures BitsOf(p[..k]) == BitsOf(old(p[..from])) + ToBits(x, n) + ToBits(0, (8 - n % 8) % 8)
    ensures forall i :: k <= i < p.Length ==> p[i] == old(p[i])
  {
    hide ToBits, BitsOf, Low, Shr, Pow2;
    var left;
    k, left := PutBytes(x, n, p, from);
    ToBitsSplits(x, n - left, left);
    TailLength(n);
    if left != 0 {
      var y := x * Pow2(8 - left);
      Pow2Of8();
      LowFits(y, 8);
      ToBitsOfLow(y, 8, 8);
      ToBitsOfShifted(x, left, 8 - left);
      Regroup2(BitsOf(old(p[..from])), ToBits(Shr(x, left), n - left), ToBits(x, left), ToBits(0, 8 - left));
      k := PutByte(Low(y, 8), p, k);
    } else {
      NoBits(x);
      NoBits(0);
      Regroup2(BitsOf(old(p[..from])), ToBits(Shr(x, left), n - left), [], []);
    }
  }

  lemma {:induction false} TailLength(n: nat)
    ensures if n % 8 == 0 then (n + 7) / 8 == n / 8 && (8 - n % 8) % 8 == 0
            else (n + 7) / 8 == n / 8 + 1 && (8 - n % 8) % 8 == 8 - n % 8
  {
  }

  lemma {:induction false} Regroup2<T>(u: seq<T>, a: seq<T>, b: seq<T>, z: seq<T>)
    ensures u + a + (b + z) == u + (a + b) + z
    ensures b == [] && z == [] ==> u + (a + b) + z == u + a
  {
  }

  /** ffx_u64_to_mem; end is where it stops writing. */
  method U64ToMem(a: nat, b: nat, abits: nat, bbits: nat, p: array<Byte>) returns (ok: bool, end: nat)
    requires b < Pow2(bbits) && abits + bbits <= 8 * p.Length
    modifies p
    ensures ok <==> abits <= 64 && bbits <= 64
    ensures !ok ==> p[..] == old(p[..])
    ensures ok ==> end == (abits + bbits + 7) / 8 && BitsOf(p[..end]) == Packed(a, b, abits, bbits)
    ensures ok ==> forall i :: end <= i < p.Length ==> p[i] == old(p[i])
  {
    if !(abits <= 64 && bbits <= 64) { return false, 0; }
    ok := true;
    hide ToBits, BitsOf, Low, Shr, Pow2;
    NoBytes(p[..0]);
    var k, r := PutBytes(a, abits, p, 0);
    ghost var first := ToBits(Shr(a, r), abits - r);
    assert BitsOf(p[..k]) == [] + first == first;
    ToBitsSplits(a, abits - r, r);
    end := PutShared(a, b, r, bbits, p, k);
    EndsAgree(abits, bbits, k, r, end);
  }

  lemma {:induction false} EndsAgree(abits: nat, bbits: nat, k: nat, r: nat, end: nat)
    requires k == abits / 8 && r == abits % 8 && end == k + (r + bbits + 7) / 8
    ensures end == (abits + bbits + 7) / 8 && (r + bbits) % 8 == (abits + bbits) % 8
  {
  }

  lemma {:induction false} NoBytes(p: Bytes)
    requires |p| == 0
    ensures BitsOf(p) == []
  {
  }

  /** The byte k, in which the first field ends with its r lowest bits and the second starts, and
      what comes after it. */
  method PutShared(a: nat, b: nat, r: nat, bbits: nat, p: array<Byte>, k: nat) returns (end: nat)
    requires r < 8 && b < Pow2(bbits) && 8 * k + r + bbits <= 8 * p.Length
    modifies p
    ensures end == k + (r + bbits + 7) / 8
    ensures BitsOf(p[..end]) ==
              BitsOf(old(p[..k])) + ToBits(a, r) + ToBits(b, bbits) + ToBits(0, (8 - (r + bbits) % 8) % 8)
    ensures forall i :: end <= i < p.Length ==> p[i] == old(p[i])
  {
    hide ToBits, BitsOf, Low, Shr, BitOr, SharedByte, ShortByte, Pow2;
    if r == 0 {
      NoBits(a);
      end := PutRest(b, bbits, p, k);
      assert BitsOf(old(p[..k])) + [] == BitsOf(old(p[..k]));
    } else if bbits < 8 - r {
      ShortByteIs(a, b, r, bbits);
      end := PutByte(ShortByte(a, b, r, bbits), p, k);
      assert (8 - (r + bbits) % 8) % 8 == 8 - r - bbits;
      Regroup3(BitsOf(old(p[..k])), ToBits(a, r), ToBits(b, bbits), ToBits(0, 8 - r - bbits));
    } else {
      end := PutOver(a, b, r, bbits, p, k);
    }
  }

  method PutOver(a: nat, b: nat, r: nat, bbits: nat, p: array<Byte>, k: nat) returns (end: nat)
    requires 0 < r < 8 && 8 - r <= bbits && b < Pow2(bbits) && 8 * k + r + bbits <= 8 * p.Length
    modifies p
    ensures end == k + (r + bbits + 7) / 8
    ensures BitsOf(p[..end]) ==
              BitsOf(old(p[..k])) + ToBits(a, r) + ToBits(b, bbits) + ToBits(0, (8 - (r + bbits) % 8) % 8)
    ensures forall i :: end <= i < p.Length ==> p[i] == old(p[i])
  {
    hide ToBits, BitsOf, Low, Shr, BitOr, SharedByte, Pow2;
    SharedByteIs(a, b, r, bbits);
    var n := bbits - (8 - r);
    SameTail(r, bbits, k);
    var next := PutByte(SharedByte(a, b, r, bbits), p, k);
    ToBitsSplits(b, 8 - r, n);
    end := PutRest(b, n, p, next);
    Regroup(BitsOf(old(p[..k])), ToBits(a, r), ToBits(Shr(b, n), 8 - r), ToBits(b, n), ToBits(0, (8 - n % 8) % 8));
  }

  lemma {:induction false} SameTail(r: nat, bbits: nat, k: nat)
    requires r < 8 && 8 - r <= bbits
    ensures (bbits - (8 - r)) % 8 == (r + bbits) % 8
    ensures k + 1 + (bbits - (8 - r) + 7) / 8 == k + (r + bbits + 7) / 8
  {
  }

  lemma {:induction false} Regroup<T>(u: seq<T>, a: seq<T>, b: seq<T>, c: seq<T>, z: seq<T>)
    ensures u + (a + b) + c + z == u + a + (b + c) + z
  {
  }

  lemma {:induction false} Regroup3<T>(u: seq<T>, a: seq<T>, b: seq<T>, z: seq<T>)
    ensures u + (a + b + z) == u + a + b + z
  {
  }

  method PutByte(y: Byte, p: array<Byte>, k: nat) returns (next: nat)
    requires k < p.Length
    modifies p
    ensures next == k + 1
    ensures BitsOf(p[..next]) == BitsOf(old(p[..k])) + ToBits(y, 8)
    ensures forall i :: next <= i < p.Length ==> p[i] == old(p[i])
  {
    hide ToBits, BitsOf;
    ghost var was := p[..];
    p[k] := y;
    BitsOfNext(p[..], k);
    assert p[..][..k + 1] == p[..k + 1] && p[..][..k] == was[..k] == old(p[..k]);
    next := k + 1;
  }

  /** The shared byte when the second field goes on after it. */
  function SharedByte(a: nat, b: nat, r: nat, bbits: nat): nat
    requires 0 < r < 8 && 8 - r <= bbits
  {
    BitOr(Low(a, r) * Pow2(8 - r), Shr(b, bbits - (8 - r)))
  }

  lemma {:induction false} SharedByteIs(a: nat, b: nat, r: nat, bbits: nat)
    requires 0 < r < 8 && 8 - r <= bbits && b < Pow2(bbits)
    ensures SharedByte(a, b, r, bbits) < 256
    ensures ToBits(SharedByte(a, b, r, bbits), 8) == ToBits(a, r) + ToBits(Shr(b, bbits - (8 - r)), 8 - r)
  {
    hide Low, Shr, BitOr, ToBits, Pow2;
    LowFits(a, r);
    ShrFits(b, 8 - r, bbits - (8 - r));
    JoinsFields(Low(a, r), Shr(b, bbits - (8 - r)), r, 8 - r);
    ToBitsOfLow(a, r, r);
    Pow2Of8();
  }

  /** The shared byte when both fields end in it. */
  function ShortByte(a: nat, b: nat, r: nat, bbits: nat): nat
    requires 0 < r < 8 && bbits < 8 - r
  {
    BitOr(Low(a, r) * Pow2(bbits), Low(b, bbits)) * Pow2(8 - r - bbits)
  }

  lemma {:induction false} ShortByteIs(a: nat, b: nat, r: nat, bbits: nat)
    requires 0 < r < 8 && bbits < 8 - r
    ensures ShortByte(a, b, r, bbits) < 256
    ensures ToBits(ShortByte(a, b, r, bbits), 8) == ToBits(a, r) + ToBits(b, bbits) + ToBits(0, 8 - r - bbits)
  {
    hide Low, Shr, BitOr, ToBits, Pow2;
    LowFits(a, r);
    LowFits(b, bbits);
    JoinsFields(Low(a, r), Low(b, bbits), r, bbits);
    ToBitsOfLow(a, r, r);
    ToBitsOfLow(b, bbits, bbits);
    var x := BitOr(Low(a, r) * Pow2(bbits), Low(b, bbits));
    Pow2Of8();
    ShlFitsIn(x, r + bbits, 8 - r - bbits, 8);
    ToBitsOfShifted(x, r + bbits, 8 - r - bbits);
  }

  lemma {:induction false} ShlFitsIn(x: nat, j: nat, k: nat, n: nat)
    requires x < Pow2(j) && j + k == n
    ensures x * Pow2(k) < Pow2(n)
  {
    hide Pow2;
    Pow2Add(j, k);
    Larger(x, Pow2(j), Pow2(k));
  }

  lemma {:induction false} JoinsFields(x: nat, y: nat, j: nat, k: nat)
    requires x < Pow2(j) && y < Pow2(k)
    ensures BitOr(x * Pow2(k), y) < Pow2(j + k)
    ensures ToBits(BitOr(x * Pow2(k), y), j + k) == ToBits(x, j) + ToBits(y, k)
  {
    hide Pow2, BitOr, ToBits;
    OrAdds(x, y, k);
    ToBitsOfSum(x, y, j, k);
    Pow2Add(j, k);
    DigitsFit(x, y, Pow2(j), Pow2(k));
  }

  lemma {:induction false} DigitsFit(x: nat, y: nat, p: nat, q: nat)
    requires x < p && y < q
    ensures x * q + y < p * q
  {
    Larger(x + 1, p, q);
    assert (x + 1) * q == x * q + q;
  }
}
