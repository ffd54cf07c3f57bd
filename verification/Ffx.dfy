/** FFX format-preserving encryption of bit strings (crypto/ffx.hh): ten rounds of an alternating
    Feistel network whose round function is a CBC-MAC. */
module Ffx {
  import opened Power
  import opened Bits
  import opened Blocks
  import opened CbcMac
  import opened FfxPack
  import Ciphers
  import Separation

  const ROUNDS: nat := 10

  /** The key, the number of bits and the tweak. */
  datatype Ffx = Ffx(c: Cipher, n: Byte, tweak: Bytes) {
    ghost predicate Valid() { c.Valid() && 8 <= c.size < 256 && 2 <= n }

    function S(): nat { n / 2 }

    /** The width of the half that round i replaces. */
    function Width(i: nat): nat { if i % 2 == 1 then n - S() else S() }

    /** struct ffx2_mac_header: version, method, addition, radix, n, s, rounds, tweak length. */
    function Header(): Bytes { [1, 0, 2, 0, 2, n, S(), 10] + LittleEndian(|tweak|, 8) }

    /** What the MAC of a round is taken of: header, tweak, round number and half. */
    function MacInput(i: nat, b: nat): Bytes
      requires i < ROUNDS
    {
      Header() + tweak + ([i] + LittleEndian(b, 8))
    }

    /** The highest bits of the first 64 bits of the MAC. */
    function RoundF(i: nat, b: nat): nat
      requires Valid() && i < ROUNDS && n <= 128
    {
      var tag := Tag(c, Zeros(c.size), MacInput(i, b));
      Shr(FromLittleEndian(tag[..8]), 64 - Width(i))
    }

    /** The rounds from i on. */
    function Forward(i: nat, a: nat, b: nat): (nat, nat)
      requires Valid() && i <= ROUNDS && n <= 128
      decreases ROUNDS - i, a
    {
      if i == ROUNDS then (a, b) else Forward(i + 1, b, BitXor(a, RoundF(i, b)))
    }

    /** The rounds below i undone. */
    function Backward(i: nat, a: nat, b: nat): (nat, nat)
      requires Valid() && i <= ROUNDS && n <= 128
    {
      if i == 0 then (a, b) else Backward(i - 1, BitXor(b, RoundF(i - 1, a)), a)
    }

    function Encryption(p: Bytes): (bits: seq<bool>)
      requires Valid() && n <= 128 && n <= 8 * |p|
      ensures |bits| == (n + 7) / 8 * 8
    {
      var u := Unpacked(p, S(), n - S());
      var v := Forward(0, u.0, u.1);
      Packed(v.0, v.1, S(), n - S())
    }

    function Decryption(p: Bytes): (bits: seq<bool>)
      requires Valid() && n <= 128 && n <= 8 * |p|
      ensures |bits| == (n + 7) / 8 * 8
    {
      var u := Unpacked(p, S(), n - S());
      var v := Backward(ROUNDS, u.0, u.1);
      Packed(v.0, v.1, S(), n - S())
    }

    /** The halves before round i fit their widths. */
    predicate Fits(i: nat, a: nat, b: nat) { a < Pow2(Width(i)) && b < Pow2(Width(i + 1)) }
  }

  lemma {:induction false} RoundFFits(x: Ffx, i: nat, b: nat)
    requires x.Valid() && i < ROUNDS && x.n <= 128
    ensures x.RoundF(i, b) < Pow2(x.Width(i))
  {
    hide Tag, Pow2, Shr, FromLittleEndian;
    var tag := Tag(x.c, Zeros(x.c.size), x.MacInput(i, b));
    WordFits(tag[..8]);
    ShrFits(FromLittleEndian(tag[..8]), x.Width(i), 64 - x.Width(i));
  }

  /** A round swaps the widths with the halves. */
  lemma {:induction false} RoundKeepsWidths(x: Ffx, i: nat, a: nat, b: nat)
    requires x.Valid() && i < ROUNDS && x.n <= 128
    ensures x.Fits(i, a, b) ==> x.Fits(i + 1, b, BitXor(a, x.RoundF(i, b)))
    ensures x.Fits(i + 1, a, b) ==> x.Fits(i, BitXor(b, x.RoundF(i, a)), a)
  {
    hide BitXor, Pow2;
    hide Ffx.RoundF;
    if x.Fits(i, a, b) {
      RoundFFits(x, i, b);
      XorFits(a, x.RoundF(i, b), x.Width(i));
    }
    if x.Fits(i + 1, a, b) {
      RoundFFits(x, i, a);
      XorFits(b, x.RoundF(i, a), x.Width(i));
    }
  }

  lemma {:induction false} ForwardKeepsWidths(x: Ffx, i: nat, a: nat, b: nat)
    requires x.Valid() && i <= ROUNDS && x.n <= 128 && x.Fits(i, a, b)
    ensures x.Fits(ROUNDS, x.Forward(i, a, b).0, x.Forward(i, a, b).1)
    decreases ROUNDS - i
  {
    hide Ffx.RoundF, Ffx.Fits;
    if i < ROUNDS {
      RoundKeepsWidths(x, i, a, b);
      ForwardKeepsWidths(x, i + 1, b, BitXor(a, x.RoundF(i, b)));
    }
  }

  /** Undoing all rounds after doing those from i on leaves those below i to be undone. */
  lemma {:induction false} BackwardInvertsForward(x: Ffx, i: nat, a: nat, b: nat)
    requires x.Valid() && i <= ROUNDS && x.n <= 128
    ensures x.Backward(ROUNDS, x.Forward(i, a, b).0, x.Forward(i, a, b).1) == x.Backward(i, a, b)
    decreases ROUNDS - i
  {
    hide Ffx.RoundF;
    if i < ROUNDS {
      var f := x.RoundF(i, b);
      BackwardInvertsForward(x, i + 1, b, BitXor(a, f));
      XorCancels(a, f);
    }
  }

  // ---------- what the round function depends on ----------

  /** The layout in memory. */
  lemma {:induction false} MacLayout(x: Ffx, i: nat, b: nat)
    requires i < ROUNDS && |x.tweak| < Pow2(64) && b < Pow2(64)
    ensures var m, t := x.MacInput(i, b), |x.tweak|;
            && |m| == 25 + t && m[..8] == [1, 0, 2, 0, 2, x.n, x.n / 2, 10]
            && FromLittleEndian(m[8..16]) == t && m[16..16 + t] == x.tweak
            && m[16 + t] == i && FromLittleEndian(m[17 + t..]) == b
  {
    hide LittleEndian, FromLittleEndian, Pow2;
    var m, t := x.MacInput(i, b), |x.tweak|;
    WordOfNumber(t, 8);
    WordOfNumber(b, 8);
    assert m[8..16] == LittleEndian(t, 8) && m[17 + t..] == LittleEndian(b, 8);
  }

  /** The MAC is taken of a string that determines everything the round function is to depend on, also
      when it is filled up with zeros. */
  lemma {:induction false} MacInputDetermines(x: Ffx, i: nat, b: nat, y: Ffx, j: nat, d: nat)
    requires i < ROUNDS && |x.tweak| < Pow2(64) && b < Pow2(64)
    requires j < ROUNDS && |y.tweak| < Pow2(64) && d < Pow2(64)
    ensures ZeroPadded(16, x.MacInput(i, b)) == ZeroPadded(16, y.MacInput(j, d)) <==>
            x.n == y.n && x.tweak == y.tweak && i == j && b == d
  {
    hide LittleEndian, FromLittleEndian, Pow2, ZeroPadded, Ffx.MacInput;
    var p, q := x.MacInput(i, b), y.MacInput(j, d);
    MacLayout(x, i, b);
    MacLayout(y, j, d);
    Separation.PaddedWhole(p);
    Separation.PaddedWhole(q);
    if ZeroPadded(16, p) == ZeroPadded(16, q) {
      SameShorter(ZeroPadded(16, p), ZeroPadded(16, q), 16, 16);
      assert p[..16] == ZeroPadded(16, p)[..16] && q[..16] == ZeroPadded(16, q)[..16];
      assert p[5] == p[..16][5] && q[5] == q[..16][5];
      assert p[8..16] == p[..16][8..] && q[8..16] == q[..16][8..];
      assert p == q;
    }
    if x.n == y.n && x.tweak == y.tweak && i == j && b == d {
      SameMacInput(x, y, i, b);
    }
  }

  lemma {:induction false} SameMacInput(x: Ffx, y: Ffx, i: nat, b: nat)
    requires i < ROUNDS && x.n == y.n && x.tweak == y.tweak
    ensures x.MacInput(i, b) == y.MacInput(i, b)
  {
  }

  lemma {:induction false} ShrReaches(x: nat, k: nat, m: nat)
    ensures Shr(x, k) >= Pow2(m) <==> x >= Pow2(m + k)
    decreases k
  {
    if k > 0 { ShrReaches(x / 2, k - 1, m); }
  }

  lemma {:induction false} HighestBit(p: Bytes)
    requires p != []
    ensures FromLittleEndian(p) >= 128 * Pow2(8 * (|p| - 1)) <==> p[|p| - 1] >= 128
    decreases |p|
  {
    if |p| > 1 {
      HighestBit(p[1..]);
      Pow2Of8();
      Pow2Add(8, 8 * (|p| - 2));
    }
  }

  /** The highest bit of the half is the highest bit of byte 7 of the MAC. */
  lemma {:induction false} RoundFHigh(x: Ffx, i: nat, b: nat)
    requires x.Valid() && i < ROUNDS && x.n <= 128 && x.c.size == 16
    ensures x.RoundF(i, b) >= Pow2(x.Width(i) - 1) <==> Separation.High(Tag(x.c, Zeros(16), x.MacInput(i, b)))
  {
    hide Tag, Pow2, Shr, FromLittleEndian, Ffx.MacInput;
    var tag := Tag(x.c, Zeros(16), x.MacInput(i, b));
    HighestBit(tag[..8]);
    Pow2Add(7, 56);
    assert Pow2(7) == 128 by { Pow2Of7(); }
    ShrReaches(FromLittleEndian(tag[..8]), 64 - x.Width(i), x.Width(i) - 1);
  }

  lemma {:induction false} Pow2Of7()
    ensures Pow2(7) == 128
  {
    Pow2Of8();
  }

  /** The half is made of the first bits of the MAC's first 64-bit word. */
  lemma {:induction false} RoundFStarts(x: Ffx, i: nat, b: nat)
    requires x.Valid() && i < ROUNDS && x.n <= 128
    ensures var word := FromLittleEndian(Tag(x.c, Zeros(x.c.size), x.MacInput(i, b))[..8]);
            && ToBits(x.RoundF(i, b), x.Width(i)) == ToBits(word, 64)[..x.Width(i)]
            && x.Width(i) == if i % 2 == 0 then x.n / 2 else x.n - x.n / 2
  {
    hide Tag, Shr, FromLittleEndian, ToBits, Ffx.MacInput;
    var word := FromLittleEndian(Tag(x.c, Zeros(x.c.size), x.MacInput(i, b))[..8]);
    ToBitsSplits(word, x.Width(i), 64 - x.Width(i));
  }

  /** Under some key the round function tells two settings apart that differ in the width, the tweak,
      the round or the half. */
  lemma {:induction false} RoundFSeparates(n: Byte, t: Bytes, i: nat, b: nat, n': Byte, t': Bytes, i': nat, b': nat)
    returns (c: Cipher)
    requires 2 <= n <= 128 && |t| < Pow2(64) && i < ROUNDS && b < Pow2(64)
    requires 2 <= n' <= 128 && |t'| < Pow2(64) && i' < ROUNDS && b' < Pow2(64)
    requires n != n' || t != t' || i != i' || b != b'
    ensures c.Valid() && c.size == 16
    ensures Ffx(c, n, t).RoundF(i, b) != Ffx(c, n', t').RoundF(i', b')
  {
    hide Tag, Pow2, ZeroPadded, Separation.High;
    hide Ffx.MacInput, Ffx.RoundF;
    var x0, y0 := Ffx(Ciphers.Plain(16), n, t), Ffx(Ciphers.Plain(16), n', t');
    MacInputDetermines(x0, i, b, y0, i', b');
    MacLayout(x0, i, b);
    MacLayout(y0, i', b');
    LengthsFit();
    var wider := x0.Width(i) >= y0.Width(i');
    c := Separation.TagsDiffer(x0.MacInput(i, b), y0.MacInput(i', b'), wider);
    var x, y := Ffx(c, n, t), Ffx(c, n', t');
    SameMacInput(x0, x, i, b);
    SameMacInput(y0, y, i', b');
    RoundFHigh(x, i, b);
    RoundFHigh(y, i', b');
    Pow2Monotone(y0.Width(i') - 1, x0.Width(i) - 1);
    Pow2Monotone(x0.Width(i) - 1, y0.Width(i') - 1);
  }

  lemma {:induction false} LengthsFit()
    ensures 8 * Pow2(64) + 400 < Pow2(120)
  {
    hide Pow2;
    Pow2Add(64, 56);
    Pow2Monotone(10, 56);
    assert Pow2(10) == 1024 by { Pow2Of10(); }
  }

  lemma {:induction false} Pow2Of10()
    ensures Pow2(10) == 1024
  {
    Pow2Of8();
  }

  // ---------- the rounds ----------

  /** Each round makes one new half of the two before it; the last two are the result. */
  lemma {:induction false} TenRounds(x: Ffx, a: nat, b: nat, h: seq<nat>)
    requires x.Valid() && x.n <= 128 && |h| == 12 && h[0] == a && h[1] == b
    requires forall i {:trigger h[i + 2]} :: 0 <= i < 10 ==> h[i + 2] == BitXor(h[i], x.RoundF(i, h[i + 1]))
    ensures x.Forward(0, a, b) == (h[10], h[11])
  {
    RoundsFrom(x, h, 0);
  }

  lemma {:induction false} RoundsFrom(x: Ffx, h: seq<nat>, i: nat)
    requires x.Valid() && x.n <= 128 && |h| == 12 && i <= 10
    requires forall i {:trigger h[i + 2]} :: 0 <= i < 10 ==> h[i + 2] == BitXor(h[i], x.RoundF(i, h[i + 1]))
    ensures x.Forward(i, h[i], h[i + 1]) == (h[10], h[11])
    decreases 10 - i
  {
    hide Ffx.RoundF, BitXor;
    if i < 10 {
      var next := h[i + 2];
      RoundsFrom(x, h, i + 1);
    }
  }

  lemma {:induction false} NoShortTail(n: nat)
    requires n >= 8
    ensures !ShortTail(n / 2, n - n / 2)
  {
  }

  lemma {:induction false} FieldsFit(p: Bytes, abits: nat, bbits: nat)
    requires abits + bbits <= 8 * |p|
    ensures FieldA(p, abits) < Pow2(abits) && FieldB(p, abits, bbits) < Pow2(bbits)
  {
    hide ToNat, Pow2;
    ToNatFits(BitsOf(p)[..abits]);
    ToNatFits(BitsOf(p)[abits..abits + bbits]);
  }

  lemma {:induction false} PackInvertsUnpack(p: Bytes, abits: nat, bbits: nat)
    requires abits + bbits <= 8 * |p|
    ensures BitsOf(p)[..abits + bbits] == ToBits(FieldA(p, abits), abits) + ToBits(FieldB(p, abits, bbits), bbits)
  {
    hide ToNat, ToBits;
    var bits := BitsOf(p);
    BitsOfNat(bits[..abits]);
    BitsOfNat(bits[abits..abits + bbits]);
    assert bits[..abits + bbits] == bits[..abits] + bits[abits..abits + bbits];
  }

  /** Decryption gives back the n bits that were encrypted, for every width from 8 to 128: p holds
      the plaintext and q starts with the ciphertext. */
  lemma {:induction false} DecryptionInvertsEncryption(x: Ffx, p: Bytes, q: Bytes)
    requires x.Valid() && 8 <= x.n <= 128 && x.n <= 8 * |p| && x.n <= 8 * |q|
    requires BitsOf(q)[..x.n] == x.Encryption(p)[..x.n]
    ensures x.Decryption(q)[..x.n] == BitsOf(p)[..x.n]
  {
    hide ToBits, BitsOf, Pow2, FieldA, FieldB;
    hide Ffx.Forward, Ffx.Backward;
    var s, t := x.S(), x.n - x.S();
    NoShortTail(x.n);
    FieldsFit(p, s, t);
    var a, b := FieldA(p, s), FieldB(p, s, t);
    ForwardKeepsWidths(x, 0, a, b);
    BackwardInvertsForward(x, 0, a, b);
    ForwardEnds(x, a, b);
    var v := x.Forward(0, a, b);
    PackedStarts(v.0, v.1, s, t);
    UnpackInvertsPack(v.0, v.1, s, t, q);
    PackedStarts(a, b, s, t);
    PackInvertsUnpack(p, s, t);
  }

  /** Decryption gives back the bits of every plaintext. */
  ghost predicate RoundTrips(x: Ffx)
    requires x.Valid() && x.n <= 128
  {
    forall p: Bytes, q: Bytes {:trigger x.Encryption(p), x.Decryption(q)} ::
      x.n <= 8 * |p| && x.n <= 8 * |q| && BitsOf(q)[..x.n] == x.Encryption(p)[..x.n] ==>
        x.Decryption(q)[..x.n] == BitsOf(p)[..x.n]
  }

  /** The round trip holds exactly for widths of at least 8 bits. */
  lemma {:induction false} RoundTripsIffWide(x: Ffx)
    requires x.Valid() && x.n <= 128
    ensures RoundTrips(x) <==> x.n >= 8
  {
    hide BitsOf, RoundTrips, Ffx.Encryption, Ffx.Decryption;
    if x.n >= 8 {
      WideRoundTrips(x);
    } else {
      var p0, p1 := TwoPlaintexts(x);
      var q := CiphertextOf(x, p0);
      if RoundTrips(x) {
        RoundTripOf(x, p0, q);
        RoundTripOf(x, p1, q);
      }
    }
  }

  lemma {:induction false} WideRoundTrips(x: Ffx)
    requires x.Valid() && 8 <= x.n <= 128
    ensures RoundTrips(x)
  {
    hide Ffx.Encryption, Ffx.Decryption;
    forall p: Bytes, q: Bytes | x.n <= 8 * |p| && x.n <= 8 * |q| && BitsOf(q)[..x.n] == x.Encryption(p)[..x.n]
      ensures x.Decryption(q)[..x.n] == BitsOf(p)[..x.n]
    {
      DecryptionInvertsEncryption(x, p, q);
    }
  }

  lemma {:induction false} RoundTripOf(x: Ffx, p: Bytes, q: Bytes)
    requires x.Valid() && x.n <= 128 && RoundTrips(x) && x.n <= 8 * |p| && x.n <= 8 * |q|
    requires BitsOf(q)[..x.n] == x.Encryption(p)[..x.n]
    ensures x.Decryption(q)[..x.n] == BitsOf(p)[..x.n]
  {
    hide BitsOf, Ffx.Encryption, Ffx.Decryption;
  }

  lemma {:induction false} CiphertextOf(x: Ffx, p: Bytes) returns (q: Bytes)
    requires x.Valid() && x.n <= 128 && x.n <= 8 * |p|
    ensures x.n <= 8 * |q| && BitsOf(q)[..x.n] == x.Encryption(p)[..x.n]
  {
    hide BitsOf, ToBytes, Ffx.Encryption;
    q := ToBytes(x.Encryption(p));
    BitsOfToBytes(x.Encryption(p));
  }

  /** Below 8 bits the last bit of the second half is lost: two plaintexts share a ciphertext. */
  lemma {:induction false} TwoPlaintexts(x: Ffx) returns (p0: Bytes, p1: Bytes)
    requires x.Valid() && x.n < 8
    ensures |p0| == 1 == |p1| && BitsOf(p0)[..x.n] != BitsOf(p1)[..x.n]
    ensures x.Encryption(p0) == x.Encryption(p1)
  {
    hide ToBits, BitsOf, ToBytes, FieldA, FieldB, Packed;
    hide Ffx.Forward;
    var s, t := x.S(), x.n - x.S();
    p0, p1 := WithLastBit(s, t, 0), WithLastBit(s, t, 1);
    LastBitIs(s, t, 0);
    LastBitIs(s, t, 1);
    ShrLess(1, s % 8);
    ShrLess(0, s % 8);
    LastBitDiffers(s, t);
  }

  function WithLastBit(s: nat, t: nat, bit: nat): Bytes
    requires 0 < s + t < 8
  {
    ToBytes(Packed(0, bit, s, t))
  }

  lemma {:induction false} LastBitIs(s: nat, t: nat, bit: nat)
    requires 0 < s + t < 8 && 0 < t && bit < 2
    ensures var p := WithLastBit(s, t, bit);
            && |p| == 1 && BitsOf(p)[..s + t] == ToBits(0, s) + ToBits(bit, t)
            && FieldA(p, s) == 0 && FieldB(p, s, t) == bit
  {
    hide ToBits, FieldA, FieldB, ToBytes, BitsOf, Packed;
    var bits := Packed(0, bit, s, t);
    BitsOfToBytes(bits);
    PackedStarts(0, bit, s, t);
    Pow2Monotone(1, t);
    assert Pow2(1) == 2;
    UnpackInvertsPack(0, bit, s, t, ToBytes(bits));
  }

  lemma {:induction false} LastBitDiffers(s: nat, t: nat)
    requires t > 0
    ensures ToBits(0, s) + ToBits(0, t) != ToBits(0, s) + ToBits(1, t)
  {
    hide ToBits;
    Pow2Monotone(1, t);
    NatOfBits(0, t);
    NatOfBits(1, t);
    var a := ToBits(0, s);
    assert (a + ToBits(0, t))[|a|..] == ToBits(0, t) && (a + ToBits(1, t))[|a|..] == ToBits(1, t);
  }

  lemma {:induction false} ForwardEnds(x: Ffx, a: nat, b: nat)
    requires x.Valid() && x.n <= 128
    ensures x.Backward(0, a, b) == (a, b)
  {
  }

  lemma {:induction false} PackedStarts(a: nat, b: nat, abits: nat, bbits: nat)
    ensures Packed(a, b, abits, bbits)[..abits + bbits] == ToBits(a, abits) + ToBits(b, bbits)
  {
  }

  // ---------- the class ----------

  /** The class ffx2: header and tweak are absorbed once, and each round works on a copy. */
  class Ffx2 {
    const x: Ffx
    const base: Mac

    ghost predicate Valid()
      reads base, base.v, base.m
    {
      && x.Valid() && base.Valid()
      && base.c == x.c && base.iv == Zeros(x.c.size) && base.data == x.Header() + x.tweak
    }

    constructor (c: Cipher, nbits: nat, tweak: Bytes)
      requires Ffx(c, nbits % 256, tweak).Valid()
      ensures Valid() && x == Ffx(c, nbits % 256, tweak)
      ensures fresh(base) && fresh(base.v) && fresh(base.m)
    {
      x := Ffx(c, nbits % 256, tweak);
      var mac := new Mac(c, Zeros(c.size));
      mac.Update(Ffx(c, nbits % 256, tweak).Header());
      mac.Update(tweak);
      base := mac;
      new;
      assert [] + x.Header() == x.Header();
    }

    /** The round function on a copied partial state is the MAC of everything put together. */
    method F(i: nat, b: nat) returns (r: nat)
      requires Valid() && i < ROUNDS && x.n <= 128
      ensures r == x.RoundF(i, b)
    {
      hide Tag, LittleEndian, FromLittleEndian, Shr;
      var mac := new Mac.Copy(base);
      mac.Update([i] + LittleEndian(b, 8));
      var out := mac.Final();
      var m := if i % 2 == 1 then x.n - x.S() else x.S();
      r := Shr(FromLittleEndian(out[..8]), 64 - m);
    }

    /** encrypt; it throws (returns false) on widths above 128. Only the first end bytes of the
        buffer are written. */
    method Encrypt(pt: Bytes, ct: array<Byte>) returns (ok: bool, end: nat)
      requires Valid() && x.n <= 8 * |pt| && x.n <= 8 * ct.Length
      requires ct != base.v && ct != base.m
      modifies ct
      ensures ok <==> x.n <= 128
      ensures ok ==> end == (x.n + 7) / 8 && BitsOf(ct[..end]) == x.Encryption(pt)
      ensures ok ==> forall j :: end <= j < ct.Length ==> ct[j] == old(ct[j])
      ensures Valid()
    {
      hide Packed, BitsOf, Pow2, BitXor, FieldA, FieldB;
      hide Ffx.RoundF, Ffx.Fits, Ffx.Header;
      var s := x.S();
      var a, b;
      end := 0;
      ok, a, b := MemToU64(pt, s, x.n - s);
      if !ok { return; }
      ghost var u, v := a, b;
      UnpackedFits(x, pt);
      for i := 0 to ROUNDS
        invariant Valid() && x.Fits(i, a, b) && ct[..] == old(ct[..])
        invariant x.Forward(i, a, b) == x.Forward(0, u, v)
      {
        var f := F(i, b);
        RoundKeepsWidths(x, i, a, b);
        var c := BitXor(a, f);
        a := b;
        b := c;
      }
      LastFits(x, a, b);
      ok, end := U64ToMem(a, b, s, x.n - s, ct);
    }

    /** decrypt. */
    method Decrypt(ct: Bytes, pt: array<Byte>) returns (ok: bool, end: nat)
      requires Valid() && x.n <= 8 * |ct| && x.n <= 8 * pt.Length
      requires pt != base.v && pt != base.m
      modifies pt
      ensures ok <==> x.n <= 128
      ensures ok ==> end == (x.n + 7) / 8 && BitsOf(pt[..end]) == x.Decryption(ct)
      ensures ok ==> forall j :: end <= j < pt.Length ==> pt[j] == old(pt[j])
      ensures Valid()
    {
      hide Packed, BitsOf, Pow2, BitXor, FieldA, FieldB;
      hide Ffx.RoundF, Ffx.Fits, Ffx.Header;
      var s := x.S();
      var a, b;
      end := 0;
      ok, a, b := MemToU64(ct, s, x.n - s);
      if !ok { return; }
      ghost var u, v := a, b;
      UnpackedFits(x, ct);
      LastFits(x, a, b);
      var i := ROUNDS;
      while i > 0
        invariant 0 <= i <= ROUNDS && Valid() && x.Fits(i, a, b) && pt[..] == old(pt[..])
        invariant x.Backward(i, a, b) == x.Backward(ROUNDS, u, v)
      {
        i := i - 1;
        var c := b;
        b := a;
        var f := F(i, b);
        RoundKeepsWidths(x, i, b, c);
        a := BitXor(c, f);
      }
      LastFits(x, a, b);
      ok, end := U64ToMem(a, b, s, x.n - s, pt);
    }
  }

  /** What is unpacked fits the halves, even where it was shifted too far. */
  lemma {:induction false} UnpackedFits(x: Ffx, p: Bytes)
    requires x.Valid() && x.n <= 8 * |p|
    ensures var u := Unpacked(p, x.S(), x.n - x.S()); x.Fits(0, u.0, u.1)
  {
    hide Pow2, FieldA, FieldB;
    FieldsFit(p, x.S(), x.n - x.S());
    ShrLess(FieldB(p, x.S(), x.n - x.S()), x.S() % 8);
  }

  /** Ten is even: the halves end with the widths they started with. */
  lemma {:induction false} LastFits(x: Ffx, a: nat, b: nat)
    requires x.Valid()
    ensures x.Fits(ROUNDS, a, b) <==> x.Fits(0, a, b)
    ensures x.Fits(0, a, b) <==> a < Pow2(x.S()) && b < Pow2(x.n - x.S())
  {
  }

  // ---------- as a block cipher ----------

  /** ffx2_block_cipher: widths of whole bytes. */
  ghost function AsCipher(x: Ffx): Cipher
    requires x.Valid() && x.n % 8 == 0 && x.n <= 128
  {
    Cipher(x.n / 8,
           (p: Bytes) => if |p| == x.n / 8 then ToBytes(x.Encryption(p)) else p,
           (q: Bytes) => if |q| == x.n / 8 then ToBytes(x.Decryption(q)) else q)
  }

  /** FFX over whole bytes is an invertible block cipher, so the modes above apply to it. */
  lemma {:induction false} FfxIsBlockCipher(x: Ffx)
    requires x.Valid() && x.n % 8 == 0 && 8 <= x.n <= 128
    ensures AsCipher(x).Valid()
  {
    var c := AsCipher(x);
    hide Ffx.Encryption, Ffx.Decryption;
    forall p: Bytes | |p| == x.n / 8
      ensures |c.enc(p)| == x.n / 8 && c.dec(c.enc(p)) == p
    {
      EncryptedBlock(x, p);
    }
  }

  lemma {:induction false} EncryptedBlock(x: Ffx, p: Bytes)
    requires x.Valid() && x.n % 8 == 0 && 8 <= x.n <= 128 && |p| == x.n / 8
    ensures ToBytes(x.Decryption(ToBytes(x.Encryption(p)))) == p
  {
    hide BitsOf, ToBytes;
    hide Ffx.Encryption, Ffx.Decryption;
    var q := ToBytes(x.Encryption(p));
    BitsOfToBytes(x.Encryption(p));
    DecryptionInvertsEncryption(x, p, q);
    var bits := x.Decryption(q);
    assert bits[..x.n] == bits && BitsOf(p)[..x.n] == BitsOf(p);
    BitsOfToBytes(bits);
    BytesFromBits(ToBytes(bits), p);
  }
}
