/** The wide-block mode of crypto/cmc.hh: three passes over a buffer of whole blocks. */
module Cmc {
  import opened Power
  import opened Bits
  import opened Blocks

  /** n is a multiple of the block size. */
  predicate Multiple(size: nat, n: nat)
    requires size > 0
  {
    n == 0 || (n >= size && Multiple(size, n - size))
  }

  lemma {:induction false} MultipleIs(size: nat, n: nat)
    requires size > 0
    ensures Multiple(size, n) <==> n % size == 0
  {
    if n >= size {
      MultipleIs(size, n - size);
      ModStep(n, size);
    } else {
      ModSmall(n, size);
    }
  }

  // ---------- the mask ----------

  /** The carry out of a byte, computed in 16 bits from two char values: where char is signed, the
      sign is extended and a set high bit carries 255, otherwise it carries 1. */
  function Carry(signed: bool, a: Byte): Byte {
    if a < 128 then 0 else if signed then 255 else 1
  }

  function Double(a: Byte): Byte { a * 2 % 256 }

  /** The bytes of the mask from j on, before the last carry is added. */
  function Doubled(signed: bool, a: Bytes, j: nat): (m: Bytes)
    requires j <= |a|
    ensures |m| == |a| - j
    decreases |a| - j
  {
    if j == |a| then []
    else [OrByte(if j + 1 < |a| then Carry(signed, a[j + 1]) else 0, Double(a[j]))] + Doubled(signed, a, j + 1)
  }

  /** The block shifted left by one bit, the bit that falls out added at the other end. */
  function Mask(signed: bool, first: Bytes, last: Bytes): (m: Bytes)
    requires |first| == |last| > 0
    ensures |m| == |first|
  {
    var a := Xor(first, last);
    var m := Doubled(signed, a, 0);
    m[|a| - 1 := OrByte(m[|a| - 1], Carry(signed, a[0]))]
  }

  method MakeMask(signed: bool, first: Bytes, last: Bytes) returns (m: Bytes)
    requires |first| == |last| > 0
    ensures m == Mask(signed, first, last)
  {
    ghost var x := Xor(first, last);
    m := [];
    var carry: Byte := 0;
    var j := |first|;
    while j != 0
      invariant 0 <= j <= |first|
      invariant m == Doubled(signed, x, j)
      invariant carry == if j < |first| then Carry(signed, x[j]) else 0
    {
      var a := XorByte(first[j - 1], last[j - 1]);
      m := [OrByte(carry, Double(a))] + m;
      carry := Carry(signed, a);
      j := j - 1;
    }
    m := m[|first| - 1 := OrByte(m[|first| - 1], carry)];
  }

  // ---------- what the mask is ----------

  lemma {:induction false} ToBitsRepeats(y: nat, k: nat)
    ensures ToBits(y + Pow2(k), k) == ToBits(y, k)
  {
    if k > 0 { ToBitsRepeats(y / 2, k - 1); }
  }

  lemma {:induction false} TopBitFirst(y: nat, k: nat)
    requires y < Pow2(k + 1)
    ensures ToBits(y, k + 1) == [y >= Pow2(k)] + ToBits(y, k)
  {
    if k > 0 { TopBitFirst(y / 2, k - 1); }
  }

  lemma {:induction false} LastBit(y: nat, c: nat, k: nat)
    requires c <= 1
    ensures ToBits(2 * y + c, k + 1) == ToBits(y, k) + [c == 1]
  {
  }

  lemma {:induction false} OrBelow(x: nat, c: nat)
    requires c <= 1
    ensures BitOr(c, 2 * x) == 2 * x + c == BitOr(2 * x, c)
  {
    assert BitOr(0, x) == x == BitOr(x, 0);
  }

  /** Doubling a byte and putting a bit below it shifts its bits by one. */
  lemma {:induction false} DoubledByte(a: Byte, c: Byte)
    requires c <= 1
    ensures OrByte(c, Double(a)) == OrByte(Double(a), c)
    ensures ToBits(OrByte(c, Double(a)), 8) == ToBits(a, 8)[1..] + [c == 1]
    ensures ToBits(a, 8)[0] == (a >= 128)
  {
    hide ToBits, Pow2, BitOr;
    var x := if a >= 128 then a - 128 else a;
    assert Double(a) == 2 * x;
    PowersUpTo8();
    OrBelow(x, c);
    LastBit(x, c, 7);
    if a >= 128 { ToBitsRepeats(x, 7); }
    TopBitFirst(a, 7);
  }

  lemma {:induction false} PowersUpTo8()
    ensures Pow2(7) == 128 && Pow2(8) == 256
  {
    assert Pow2(4) == 16;
  }

  /** A bit below a doubled byte. */
  lemma {:induction false} BitBelow(a: Byte, c: Byte)
    requires c <= 1
    ensures OrByte(OrByte(0, Double(a)), c) == OrByte(c, Double(a))
  {
    var x := if a >= 128 then a - 128 else a;
    assert Double(a) == 2 * x;
    OrBelow(x, 0);
    OrBelow(x, c);
  }

  lemma {:induction false} BitsOfFirst(b: Byte, s: Bytes)
    ensures BitsOf([b] + s) == ToBits(b, 8) + BitsOf(s)
    decreases |s|
  {
    hide ToBits;
    if s == [] {
      assert ([b] + s)[..0] == [] && [b] + s == [b];
      assert BitsOf([b]) == BitsOf([]) + ToBits(b, 8);
    } else {
      var s' := s[..|s| - 1];
      assert ([b] + s)[..|s|] == [b] + s';
      BitsOfFirst(b, s');
    }
  }

  /** The whole block is shifted by one bit; the last byte still lacks its lowest bit, c. */
  lemma {:induction false} DoubledIsShifted(a: Bytes, j: nat, c: Byte)
    requires j < |a| && c <= 1
    ensures var m := Doubled(false, a, j);
            BitsOf(m[|m| - 1 := OrByte(m[|m| - 1], c)]) == BitsOf(a[j..])[1..] + [c == 1]
    decreases |a| - j
  {
    hide ToBits, OrByte, Double, BitsOf;
    BitsOfFirst(a[j], a[j + 1..]);
    assert a[j..] == [a[j]] + a[j + 1..];
    var m := Doubled(false, a, j);
    if j + 1 == |a| {
      BitBelow(a[j], c);
      DoubledByte(a[j], c);
      BitsOfFirst(OrByte(c, Double(a[j])), []);
      assert m == [OrByte(0, Double(a[j]))];
      assert m[0 := OrByte(m[0], c)] == [OrByte(c, Double(a[j]))] + [];
      NoBitsOfNothing();
      assert a[j + 1..] == [];
    } else {
      var rest := Doubled(false, a, j + 1);
      var carry := Carry(false, a[j + 1]);
      DoubledIsShifted(a, j + 1, c);
      DoubledByte(a[j], carry);
      DoubledByte(a[j + 1], 0);
      BitsOfFirst(a[j + 1], a[j + 2..]);
      assert a[j + 1..] == [a[j + 1]] + a[j + 2..];
      var filled := rest[|rest| - 1 := OrByte(rest[|rest| - 1], c)];
      BitsOfFirst(OrByte(carry, Double(a[j])), filled);
      assert m[|m| - 1 := OrByte(m[|m| - 1], c)] == [OrByte(carry, Double(a[j]))] + filled;
      ShiftJoins(ToBits(a[j], 8), BitsOf(a[j + 1..]), c == 1);
    }
  }

  lemma {:induction false} NoBitsOfNothing()
    ensures BitsOf([]) == []
  {
  }

  lemma {:induction false} ShiftJoins(x: seq<bool>, y: seq<bool>, c: bool)
    requires x != [] && y != []
    ensures x[1..] + [y[0]] + (y[1..] + [c]) == (x + y)[1..] + [c]
  {
  }

  /** Where char is unsigned the mask is the exclusive-or of the two blocks rotated left by one
      bit. */
  lemma {:induction false} MaskIsRotation(first: Bytes, last: Bytes)
    requires |first| == |last| > 0
    ensures var bits := BitsOf(Xor(first, last));
            BitsOf(Mask(false, first, last)) == bits[1..] + [bits[0]]
  {
    hide ToBits, BitsOf, Doubled, Xor;
    var a := Xor(first, last);
    DoubledIsShifted(a, 0, Carry(false, a[0]));
    assert a[0..] == a;
    BitsOfFirst(a[0], a[1..]);
    assert a == [a[0]] + a[1..];
    DoubledByte(a[0], 0);
  }

  // ---------- the mask where char is signed ----------

  /** The position whose carry goes into position j. */
  function After(n: nat, j: nat): nat
    requires j < n
  {
    if j + 1 < n then j + 1 else 0
  }

  lemma {:induction false} DoubledAt(signed: bool, a: Bytes, j: nat, k: nat)
    requires j <= k < |a|
    ensures Doubled(signed, a, j)[k - j] == OrByte(if k + 1 < |a| then Carry(signed, a[k + 1]) else 0, Double(a[k]))
    decreases k - j
  {
    hide OrByte, Carry, Double;
    if j < k { DoubledAt(signed, a, j + 1, k); }
  }

  lemma {:induction false} OrZero(x: Byte, y: Byte)
    ensures OrByte(OrByte(0, x), y) == OrByte(x, y) == OrByte(y, x)
  {
    OrCommutes(x, y);
  }

  lemma {:induction false} OrCommutes(x: nat, y: nat)
    ensures BitOr(x, y) == BitOr(y, x)
    decreases x + y
  {
    if x != 0 && y != 0 { OrCommutes(x / 2, y / 2); }
  }

  /** Each byte of the mask is the doubled byte and the carry of the byte after it. */
  lemma {:induction false} MaskAt(signed: bool, first: Bytes, last: Bytes, k: nat)
    requires |first| == |last| && k < |first|
    ensures var a := Xor(first, last);
            Mask(signed, first, last)[k] == OrByte(Carry(signed, a[After(|a|, k)]), Double(a[k]))
  {
    hide OrByte, Carry, Double, Xor;
    var a := Xor(first, last);
    DoubledAt(signed, a, 0, k);
    OrZero(Double(a[k]), Carry(signed, a[0]));
  }

  lemma {:induction false} OrOnes(x: nat, k: nat)
    requires x < Pow2(k)
    ensures BitOr(Pow2(k) - 1, x) == Pow2(k) - 1
  {
    if k > 0 && x > 0 {
      assert (Pow2(k) - 1) / 2 == Pow2(k - 1) - 1 && (Pow2(k) - 1) % 2 == 1;
      OrOnes(x / 2, k - 1);
    }
  }

  /** The extended sign does no harm to a byte whose seven low bits are set. */
  lemma {:induction false} SignHarmless(a: Byte, next: Byte)
    ensures OrByte(Carry(true, next), Double(a)) == OrByte(Carry(false, next), Double(a)) <==>
            (next >= 128 ==> a % 128 == 127)
  {
    hide BitOr;
    PowersUpTo8();
    OrOnes(Double(a), 8);
    var x := if a >= 128 then a - 128 else a;
    assert Double(a) == 2 * x && a % 128 == x;
    OrBelow(x, 1);
  }

  /** Where char is signed the mask is that rotation exactly if every byte of the exclusive-or
      whose high bit is set comes, cyclically, after a byte whose seven low bits are all set. */
  lemma {:induction false} SignedMaskIsRotation(first: Bytes, last: Bytes)
    requires |first| == |last| > 0
    ensures var a := Xor(first, last);
            var bits := BitsOf(a);
            BitsOf(Mask(true, first, last)) == bits[1..] + [bits[0]] <==>
              forall k :: 0 <= k < |a| ==> (a[After(|a|, k)] >= 128 ==> a[k] % 128 == 127)
  {
    hide BitsOf, Mask, OrByte, Carry, Double, Xor;
    var a := Xor(first, last);
    var m, m' := Mask(true, first, last), Mask(false, first, last);
    MaskIsRotation(first, last);
    if BitsOf(m) == BitsOf(m') { BytesFromBits(m, m'); }
    forall k | 0 <= k < |a|
      ensures m[k] == m'[k] <==> (a[After(|a|, k)] >= 128 ==> a[k] % 128 == 127)
    {
      MaskAt(true, first, last, k);
      MaskAt(false, first, last, k);
      SignHarmless(a[k], a[After(|a|, k)]);
    }
    assert |m| == |a| == |m'|;
    assert (forall k :: 0 <= k < |a| ==> m[k] == m'[k]) <==> m == m';
  }

  // ---------- the passes ----------

  /** Every block with the mask added. */
  function MaskAll(m: Bytes, s: Bytes): (r: Bytes)
    requires |m| > 0
    decreases |s|
  {
    if |s| < |m| then [] else Xor(s[..|m|], m) + MaskAll(m, s[|m|..])
  }

  function FirstBlock(size: nat, s: Bytes): (b: Bytes)
    ensures |b| == size
  {
    if |s| < size then Zeros(size) else s[..size]
  }

  function LastBlock(size: nat, s: Bytes): (b: Bytes)
    requires |s| >= size
    ensures |b| == size
  {
    s[|s| - size..]
  }

  /** The third pass, from the last block to the first: each block encrypted, and what the block
      after it was before the pass added. */
  function Back(c: Cipher, s: Bytes): Bytes
    requires c.Valid()
    decreases |s|
  {
    if |s| < c.size then []
    else Xor(c.Enc(s[..c.size]), FirstBlock(c.size, s[c.size..])) + Back(c, s[c.size..])
  }

  /** The first pass of decryption. */
  function Unback(c: Cipher, t: Bytes): Bytes
    requires c.Valid()
    decreases |t|
  {
    if |t| < c.size then []
    else
      var rest := Unback(c, t[c.size..]);
      c.Dec(Xor(t[..c.size], FirstBlock(c.size, rest))) + rest
  }

  function Encryption(signed: bool, c: Cipher, s: Bytes): Bytes
    requires c.Valid() && |Chained(c, Zeros(c.size), s)| >= c.size
  {
    var u := Chained(c, Zeros(c.size), s);
    Back(c, MaskAll(Mask(signed, FirstBlock(c.size, u), LastBlock(c.size, u)), u))
  }

  function Decryption(signed: bool, c: Cipher, t: Bytes): Bytes
    requires c.Valid() && |Unback(c, t)| >= c.size
  {
    var w := Unback(c, t);
    Unchained(c, Zeros(c.size), MaskAll(Mask(signed, FirstBlock(c.size, w), LastBlock(c.size, w)), w))
  }

  // ---------- lengths ----------

  lemma {:induction false} LengthOfChained(c: Cipher, iv: Bytes, s: Bytes)
    requires c.Valid() && |iv| == c.size && Multiple(c.size, |s|)
    ensures |Chained(c, iv, s)| == |s| && Leftover(c.size, s) == []
    decreases |s|
  {
    if |s| >= c.size { LengthOfChained(c, c.Enc(Xor(s[..c.size], iv)), s[c.size..]); }
  }

  lemma {:induction false} LengthOfMaskAll(m: Bytes, s: Bytes)
    requires |m| > 0 && Multiple(|m|, |s|)
    ensures |MaskAll(m, s)| == |s|
    decreases |s|
  {
    if |s| >= |m| { LengthOfMaskAll(m, s[|m|..]); }
  }

  lemma {:induction false} LengthOfBack(c: Cipher, s: Bytes)
    requires c.Valid() && Multiple(c.size, |s|)
    ensures |Back(c, s)| == |s| == |Unback(c, s)|
    decreases |s|
  {
    if |s| >= c.size { LengthOfBack(c, s[c.size..]); }
  }

  // ---------- what each pass undoes ----------

  lemma {:induction false} MaskAllTwice(m: Bytes, s: Bytes)
    requires |m| > 0 && Multiple(|m|, |s|)
    ensures MaskAll(m, MaskAll(m, s)) == s
    decreases |s|
  {
    hide Xor, MaskAll;
    if |s| >= |m| {
      var first, rest := s[..|m|], s[|m|..];
      assert s == first + rest;
      MaskAllFirst(m, first, rest);
      MaskAllFirst(m, Xor(first, m), MaskAll(m, rest));
      XorTwice(first, m);
      MaskAllTwice(m, rest);
    } else {
      MaskAllOfFew(m, s);
    }
  }

  lemma {:induction false} MaskAllOfFew(m: Bytes, s: Bytes)
    requires |s| < |m|
    ensures MaskAll(m, s) == []
  {
  }

  lemma {:induction false} MaskAllFirst(m: Bytes, b: Bytes, s: Bytes)
    requires |b| == |m| > 0
    ensures MaskAll(m, b + s) == Xor(b, m) + MaskAll(m, s)
  {
    assert (b + s)[..|m|] == b && (b + s)[|m|..] == s;
  }

  lemma {:induction false} MaskedEnds(m: Bytes, s: Bytes)
    requires |m| > 0 && Multiple(|m|, |s|) && |s| >= |m|
    ensures |MaskAll(m, s)| == |s|
    ensures FirstBlock(|m|, MaskAll(m, s)) == Xor(FirstBlock(|m|, s), m)
    ensures LastBlock(|m|, MaskAll(m, s)) == Xor(LastBlock(|m|, s), m)
    decreases |s|
  {
    hide Xor;
    LengthOfMaskAll(m, s);
    var b, rest := Xor(s[..|m|], m), MaskAll(m, s[|m|..]);
    assert MaskAll(m, s) == b + rest;
    if |s| == |m| {
      assert rest == [] && s[..|m|] == s;
    } else {
      MaskedEnds(m, s[|m|..]);
      assert LastBlock(|m|, b + rest) == LastBlock(|m|, rest);
      assert LastBlock(|m|, s) == LastBlock(|m|, s[|m|..]);
    }
  }

  lemma {:induction false} UnbackInvertsBack(c: Cipher, s: Bytes)
    requires c.Valid() && Multiple(c.size, |s|)
    ensures Unback(c, Back(c, s)) == s
    decreases |s|
  {
    if |s| >= c.size {
      hide Xor;
      var rest := s[c.size..];
      var b := Xor(c.Enc(s[..c.size]), FirstBlock(c.size, rest));
      UnbackInvertsBack(c, rest);
      UnbackFirst(c, b, Back(c, rest));
      XorTwice(c.Enc(s[..c.size]), FirstBlock(c.size, rest));
      DecEnc(c, s[..c.size]);
      assert s == s[..c.size] + rest;
    }
  }

  lemma {:induction false} UnbackFirst(c: Cipher, b: Bytes, t: Bytes)
    requires c.Valid() && |b| == c.size
    ensures Unback(c, b + t) == c.Dec(Xor(b, FirstBlock(c.size, Unback(c, t)))) + Unback(c, t)
  {
    assert (b + t)[..c.size] == b && (b + t)[c.size..] == t;
  }

  lemma {:induction false} XorOfMasked(a: Bytes, b: Bytes, m: Bytes)
    requires |a| == |b| == |m|
    ensures Xor(Xor(a, m), Xor(b, m)) == Xor(a, b)
  {
    forall i | 0 <= i < |a|
      ensures XorByte(XorByte(a[i], m[i]), XorByte(b[i], m[i])) == XorByte(a[i], b[i])
    {
      XorCommutes(b[i], m[i]);
      XorAssociates(XorByte(a[i], m[i]), m[i], b[i]);
      XorCancels(a[i], m[i]);
    }
  }

  /** The mask that decryption computes from the masked blocks is the one encryption added. */
  lemma {:induction false} SameMask(signed: bool, u: Bytes, size: nat)
    requires size > 0 && Multiple(size, |u|) && |u| >= size
    ensures var m := Mask(signed, FirstBlock(size, u), LastBlock(size, u));
            && |MaskAll(m, u)| == |u|
            && Mask(signed, FirstBlock(size, MaskAll(m, u)), LastBlock(size, MaskAll(m, u))) == m
  {
    hide MaskAll, Doubled, FirstBlock, LastBlock, Xor;
    var m := Mask(signed, FirstBlock(size, u), LastBlock(size, u));
    MaskedEnds(m, u);
    XorOfMasked(FirstBlock(size, u), LastBlock(size, u), m);
  }

  /** Decryption undoes encryption on every nonempty message of whole blocks. */
  lemma {:induction false} DecryptionInvertsEncryption(signed: bool, c: Cipher, s: Bytes)
    requires c.Valid() && s != [] && Multiple(c.size, |s|)
    ensures |Chained(c, Zeros(c.size), s)| >= c.size
    ensures |Encryption(signed, c, s)| == |s|
    ensures |Unback(c, Encryption(signed, c, s))| >= c.size
    ensures Decryption(signed, c, Encryption(signed, c, s)) == s
  {
    hide Chained, Unchained, MaskAll, Back, Unback, Mask, Xor, FirstBlock, LastBlock, Zeros;
    LengthOfChained(c, Zeros(c.size), s);
    var u := Chained(c, Zeros(c.size), s);
    var m := Mask(signed, FirstBlock(c.size, u), LastBlock(c.size, u));
    SameMask(signed, u, c.size);
    var w := MaskAll(m, u);
    LengthOfBack(c, w);
    UnbackInvertsBack(c, w);
    MaskAllTwice(m, u);
    UnchainedInvertsChained(c, Zeros(c.size), s);
    assert Unchained(c, Zeros(c.size), u) + [] == s;
  }

  // ---------- the loops ----------

  /** The first pass of cmc_encrypt. */
  method ChainPass(c: Cipher, pt: Bytes, buf: array<Byte>)
    requires c.Valid() && Multiple(c.size, |pt|) && buf.Length == |pt|
    modifies buf
    ensures buf[..] == Chained(c, Zeros(c.size), pt)
  {
    hide Chained, Xor, Splice, Leftover;
    var x := Zeros(c.size);
    var i := 0;
    assert pt[0..] == pt && buf[..0] == [] && [] + Chained(c, x, pt) == Chained(c, x, pt);
    while i < |pt|
      invariant 0 <= i <= |pt| && Multiple(c.size, |pt| - i) && |x| == c.size
      invariant buf[..i] + Chained(c, x, pt[i..]) == Chained(c, Zeros(c.size), pt)
    {
      ghost var before := buf[..];
      ChainedNext(c, x, pt, i, buf[..i]);
      var y := XorBlock(pt[i..i + c.size], x);
      x := c.Enc(y);
      Store(buf, i, x);
      SpliceParts(before, i, x);
      i := i + c.size;
      assert buf[..i] == buf[..][..i];
    }
    ChainedOfFew(c, x, pt[i..]);
    assert buf[..i] + [] == buf[..];
  }

  /** The second pass, the same in both directions. */
  method MaskPass(m: Bytes, buf: array<Byte>)
    requires |m| > 0 && Multiple(|m|, buf.Length)
    modifies buf
    ensures buf[..] == MaskAll(m, old(buf[..]))
  {
    hide MaskAll, Xor, Splice;
    ghost var s := buf[..];
    var i := 0;
    assert s[0..] == s && buf[..0] == [] && [] + MaskAll(m, s) == MaskAll(m, s);
    while i < buf.Length
      invariant 0 <= i <= buf.Length && Multiple(|m|, buf.Length - i)
      invariant buf[i..] == s[i..]
      invariant buf[..i] + MaskAll(m, s[i..]) == MaskAll(m, s)
    {
      ghost var before := buf[..];
      MaskNext(m, s, i, buf[..i]);
      assert before[i..] == buf[i..];
      SameTail(before, s, i, i + |m|);
      MaskBlock(m, buf, i);
      SpliceParts(before, i, Xor(s[i..i + |m|], m));
      i := i + |m|;
      assert buf[..i] == buf[..][..i] && buf[i..] == buf[..][i..];
    }
    MaskAllOfFew(m, s[i..]);
    assert buf[..i] + [] == buf[..];
  }

  lemma {:induction false} MaskNext(m: Bytes, s: Bytes, i: nat, done: Bytes)
    requires |m| > 0 && i + |m| <= |s|
    ensures done + MaskAll(m, s[i..]) == done + Xor(s[i..i + |m|], m) + MaskAll(m, s[i + |m|..])
  {
    hide Xor;
    assert s[i..][..|m|] == s[i..i + |m|] && s[i..][|m|..] == s[i + |m|..];
  }

  method MaskBlock(m: Bytes, buf: array<Byte>, i: nat)
    requires i + |m| <= buf.Length
    modifies buf
    ensures buf[..] == Splice(old(buf[..]), i, Xor(old(buf[i..i + |m|]), m))
  {
    ghost var s := buf[..];
    for j := 0 to |m|
      invariant forall k :: 0 <= k < buf.Length ==>
                  buf[k] == if i <= k < i + j then XorByte(s[k], m[k - i]) else s[k]
    {
      buf[i + j] := XorByte(buf[i + j], m[j]);
    }
  }

  /** The third pass of cmc_encrypt, in place from the last block to the first. */
  method BackPass(c: Cipher, buf: array<Byte>)
    requires c.Valid() && Multiple(c.size, buf.Length)
    modifies buf
    ensures buf[..] == Back(c, old(buf[..]))
  {
    hide Back, Xor, Splice, FirstBlock;
    ghost var s := buf[..];
    var x := Zeros(c.size);
    var i := buf.Length;
    BackOfFew(c, s[i..]);
    while i != 0
      invariant 0 <= i <= buf.Length && Multiple(c.size, i) && |x| == c.size
      invariant buf[..i] == s[..i] && buf[i..] == Back(c, s[i..])
      invariant x == FirstBlock(c.size, s[i..])
    {
      ghost var before := buf[..];
      var block := buf[i - c.size..i];
      assert block == buf[..i][i - c.size..] == s[i - c.size..i];
      assert before[..i] == s[..i] && before[i..] == buf[i..];
      var y := c.Enc(block);
      var z := XorBlock(y, x);
      BackNext(c, s, i);
      x := block;
      i := i - c.size;
      Store(buf, i, z);
      SpliceParts(before, i, z);
      SameShorter(before, s, i, i + c.size);
      assert buf[..i] == buf[..][..i] && buf[i..] == buf[..][i..];
    }
    assert s[0..] == s;
  }

  lemma {:induction false} BackOfFew(c: Cipher, s: Bytes)
    requires c.Valid() && s == []
    ensures Back(c, s) == [] == Unback(c, s) && FirstBlock(c.size, s) == Zeros(c.size)
  {
  }

  lemma {:induction false} BackNext(c: Cipher, s: Bytes, i: nat)
    requires c.Valid() && c.size <= i <= |s|
    ensures Back(c, s[i - c.size..]) == Xor(c.Enc(s[i - c.size..i]), FirstBlock(c.size, s[i..])) + Back(c, s[i..])
    ensures Unback(c, s[i - c.size..]) ==
            c.Dec(Xor(s[i - c.size..i], FirstBlock(c.size, Unback(c, s[i..])))) + Unback(c, s[i..])
    ensures FirstBlock(c.size, s[i - c.size..]) == s[i - c.size..i]
  {
    hide Xor;
    assert s[i - c.size..][..c.size] == s[i - c.size..i] && s[i - c.size..][c.size..] == s[i..];
  }

  /** The first pass of cmc_decrypt, from the last block to the first. */
  method UnbackPass(c: Cipher, ct: Bytes, buf: array<Byte>)
    requires c.Valid() && Multiple(c.size, |ct|) && buf.Length == |ct|
    modifies buf
    ensures buf[..] == Unback(c, ct)
  {
    hide Back, Unback, Xor, Splice, FirstBlock;
    var x := Zeros(c.size);
    var i := |ct|;
    BackOfFew(c, ct[i..]);
    while i != 0
      invariant 0 <= i <= |ct| && Multiple(c.size, i) && |x| == c.size
      invariant buf[i..] == Unback(c, ct[i..])
      invariant x == FirstBlock(c.size, buf[i..])
    {
      ghost var before := buf[..];
      assert before[i..] == buf[i..];
      var y := XorBlock(ct[i - c.size..i], x);
      BackNext(c, ct, i);
      i := i - c.size;
      x := c.Dec(y);
      Store(buf, i, x);
      SpliceParts(before, i, x);
      assert buf[i..] == buf[..][i..] == x + before[i + c.size..];
      FirstOf(c.size, x, before[i + c.size..]);
    }
    assert ct[0..] == ct;
  }

  lemma {:induction false} FirstOf(size: nat, x: Bytes, s: Bytes)
    requires |x| == size
    ensures FirstBlock(size, x + s) == x
  {
  }

  /** The third pass of cmc_decrypt, in place. */
  method UnchainPass(c: Cipher, buf: array<Byte>)
    requires c.Valid() && Multiple(c.size, buf.Length)
    modifies buf
    ensures buf[..] == Unchained(c, Zeros(c.size), old(buf[..]))
  {
    hide Unchained, Xor, Splice, Leftover;
    ghost var s := buf[..];
    var x := Zeros(c.size);
    var i := 0;
    assert s[0..] == s && buf[..0] == [] && [] + Unchained(c, x, s) == Unchained(c, x, s);
    while i < buf.Length
      invariant 0 <= i <= buf.Length && Multiple(c.size, buf.Length - i) && |x| == c.size
      invariant buf[i..] == s[i..]
      invariant buf[..i] + Unchained(c, x, s[i..]) == Unchained(c, Zeros(c.size), s)
    {
      ghost var before := buf[..];
      UnchainedNext(c, x, s, i, buf[..i]);
      var block := buf[i..i + c.size];
      assert before[i..] == buf[i..];
      SameTail(before, s, i, i + c.size);
      var y := c.Dec(block);
      var z := XorBlock(y, x);
      x := block;
      Store(buf, i, z);
      SpliceParts(before, i, z);
      i := i + c.size;
      assert buf[..i] == buf[..][..i] && buf[i..] == buf[..][i..];
    }
    ChainedOfFew(c, x, s[i..]);
    assert buf[..i] + [] == buf[..];
  }

  /** cmc_encrypt: throws (null) unless the message is whole blocks. The empty message has no first
      and last block to make a mask from. */
  method Encrypt(signed: bool, c: Cipher, pt: Bytes) returns (ct: array?<Byte>)
    requires c.Valid() && pt != []
    ensures ct == null <==> |pt| % c.size != 0
    ensures ct != null ==> fresh(ct) && |Chained(c, Zeros(c.size), pt)| >= c.size && ct[..] == Encryption(signed, c, pt)
  {
    MultipleIs(c.size, |pt|);
    if |pt| % c.size != 0 { return null; }
    ct := new Byte[|pt|](_ => 0);
    EncryptInto(signed, c, pt, ct);
  }

  method EncryptInto(signed: bool, c: Cipher, pt: Bytes, ct: array<Byte>)
    requires c.Valid() && pt != [] && Multiple(c.size, |pt|) && ct.Length == |pt|
    modifies ct
    ensures |Chained(c, Zeros(c.size), pt)| >= c.size && ct[..] == Encryption(signed, c, pt)
  {
    hide Chained, MaskAll, Back, Mask, Zeros;
    ChainPass(c, pt, ct);
    assert ct[..c.size] == ct[..][..c.size] && ct[|pt| - c.size..] == ct[..][|pt| - c.size..];
    var m := MakeMask(signed, ct[..c.size], ct[|pt| - c.size..]);
    MaskPass(m, ct);
    BackPass(c, ct);
  }

  /** cmc_decrypt. */
  method Decrypt(signed: bool, c: Cipher, ct: Bytes) returns (pt: array?<Byte>)
    requires c.Valid() && ct != []
    ensures pt == null <==> |ct| % c.size != 0
    ensures pt != null ==> fresh(pt) && |Unback(c, ct)| >= c.size && pt[..] == Decryption(signed, c, ct)
  {
    MultipleIs(c.size, |ct|);
    if |ct| % c.size != 0 { return null; }
    pt := new Byte[|ct|](_ => 0);
    DecryptInto(signed, c, ct, pt);
  }

  method DecryptInto(signed: bool, c: Cipher, ct: Bytes, pt: array<Byte>)
    requires c.Valid() && ct != [] && Multiple(c.size, |ct|) && pt.Length == |ct|
    modifies pt
    ensures |Unback(c, ct)| >= c.size && pt[..] == Decryption(signed, c, ct)
  {
    hide Unchained, MaskAll, Unback, Mask, Zeros;
    UnbackPass(c, ct, pt);
    assert pt[..c.size] == pt[..][..c.size] && pt[|ct| - c.size..] == pt[..][|ct| - c.size..];
    var m := MakeMask(signed, pt[..c.size], pt[|ct| - c.size..]);
    MaskPass(m, pt);
    UnchainPass(c, pt);
  }
}
