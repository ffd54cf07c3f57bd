/** CBC and CMC block by block: which blocks of the message and of the ciphertext make each block of
    the ciphertext (crypto/cbc.hh, crypto/cmc.hh). */
module ModeLaws {
  import opened Bits
  import opened Blocks
  import opened Cmc
  import Cbc

  /** The block at position i, which is whole. */
  function At(size: nat, s: Bytes, i: nat): (b: Bytes)
    requires i + size <= |s|
    ensures |b| == size
  {
    s[i..i + size]
  }

  // ---------- cipher block chaining ----------

  lemma {:induction false} MultipleBelow(size: nat, i: nat)
    requires size > 0 && Multiple(size, i) && i > 0
    ensures i >= size && Multiple(size, i - size)
  {
  }

  lemma {:induction false} AtRest(size: nat, s: Bytes, i: nat)
    requires size <= i && i + size <= |s|
    ensures At(size, s, i) == At(size, s[size..], i - size)
  {
  }

  lemma {:induction false} AtJoined(size: nat, y: Bytes, t: Bytes, i: nat)
    requires |y| == size && i + size <= |t|
    ensures At(size, y + t, i + size) == At(size, t, i)
  {
  }

  /** Each block of the chained text is the encryption of the message block added to the block of the
      chained text before it; the first one is added to the initial vector. */
  lemma {:induction false} ChainedAt(c: Cipher, iv: Bytes, s: Bytes, i: nat)
    requires c.Valid() && |iv| == c.size && Multiple(c.size, i) && i + c.size <= |s|
    ensures var t := Chained(c, iv, s);
            && |t| >= i + c.size
            && At(c.size, t, i) ==
               c.Enc(Xor(At(c.size, s, i), if i == 0 then iv else At(c.size, t, i - c.size)))
    decreases |s|
  {
    hide Xor, Chained;
    var y := c.Enc(Xor(s[..c.size], iv));
    ChainedFirst(c, iv, s);
    if i > 0 {
      MultipleBelow(c.size, i);
      ChainedAt(c, y, s[c.size..], i - c.size);
      AtRest(c.size, s, i);
      AtJoined(c.size, y, Chained(c, y, s[c.size..]), i - c.size);
      if i > c.size {
        MultipleBelow(c.size, i - c.size);
        AtJoined(c.size, y, Chained(c, y, s[c.size..]), i - 2 * c.size);
      }
    }
  }

  lemma {:induction false} ChainedFirst(c: Cipher, iv: Bytes, s: Bytes)
    requires c.Valid() && |iv| == c.size <= |s|
    ensures var y := c.Enc(Xor(s[..c.size], iv));
            Chained(c, iv, s) == y + Chained(c, y, s[c.size..]) && At(c.size, Chained(c, iv, s), 0) == y
  {
  }

  /** A message of whole blocks is encrypted by chaining alone. Otherwise all whole blocks but the last
      are; the last one, cut to the number of bytes left over, comes at the end, and in its place stands
      the encryption of the bytes left over, filled up with zeros and added to it. */
  lemma {:induction false} CiphertextLayout(c: Cipher, iv: Bytes, s: Bytes, k: nat)
    requires c.Valid() && |iv| == c.size && Multiple(c.size, k) && c.size <= k <= |s| < k + c.size
    ensures var e, t, r := Cbc.Encryption(c, iv, s), Chained(c, iv, s), |s| - k;
            && |e| == |s| && |t| == k
            && (r == 0 ==> e == t)
            && (r > 0 ==>
                  && e[..k - c.size] == t[..k - c.size]
                  && e[k - c.size..k] == c.Enc(Xor(s[k..] + Zeros(c.size - r), t[k - c.size..]))
                  && e[k..] == t[k - c.size..][..r])
  {
    hide Xor, Chained, Cbc.Encryption, Cbc.Stolen, Cbc.Padded;
    LeftoverIs(c, iv, s, k);
    Cbc.EncryptionByLoop(c, iv, s);
    Cbc.EncryptionLength(c, iv, s);
    StolenLayout(c, Chained(c, iv, s), s[k..]);
  }

  lemma {:induction false} StolenLayout(c: Cipher, t: Bytes, r: Bytes)
    requires c.Valid() && |r| < c.size <= |t|
    ensures r == [] ==> Cbc.Stolen(c, t, r) == t
    ensures var e, k := Cbc.Stolen(c, t, r), |t|;
            && |e| == |t| + |r|
            && (r != [] ==>
                  && e[..k - c.size] == t[..k - c.size]
                  && e[k - c.size..k] == c.Enc(Xor(r + Zeros(c.size - |r|), t[k - c.size..]))
                  && e[k..] == t[k - c.size..][..|r|])
  {
    hide Xor;
    var k := |t|;
    if r == [] {
      assert t[..k - c.size] + t[k - c.size..] == t;
    } else {
      ThreeParts(t[..k - c.size], c.Enc(Xor(r + Zeros(c.size - |r|), t[k - c.size..])), t[k - c.size..][..|r|]);
    }
  }

  lemma {:induction false} ThreeParts(a: Bytes, b: Bytes, d: Bytes)
    ensures var e := a + (b + d); e[..|a|] == a && e[|a|..|a| + |b|] == b && e[|a| + |b|..] == d
  {
  }

  lemma {:induction false} LeftoverIs(c: Cipher, iv: Bytes, s: Bytes, k: nat)
    requires c.Valid() && |iv| == c.size && Multiple(c.size, k) && k <= |s| < k + c.size
    ensures |Chained(c, iv, s)| == k && Leftover(c.size, s) == s[k..]
    decreases |s|
  {
    hide Xor;
    if k > 0 {
      LeftoverIs(c, c.Enc(Xor(s[..c.size], iv)), s[c.size..], k - c.size);
      assert s[c.size..][k - c.size..] == s[k..];
    } else {
      ChainedOfFew(c, iv, s);
    }
  }

  // ---------- CMC ----------

  lemma {:induction false} MaskedAt(m: Bytes, s: Bytes, i: nat)
    requires |m| > 0 && Multiple(|m|, i) && i + |m| <= |s|
    ensures |MaskAll(m, s)| >= i + |m| && At(|m|, MaskAll(m, s), i) == Xor(At(|m|, s, i), m)
    decreases |s|
  {
    hide Xor;
    var b, rest := Xor(s[..|m|], m), MaskAll(m, s[|m|..]);
    assert MaskAll(m, s) == b + rest;
    if i > 0 {
      MaskedAt(m, s[|m|..], i - |m|);
      AtRest(|m|, s, i);
      AtJoined(|m|, b, rest, i - |m|);
    } else {
      assert At(|m|, b + rest, 0) == b;
    }
  }

  /** A block that is not the last one is followed by a whole block. */
  lemma {:induction false} NextFits(size: nat, n: nat, i: nat)
    requires size > 0 && Multiple(size, n) && Multiple(size, i) && i < n
    ensures i + size <= n && (i + size < n ==> i + 2 * size <= n)
    decreases i
  {
    if i > 0 { NextFits(size, n - size, i - size); }
  }

  /** What the third pass makes of the block at i. */
  function BackBlock(c: Cipher, s: Bytes, i: nat): Bytes
    requires c.Valid() && i + c.size <= |s| && (i + c.size < |s| ==> i + 2 * c.size <= |s|)
  {
    Xor(c.Enc(At(c.size, s, i)), if i + c.size < |s| then At(c.size, s, i + c.size) else Zeros(c.size))
  }

  lemma {:induction false} BackBlockRest(c: Cipher, s: Bytes, i: nat)
    requires c.Valid() && c.size <= i && i + c.size <= |s| && (i + c.size < |s| ==> i + 2 * c.size <= |s|)
    ensures BackBlock(c, s, i) == BackBlock(c, s[c.size..], i - c.size)
  {
    hide At, Xor;
    AtRest(c.size, s, i);
    if i + c.size < |s| { AtRest(c.size, s, i + c.size); }
  }

  lemma {:induction false} BackAt(c: Cipher, s: Bytes, i: nat)
    requires c.Valid() && Multiple(c.size, |s|) && Multiple(c.size, i) && i < |s|
    ensures |Back(c, s)| == |s| && i + c.size <= |s| && (i + c.size < |s| ==> i + 2 * c.size <= |s|)
    ensures At(c.size, Back(c, s), i) == BackBlock(c, s, i)
    decreases |s|
  {
    hide Xor, Back, At, BackBlock;
    LengthOfBack(c, s);
    NextFits(c.size, |s|, i);
    BackFirst(c, s);
    if i > 0 {
      MultipleBelow(c.size, i);
      MultipleBelow(c.size, |s|);
      BackAt(c, s[c.size..], i - c.size);
      BackBlockRest(c, s, i);
      var b := Xor(c.Enc(s[..c.size]), FirstBlock(c.size, s[c.size..]));
      AtJoined(c.size, b, Back(c, s[c.size..]), i - c.size);
    }
  }

  lemma {:induction false} BackFirst(c: Cipher, s: Bytes)
    requires c.Valid() && |s| >= c.size && (c.size < |s| ==> 2 * c.size <= |s|)
    ensures var b := Xor(c.Enc(s[..c.size]), FirstBlock(c.size, s[c.size..]));
            Back(c, s) == b + Back(c, s[c.size..]) && At(c.size, Back(c, s), 0) == b == BackBlock(c, s, 0)
  {
    hide Xor;
    if c.size < |s| { assert At(c.size, s, c.size) == s[c.size..][..c.size]; }
  }

  /** Block by block: with the chained text u of a zero vector, the mask of its first and last block,
      and w for a block of u added to the mask, each ciphertext block is the encryption of its w added
      to the w of the next block; the last one is added to nothing. */
  lemma {:induction false} CmcBlock(signed: bool, c: Cipher, s: Bytes, i: nat)
    requires c.Valid() && Multiple(c.size, |s|) && Multiple(c.size, i) && i < |s|
    ensures var u := Chained(c, Zeros(c.size), s);
            && |u| == |s| && i + c.size <= |s| && (i + c.size < |s| ==> i + 2 * c.size <= |s|)
            && var m, e := Mask(signed, u[..c.size], u[|u| - c.size..]), Cmc.Encryption(signed, c, s);
               && |e| == |s|
               && At(c.size, e, i) ==
                  Xor(c.Enc(Xor(At(c.size, u, i), m)),
                      if i + c.size < |s| then Xor(At(c.size, u, i + c.size), m) else Zeros(c.size))
  {
    hide Xor, Back, Chained, MaskAll, Mask, At;
    LengthOfChained(c, Zeros(c.size), s);
    var u := Chained(c, Zeros(c.size), s);
    var m := Mask(signed, u[..c.size], u[|u| - c.size..]);
    var w := MaskAll(m, u);
    LengthOfMaskAll(m, u);
    NextFits(c.size, |s|, i);
    BackAt(c, w, i);
    MaskedAt(m, u, i);
    if i + c.size < |s| {
      NextMultiple(c.size, i);
      MaskedAt(m, u, i + c.size);
    }
  }

  lemma {:induction false} NextMultiple(size: nat, i: nat)
    requires size > 0 && Multiple(size, i)
    ensures Multiple(size, i + size)
  {
  }
}
