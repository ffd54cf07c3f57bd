/** CBC with ciphertext stealing (crypto/cbc.hh): messages of any length from one block up. */
module Cbc {
  import opened Bits
  import opened Blocks

  function Padded(size: nat, r: Bytes): (p: Bytes)
    requires |r| <= size
    ensures |p| == size
  {
    r + Zeros(size - |r|)
  }

  /** The ciphertext: chained blocks, except that a partial last block is padded and encrypted
      in the place of the block before it, which is cut to the partial length and moved last. */
  function Encryption(c: Cipher, iv: Bytes, s: Bytes): Bytes
    requires c.Valid() && |iv| == c.size && |s| >= c.size
    decreases |s|
  {
    var y := c.Enc(Xor(s[..c.size], iv));
    var rest := s[c.size..];
    if rest == [] then y
    else if |rest| < c.size then c.Enc(Xor(Padded(c.size, rest), y)) + y[..|rest|]
    else y + Encryption(c, y, rest)
  }

  function Decryption(c: Cipher, iv: Bytes, t: Bytes): Bytes
    requires c.Valid() && |iv| == c.size && |t| >= c.size
    decreases |t|
  {
    var x := c.Dec(t[..c.size]);
    var rest := t[c.size..];
    if rest == [] then Xor(x, iv)
    else if |rest| < c.size then
      var previous := rest + x[|rest|..];
      Xor(c.Dec(previous), iv) + Xor(x, previous)[..|rest|]
    else Xor(x, iv) + Decryption(c, t[..c.size], rest)
  }

  lemma {:induction false} EncryptionLength(c: Cipher, iv: Bytes, s: Bytes)
    requires c.Valid() && |iv| == c.size && |s| >= c.size
    ensures |Encryption(c, iv, s)| == |s|
    decreases |s|
  {
    if |s| >= 2 * c.size { EncryptionLength(c, c.Enc(Xor(s[..c.size], iv)), s[c.size..]); }
  }

  /** Decrypting undoes encrypting at every length of at least one block. */
  lemma {:induction false} DecryptionInvertsEncryption(c: Cipher, iv: Bytes, s: Bytes)
    requires c.Valid() && |iv| == c.size && |s| >= c.size
    ensures |Encryption(c, iv, s)| == |s|
    ensures Decryption(c, iv, Encryption(c, iv, s)) == s
    decreases |s|
  {
    hide Encryption, Decryption, Xor;
    EncryptionLength(c, iv, s);
    if |s| == c.size {
      OneBlock(c, iv, s);
    } else if |s| < 2 * c.size {
      StolenBlock(c, iv, s);
    } else {
      var y := c.Enc(Xor(s[..c.size], iv));
      EncryptionLength(c, y, s[c.size..]);
      DecryptionInvertsEncryption(c, y, s[c.size..]);
      EncryptionFirst(c, iv, s);
      DecryptionFirst(c, iv, y, Encryption(c, y, s[c.size..]));
      UndoesBlock(c, iv, s[..c.size]);
      assert s == s[..c.size] + s[c.size..];
    }
  }

  lemma {:induction false} EncryptionFirst(c: Cipher, iv: Bytes, s: Bytes)
    requires c.Valid() && |iv| == c.size && |s| >= 2 * c.size
    ensures Encryption(c, iv, s) ==
            c.Enc(Xor(s[..c.size], iv)) + Encryption(c, c.Enc(Xor(s[..c.size], iv)), s[c.size..])
  {
  }

  lemma {:induction false} DecryptionFirst(c: Cipher, iv: Bytes, y: Bytes, t: Bytes)
    requires c.Valid() && |iv| == |y| == c.size && |t| >= c.size
    ensures Decryption(c, iv, y + t) == Xor(c.Dec(y), iv) + Decryption(c, y, t)
  {
    assert (y + t)[..c.size] == y && (y + t)[c.size..] == t;
  }

  lemma {:induction false} DecryptionRest(c: Cipher, iv: Bytes, t: Bytes)
    requires c.Valid() && |iv| == c.size && |t| >= 2 * c.size
    ensures Decryption(c, iv, t) == Xor(c.Dec(t[..c.size]), iv) + Decryption(c, t[..c.size], t[c.size..])
  {
    hide Decryption;
    assert t[..c.size] + t[c.size..] == t;
    DecryptionFirst(c, iv, t[..c.size], t[c.size..]);
  }

  lemma {:induction false} UndoesBlock(c: Cipher, iv: Bytes, b: Bytes)
    requires c.Valid() && |iv| == |b| == c.size
    ensures Xor(c.Dec(c.Enc(Xor(b, iv))), iv) == b
  {
    DecEnc(c, Xor(b, iv));
    XorTwice(b, iv);
  }

  lemma {:induction false} OneBlock(c: Cipher, iv: Bytes, s: Bytes)
    requires c.Valid() && |iv| == c.size == |s|
    ensures Decryption(c, iv, Encryption(c, iv, s)) == s
  {
    hide Xor;
    UndoesBlock(c, iv, s);
    assert s[..c.size] == s;
    var t := Encryption(c, iv, s);
    assert t[..c.size] == t;
  }

  /** The stolen bytes are recovered from the padding: it was zero. */
  lemma {:induction false} DecryptionOfTwo(c: Cipher, iv: Bytes, a: Bytes, b: Bytes)
    requires c.Valid() && |iv| == |a| == c.size && 0 < |b| < c.size
    ensures var x := c.Dec(a); var previous := b + x[|b|..];
            Decryption(c, iv, a + b) == Xor(c.Dec(previous), iv) + Xor(x, previous)[..|b|]
  {
    assert (a + b)[..c.size] == a && (a + b)[c.size..] == b;
  }

  lemma {:induction false} StolenBlock(c: Cipher, iv: Bytes, s: Bytes)
    requires c.Valid() && |iv| == c.size && c.size < |s| < 2 * c.size
    ensures Decryption(c, iv, Encryption(c, iv, s)) == s
  {
    hide Xor, Decryption, Padded;
    var b, r := s[..c.size], s[c.size..];
    var y, p := c.Enc(Xor(b, iv)), Padded(c.size, r);
    var x := Xor(p, y);
    DecryptionOfTwo(c, iv, c.Enc(x), y[..|r|]);
    DecEnc(c, x);
    PaddingReveals(r, c.size, y);
    XorTwice(p, y);
    UndoesBlock(c, iv, b);
  }

  /** The padding shows the bytes that were cut from the block before. */
  lemma {:induction false} PaddingReveals(r: Bytes, size: nat, y: Bytes)
    requires |r| <= size == |y|
    ensures y[..|r|] + Xor(Padded(size, r), y)[|r|..] == y && Padded(size, r)[..|r|] == r
  {
    var p := Padded(size, r);
    assert p[|r|..] == Zeros(size - |r|);
    XorCut(p, y, |r|);
    XorZeros(y[|r|..]);
  }

  // ---------- the loops ----------

  /** The last block of chained ciphertext and the leftover bytes, after the stealing step. */
  function Steal(c: Cipher, last: Bytes, r: Bytes): (t: Bytes)
    requires c.Valid() && |r| < c.size == |last|
    ensures |t| == |last| + |r|
  {
    if r == [] then last else c.Enc(Xor(Padded(c.size, r), last)) + last[..|r|]
  }

  /** What the encryption loop and the stealing step leave: the chained blocks ch, with the
      leftover bytes r stolen into the last of them. */
  function Stolen(c: Cipher, ch: Bytes, r: Bytes): Bytes
    requires c.Valid() && |r| < c.size <= |ch|
  {
    ch[..|ch| - c.size] + Steal(c, ch[|ch| - c.size..], r)
  }

  lemma {:induction false} EncryptionByLoop(c: Cipher, iv: Bytes, s: Bytes)
    requires c.Valid() && |iv| == c.size && |s| >= c.size
    requires |Chained(c, iv, s)| >= c.size
    ensures Encryption(c, iv, s) == Stolen(c, Chained(c, iv, s), Leftover(c.size, s))
    decreases |s|
  {
    hide Xor, Encryption, Stolen;
    var y, rest := c.Enc(Xor(s[..c.size], iv)), s[c.size..];
    if |rest| < c.size {
      EncryptionShort(c, iv, s);
    } else {
      ChainedLength(c, y, rest);
      EncryptionByLoop(c, y, rest);
      EncryptionFirst(c, iv, s);
      StolenAfter(c, y, Chained(c, y, rest), Leftover(c.size, rest));
    }
  }

  lemma {:induction false} EncryptionShort(c: Cipher, iv: Bytes, s: Bytes)
    requires c.Valid() && |iv| == c.size && c.size <= |s| < 2 * c.size
    ensures |Chained(c, iv, s)| == c.size
    ensures Encryption(c, iv, s) == Stolen(c, Chained(c, iv, s), Leftover(c.size, s))
  {
    hide Xor;
    var y, rest := c.Enc(Xor(s[..c.size], iv)), s[c.size..];
    assert Chained(c, iv, s) == y + Chained(c, y, rest) == y;
    assert y[|y| - c.size..] == y && y[..|y| - c.size] == [];
    assert Leftover(c.size, s) == rest;
  }

  lemma {:induction false} StolenAfter(c: Cipher, y: Bytes, ch: Bytes, r: Bytes)
    requires c.Valid() && |r| < c.size <= |ch|
    ensures Stolen(c, y + ch, r) == y + Stolen(c, ch, r)
  {
    hide Steal;
    assert (y + ch)[|y + ch| - c.size..] == ch[|ch| - c.size..];
    PrefixAfter(y, ch, |y + ch| - c.size, Steal(c, ch[|ch| - c.size..], r));
  }

  /** The last whole block and the leftover bytes of a ciphertext, decrypted; y comes before. */
  function Unsteal(c: Cipher, y: Bytes, block: Bytes, r: Bytes): (s: Bytes)
    requires c.Valid() && |y| == |block| == c.size && |r| < c.size
    ensures |s| == |block| + |r|
  {
    var last := c.Dec(block);
    var previous := r + last[|r|..];
    Xor(c.Dec(previous), y) + Xor(last, previous)[..|r|]
  }

  /** The ciphertext block before position k - c.size. */
  function Before(size: nat, iv: Bytes, t: Bytes, k: nat): (y: Bytes)
    requires |iv| == size <= k <= |t|
    ensures |y| == size
  {
    if k < 2 * size then iv else t[k - 2 * size..k - size]
  }

  /** What the decryption loop and the step after it leave. */
  function Unstolen(c: Cipher, iv: Bytes, t: Bytes, k: nat, plain: Bytes): Bytes
    requires c.Valid() && |iv| == c.size <= k <= |t| < k + c.size && |plain| == k
  {
    if k == |t| then plain
    else plain[..k - c.size] + Unsteal(c, Before(c.size, iv, t, k), t[k - c.size..k], t[k..])
  }

  /** k is the length of the whole blocks of t. */
  predicate Whole(size: nat, t: Bytes, k: nat)
    requires size > 0
    decreases |t|
  {
    if |t| < size then k == 0 else k >= size && Whole(size, t[size..], k - size)
  }

  lemma {:induction false} DecryptionByLoop(c: Cipher, iv: Bytes, t: Bytes, k: nat)
    requires c.Valid() && |iv| == c.size <= |t| && Whole(c.size, t, k) && |Unchained(c, iv, t)| == k
    requires k <= |t| < k + c.size
    ensures Decryption(c, iv, t) == Unstolen(c, iv, t, k, Unchained(c, iv, t))
    decreases |t|
  {
    hide Xor, Decryption, Unstolen;
    var first, rest := t[..c.size], t[c.size..];
    if |rest| < c.size {
      DecryptionShort(c, iv, t);
    } else {
      var plain := Unchained(c, first, rest);
      DecryptionByLoop(c, first, rest, k - c.size);
      assert first + rest == t;
      UnstolenAfter(c, iv, first, rest, k - c.size, Xor(c.Dec(first), iv), plain);
      DecryptionRest(c, iv, t);
    }
  }

  lemma {:induction false} DecryptionShort(c: Cipher, iv: Bytes, t: Bytes)
    requires c.Valid() && |iv| == c.size && c.size <= |t| < 2 * c.size && |Unchained(c, iv, t)| == c.size
    ensures Decryption(c, iv, t) == Unstolen(c, iv, t, c.size, Unchained(c, iv, t))
  {
    hide Xor;
    assert Unchained(c, iv, t) == Xor(c.Dec(t[..c.size]), iv) + Unchained(c, t[..c.size], t[c.size..]);
    assert Unchained(c, iv, t)[..0] == [];
  }

  lemma {:induction false} UnstolenAfter(c: Cipher, iv: Bytes, first: Bytes, rest: Bytes, k: nat, x: Bytes,
                                         plain: Bytes)
    requires c.Valid() && |iv| == |x| == |first| == c.size && |plain| == k
    requires k == c.size || k >= 2 * c.size
    requires k <= |rest| < k + c.size
    ensures Unstolen(c, iv, first + rest, k + c.size, x + plain) == x + Unstolen(c, first, rest, k, plain)
  {
    hide Unstolen, Unsteal, Before;
    var y, block, r := Before(c.size, first, rest, k), rest[k - c.size..k], rest[k..];
    BeforeAfter(c.size, iv, first, rest, k);
    UnstolenIs(c, iv, first + rest, k + c.size, x + plain, y, block, r);
    UnstolenIs(c, first, rest, k, plain, y, block, r);
    PrefixAfter(x, plain, k + c.size - c.size, Unsteal(c, y, block, r));
  }

  lemma {:induction false} UnstolenIs(c: Cipher, iv: Bytes, t: Bytes, k: nat, plain: Bytes, y: Bytes, block: Bytes,
                                      r: Bytes)
    requires c.Valid() && |iv| == c.size <= k <= |t| < k + c.size && |plain| == k
    requires y == Before(c.size, iv, t, k) && block == t[k - c.size..k] && r == t[k..]
    ensures Unstolen(c, iv, t, k, plain) == if r == [] then plain else plain[..k - c.size] + Unsteal(c, y, block, r)
  {
  }

  lemma {:induction false} PrefixAfter(x: Bytes, plain: Bytes, n: nat, tail: Bytes)
    requires |x| <= n && n - |x| <= |plain|
    ensures (x + plain)[..n] + tail == x + (plain[..n - |x|] + tail)
  {
    assert (x + plain)[..n] == x + plain[..n - |x|];
  }

  lemma {:induction false} BeforeAfter(size: nat, iv: Bytes, first: Bytes, rest: Bytes, k: nat)
    requires |iv| == |first| == size > 0 && (k == size || k >= 2 * size) && k <= |rest|
    ensures Before(size, iv, first + rest, k + size) == Before(size, first, rest, k)
    ensures (first + rest)[k + size - size..k + size] == rest[k - size..k] && (first + rest)[k + size..] == rest[k..]
  {
  }

  /** The block that comes before position i of a text that starts after iv. */
  function Previous(size: nat, iv: Bytes, t: Bytes, i: nat): (y: Bytes)
    requires |iv| == size && i <= |t| && (i == 0 || i >= size)
    ensures |y| == size
  {
    if i == 0 then iv else t[i - size..i]
  }

  /** The loop of cbc_encrypt; k is where it stops. */
  method EncryptBlocks(c: Cipher, iv: Bytes, pt: Bytes, ct: array<Byte>) returns (k: nat)
    requires c.Valid() && |iv| == c.size <= |pt| == ct.Length
    modifies ct
    ensures c.size <= k <= |pt| < k + c.size
    ensures ct[..k] == Chained(c, iv, pt) && Leftover(c.size, pt) == pt[k..]
  {
    hide Chained, Xor, Leftover, Splice;
    k := 0;
    assert pt[0..] == pt && ct[..0] == [] && [] + Chained(c, iv, pt) == Chained(c, iv, pt);
    while k + c.size <= |pt|
      invariant k <= |pt| && (k == 0 || k >= c.size)
      invariant ct[..k] + Chained(c, Previous(c.size, iv, ct[..], k), pt[k..]) == Chained(c, iv, pt)
      invariant Leftover(c.size, pt[k..]) == Leftover(c.size, pt)
    {
      var y := if k == 0 then iv else ct[k - c.size..k];
      ghost var before := ct[..];
      ChainedNext(c, y, pt, k, ct[..k]);
      var x := XorBlock(pt[k..k + c.size], y);
      var b := c.Enc(x);
      Store(ct, k, b);
      SpliceParts(before, k, b);
      k := k + c.size;
      assert ct[..k] == ct[..][..k] && Previous(c.size, iv, ct[..], k) == b;
    }
    ChainedOfFew(c, Previous(c.size, iv, ct[..], k), pt[k..]);
    assert ct[..k] + [] == ct[..k];
  }

  /** cbc_encrypt: throws (null) on a vector of the wrong size or a message below one block. */
  method Encrypt(c: Cipher, iv: Bytes, pt: Bytes) returns (ct: array?<Byte>)
    requires c.Valid()
    ensures ct == null <==> |iv| != c.size || |pt| < c.size
    ensures ct != null ==> fresh(ct) && ct[..] == Encryption(c, iv, pt)
  {
    if |iv| != c.size || |pt| < c.size { return null; }
    ct := new Byte[|pt|](_ => 0);
    EncryptInto(c, iv, pt, ct);
  }

  method EncryptInto(c: Cipher, iv: Bytes, pt: Bytes, ct: array<Byte>)
    requires c.Valid() && |iv| == c.size <= |pt| == ct.Length
    modifies ct
    ensures ct[..] == Encryption(c, iv, pt)
  {
    hide Xor, Encryption, Chained, Leftover, Stolen;
    var k := EncryptBlocks(c, iv, pt, ct);
    LeftoverLength(c.size, pt);
    EncryptionByLoop(c, iv, pt);
    var leftover := |pt| % c.size;
    assert |pt| - leftover == k;
    StealLast(c, pt[|pt| - leftover..], ct);
  }

  /** The stealing step, taken if any bytes are left over. */
  method StealLast(c: Cipher, rest: Bytes, ct: array<Byte>)
    requires c.Valid() && |rest| < c.size && |rest| + c.size <= ct.Length
    modifies ct
    ensures ct[..] == Stolen(c, old(ct[..ct.Length - |rest|]), rest)
  {
    hide Steal;
    var k := ct.Length - |rest|;
    var y := ct[k - c.size..k];
    assert ct[..k][..k - c.size] == ct[..k - c.size] && ct[..k][k - c.size..] == y;
    if |rest| != 0 {
      StealTwo(c, y, rest, ct, k);
    } else {
      StealNone(c, y);
      assert ct[..] == ct[..k - c.size] + y;
    }
  }

  lemma {:induction false} StealNone(c: Cipher, y: Bytes)
    requires c.Valid() && |y| == c.size
    ensures Steal(c, y, []) == y
  {
  }

  /** The bytes left over get the first bytes of the block y before them, which is written again. */
  method StealTwo(c: Cipher, y: Bytes, r: Bytes, ct: array<Byte>, k: nat)
    requires c.Valid() && |y| == c.size <= k && 0 < |r| < c.size && k + |r| == ct.Length && ct[k - c.size..k] == y
    modifies ct
    ensures ct[..] == old(ct[..k - c.size]) + Steal(c, y, r)
  {
    hide Xor, Padded, Splice;
    ghost var before := ct[..];
    var x := XorBlock(Padded(c.size, r), y);
    assert ct[k - c.size..k - c.size + |r|] == y[..|r|];
    Store(ct, k, ct[k - c.size..k - c.size + |r|]);
    Store(ct, k - c.size, c.Enc(x));
    TwoSplices(before, k, c.Enc(x), y[..|r|]);
    assert before[..k - c.size] == old(ct[..k - c.size]);
  }

  lemma {:induction false} TwoSplices(before: Bytes, k: nat, block: Bytes, last: Bytes)
    requires |block| <= k && k + |last| == |before|
    ensures Splice(Splice(before, k, last), k - |block|, block) == before[..k - |block|] + block + last
  {
  }

  /** The loop of cbc_decrypt. */
  method DecryptBlocks(c: Cipher, iv: Bytes, ct: Bytes, pt: array<Byte>) returns (k: nat)
    requires c.Valid() && |iv| == c.size <= |ct| == pt.Length
    modifies pt
    ensures c.size <= k <= |ct| < k + c.size && Whole(c.size, ct, k)
    ensures pt[..k] == Unchained(c, iv, ct) && Leftover(c.size, ct) == ct[k..]
  {
    hide Unchained, Xor, Leftover, Splice;
    k := 0;
    assert ct[0..] == ct && pt[..0] == [] && [] + Unchained(c, iv, ct) == Unchained(c, iv, ct);
    while k + c.size <= |ct|
      invariant k <= |ct| && (k == 0 || k >= c.size)
      invariant pt[..k] + Unchained(c, Previous(c.size, iv, ct, k), ct[k..]) == Unchained(c, iv, ct)
      invariant Leftover(c.size, ct[k..]) == Leftover(c.size, ct)
    {
      ghost var before := pt[..];
      var x := c.Dec(ct[k..k + c.size]);
      var y := if k == 0 then iv else ct[k - c.size..k];
      UnchainedNext(c, y, ct, k, pt[..k]);
      var b := XorBlock(x, y);
      Store(pt, k, b);
      SpliceParts(before, k, b);
      k := k + c.size;
      assert pt[..k] == pt[..][..k];
    }
    ChainedOfFew(c, Previous(c.size, iv, ct, k), ct[k..]);
    assert pt[..k] + [] == pt[..k];
    WholeIs(c.size, ct, k);
  }

  lemma {:induction false} WholeIs(size: nat, t: Bytes, k: nat)
    requires size > 0 && k <= |t| && Leftover(size, t) == t[k..]
    ensures Whole(size, t, k)
    decreases |t|
  {
    if |t| >= size {
      LeftoverShorter(size, t[size..]);
      assert t[size..][k - size..] == t[k..];
      WholeIs(size, t[size..], k - size);
    }
  }

  lemma {:induction false} LeftoverShorter(size: nat, t: Bytes)
    requires size > 0
    ensures |Leftover(size, t)| <= |t|
    decreases |t|
  {
    if |t| >= size { LeftoverShorter(size, t[size..]); }
  }

  /** cbc_decrypt. */
  method Decrypt(c: Cipher, iv: Bytes, ct: Bytes) returns (pt: array?<Byte>)
    requires c.Valid()
    ensures pt == null <==> |iv| != c.size || |ct| < c.size
    ensures pt != null ==> fresh(pt) && pt[..] == Decryption(c, iv, ct)
  {
    if |iv| != c.size || |ct| < c.size { return null; }
    pt := new Byte[|ct|](_ => 0);
    DecryptInto(c, iv, ct, pt);
  }

  method DecryptInto(c: Cipher, iv: Bytes, ct: Bytes, pt: array<Byte>)
    requires c.Valid() && |iv| == c.size <= |ct| == pt.Length
    modifies pt
    ensures pt[..] == Decryption(c, iv, ct)
  {
    hide Xor, Decryption, Unchained, Leftover, Unstolen;
    var k := DecryptBlocks(c, iv, ct, pt);
    LeftoverLength(c.size, ct);
    DecryptionByLoop(c, iv, ct, k);
    var leftover := |ct| % c.size;
    assert |ct| - leftover == k;
    UnstealLast(c, iv, ct, leftover, pt);
  }

  /** The step after the loop, taken if any bytes are left over. */
  method UnstealLast(c: Cipher, iv: Bytes, ct: Bytes, leftover: nat, pt: array<Byte>)
    requires c.Valid() && |iv| == c.size && leftover < c.size && leftover + c.size <= |ct| == pt.Length
    requires |ct| - leftover == c.size || |ct| - leftover >= 2 * c.size
    modifies pt
    ensures pt[..] == Unstolen(c, iv, ct, |ct| - leftover, old(pt[..|ct| - leftover]))
  {
    hide Unsteal;
    var k := |ct| - leftover;
    assert pt[..k][..k - c.size] == pt[..k - c.size];
    if leftover != 0 {
      var y := if |ct| < 2 * c.size then iv else ct[k - 2 * c.size..k - c.size];
      UnstealTwo(c, y, ct[k - c.size..k], ct[k..], pt, k);
    } else {
      assert pt[..k] == pt[..];
    }
  }

  /** The bytes left over and the block before them, which is written again. */
  method UnstealTwo(c: Cipher, y: Bytes, block: Bytes, r: Bytes, pt: array<Byte>, k: nat)
    requires c.Valid() && |y| == |block| == c.size <= k && |r| < c.size && k + |r| == pt.Length
    modifies pt
    ensures pt[..] == old(pt[..k - c.size]) + Unsteal(c, y, block, r)
  {
    hide Xor, Splice;
    ghost var before := pt[..];
    var last := c.Dec(block);
    var previous := r + last[|r|..];
    var ptLast := XorBlock(last, previous);
    Store(pt, k, ptLast[..|r|]);
    var xPrevious := c.Dec(previous);
    var ptPrevious := XorBlock(xPrevious, y);
    Store(pt, k - c.size, ptPrevious);
    TwoSplices(before, k, ptPrevious, ptLast[..|r|]);
    assert before[..k - c.size] == old(pt[..k - c.size]);
  }
}
