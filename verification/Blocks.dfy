/** Block ciphers as pairs of functions on byte blocks, and the chaining that the modes in
    crypto/cbc.hh, crypto/cmc.hh and crypto/cbcmac.hh share. */
module Blocks {
  import opened Bits

  /** A keyed block cipher: its block size and its two directions. */
  datatype Cipher = Cipher(size: nat, enc: Bytes -> Bytes, dec: Bytes -> Bytes) {
    /** Decrypting a block undoes encrypting it. Nothing else is known of the cipher. */
    ghost predicate Valid() {
      && size > 0
      && (forall x: Bytes {:trigger enc(x)} :: |x| == size ==> |enc(x)| == size && dec(enc(x)) == x)
      && (forall x: Bytes {:trigger dec(x)} :: |x| == size ==> |dec(x)| == size)
    }

    function Enc(x: Bytes): (y: Bytes)
      requires Valid() && |x| == size
      ensures |y| == size
    {
      enc(x)
    }

    function Dec(y: Bytes): (x: Bytes)
      requires Valid() && |y| == size
      ensures |x| == size
    {
      dec(y)
    }
  }

  lemma {:induction false} DecEnc(c: Cipher, x: Bytes)
    requires c.Valid() && |x| == c.size
    ensures c.Dec(c.Enc(x)) == x
  {
    assert |c.enc(x)| == c.size;
  }

  function Zeros(n: nat): (r: Bytes)
    ensures |r| == n
  {
    seq(n, i => 0)
  }

  function Xor(a: Bytes, b: Bytes): (r: Bytes)
    requires |a| == |b|
    ensures |r| == |a|
  {
    seq(|a|, i requires 0 <= i < |a| => XorByte(a[i], b[i]))
  }

  method XorBlock(a: Bytes, b: Bytes) returns (r: Bytes)
    requires |a| == |b|
    ensures r == Xor(a, b)
  {
    r := [];
    for j := 0 to |a|
      invariant |r| == j && forall k :: 0 <= k < j ==> r[k] == XorByte(a[k], b[k])
    {
      r := r + [XorByte(a[j], b[j])];
    }
  }

  lemma {:induction false} XorTwice(a: Bytes, b: Bytes)
    requires |a| == |b|
    ensures Xor(Xor(a, b), b) == a
  {
    forall i | 0 <= i < |a|
      ensures Xor(Xor(a, b), b)[i] == a[i]
    {
      XorCancels(a[i], b[i]);
    }
  }

  lemma {:induction false} XorSwaps(a: Bytes, b: Bytes)
    requires |a| == |b|
    ensures Xor(a, b) == Xor(b, a)
  {
    forall i | 0 <= i < |a|
      ensures Xor(a, b)[i] == Xor(b, a)[i]
    {
      XorCommutes(a[i], b[i]);
    }
  }

  lemma {:induction false} XorZeros(b: Bytes)
    ensures Xor(Zeros(|b|), b) == b && Xor(b, Zeros(|b|)) == b
  {
  }

  /** A prefix or suffix of an exclusive-or. */
  lemma {:induction false} XorCut(a: Bytes, b: Bytes, i: nat)
    requires |a| == |b| && i <= |a|
    ensures Xor(a, b)[..i] == Xor(a[..i], b[..i]) && Xor(a, b)[i..] == Xor(a[i..], b[i..])
  {
  }

  /** s with x written over it from position at on. */
  function Splice<T>(s: seq<T>, at: nat, x: seq<T>): (r: seq<T>)
    requires at + |x| <= |s|
    ensures |r| == |s|
  {
    s[..at] + x + s[at + |x|..]
  }

  /** memcpy into a buffer. */
  method Store(dst: array<Byte>, at: nat, src: Bytes)
    requires at + |src| <= dst.Length
    modifies dst
    ensures dst[..] == Splice(old(dst[..]), at, src)
  {
    for j := 0 to |src|
      invariant dst[..at] == old(dst[..at]) && dst[at..at + j] == src[..j] && dst[at + j..] == old(dst[at + j..])
    {
      dst[at + j] := src[j];
      assert dst[at..at + j + 1] == dst[at..at + j] + [src[j]];
      assert dst[at + j + 1..] == dst[at + j..][1..] && old(dst[at + j + 1..]) == old(dst[at + j..])[1..];
    }
    assert src[..|src|] == src;
    assert dst[..] == dst[..at] + dst[at..at + |src|] + dst[at + |src|..];
    assert old(dst[at + |src|..]) == old(dst[..])[at + |src|..] && old(dst[..at]) == old(dst[..])[..at];
  }

  lemma {:induction false} SpliceParts<T>(s: seq<T>, at: nat, x: seq<T>)
    requires at + |x| <= |s|
    ensures Splice(s, at, x)[..at + |x|] == s[..at] + x
    ensures Splice(s, at, x)[at..at + |x|] == x
    ensures Splice(s, at, x)[..at] == s[..at] && Splice(s, at, x)[at + |x|..] == s[at + |x|..]
    ensures Splice(s, at, x)[at..] == x + s[at + |x|..]
  {
  }

  lemma {:induction false} SameTail<T>(a: seq<T>, b: seq<T>, i: nat, j: nat)
    requires |a| == |b| && i <= j <= |a| && a[i..] == b[i..]
    ensures a[i..j] == b[i..j] && a[j..] == b[j..]
  {
    assert a[i..][..j - i] == a[i..j] && b[i..][..j - i] == b[i..j];
    assert a[i..][j - i..] == a[j..] && b[i..][j - i..] == b[j..];
  }

  lemma {:induction false} SameShorter<T>(a: seq<T>, b: seq<T>, i: nat, j: nat)
    requires i <= j <= |a| && j <= |b| && a[..j] == b[..j]
    ensures a[..i] == b[..i]
  {
    assert a[..j][..i] == a[..i] && b[..j][..i] == b[..i];
  }

  /** Each whole block encrypted after adding the previous result; a partial block is dropped. */
  function Chained(c: Cipher, iv: Bytes, s: Bytes): Bytes
    requires c.Valid() && |iv| == c.size
    decreases |s|
  {
    if |s| < c.size then []
    else
      var y := c.Enc(Xor(s[..c.size], iv));
      y + Chained(c, y, s[c.size..])
  }

  /** Each whole block decrypted, and the previous block added to the result. */
  function Unchained(c: Cipher, iv: Bytes, t: Bytes): Bytes
    requires c.Valid() && |iv| == c.size
    decreases |t|
  {
    if |t| < c.size then []
    else Xor(c.Dec(t[..c.size]), iv) + Unchained(c, t[..c.size], t[c.size..])
  }

  /** The bytes after the last whole block. */
  function Leftover(size: nat, s: Bytes): (r: Bytes)
    requires size > 0
    ensures |r| < size
    decreases |s|
  {
    if |s| < size then s else Leftover(size, s[size..])
  }

  lemma {:induction false} ChainedLength(c: Cipher, iv: Bytes, s: Bytes)
    requires c.Valid() && |iv| == c.size
    ensures |Chained(c, iv, s)| + |Leftover(c.size, s)| == |s|
    ensures s[|Chained(c, iv, s)|..] == Leftover(c.size, s)
    ensures |s| >= c.size ==> |Chained(c, iv, s)| >= c.size
    decreases |s|
  {
    if |s| >= c.size {
      ChainedLength(c, c.Enc(Xor(s[..c.size], iv)), s[c.size..]);
    }
  }

  lemma {:induction false} LeftoverLength(size: nat, s: Bytes)
    requires size > 0
    ensures |Leftover(size, s)| == |s| % size
    decreases |s|
  {
    if |s| >= size {
      LeftoverLength(size, s[size..]);
      ModStep(|s|, size);
    } else {
      ModSmall(|s|, size);
    }
  }

  lemma {:induction false} ModSmall(n: nat, size: nat)
    requires n < size
    ensures n % size == n
  {
  }

  lemma {:induction false} ModStep(n: nat, size: nat)
    requires n >= size > 0
    ensures n % size == (n - size) % size
  {
    var q, r := (n - size) / size, (n - size) % size;
    assert n == (q + 1) * size + r;
    ModIs(n, size, q + 1, r);
  }

  lemma {:induction false} ModIs(n: nat, size: nat, q: nat, r: nat)
    requires size > 0 && n == q * size + r && r < size
    ensures n % size == r
  {
    var q', r' := n / size, n % size;
    assert n == q' * size + r';
    if q < q' { LessTimes(q, q', size); }
    if q' < q { LessTimes(q', q, size); }
  }

  lemma {:induction false} LessTimes(a: nat, b: nat, d: nat)
    requires a < b
    ensures a * d + d <= b * d
    decreases b
  {
    if a + 1 < b { LessTimes(a, b - 1, d); }
  }

  lemma {:induction false} UnchainedFirst(c: Cipher, iv: Bytes, y: Bytes, t: Bytes)
    requires c.Valid() && |iv| == c.size && |y| == c.size
    ensures Unchained(c, iv, y + t) == Xor(c.Dec(y), iv) + Unchained(c, y, t)
  {
    assert (y + t)[..c.size] == y && (y + t)[c.size..] == t;
  }

  lemma {:induction false} JoinAgain(s: Bytes, n: nat, a: Bytes, b: Bytes)
    requires n <= |s| && a + b == s[n..]
    ensures s[..n] + a + b == s
  {
    assert s[..n] + (a + b) == s;
  }

  lemma {:induction false} UnchainedInvertsChained(c: Cipher, iv: Bytes, s: Bytes)
    requires c.Valid() && |iv| == c.size
    ensures Unchained(c, iv, Chained(c, iv, s)) + Leftover(c.size, s) == s
    decreases |s|
  {
    hide Unchained, Xor;
    if |s| >= c.size {
      var x := Xor(s[..c.size], iv);
      var y, rest := c.Enc(x), s[c.size..];
      UnchainedInvertsChained(c, y, rest);
      DecEnc(c, x);
      XorTwice(s[..c.size], iv);
      UnchainedFirst(c, iv, y, Chained(c, y, rest));
      JoinAgain(s, c.size, Unchained(c, y, Chained(c, y, rest)), Leftover(c.size, rest));
    } else {
      UnchainedOfNothing(c, iv, s);
    }
  }

  lemma {:induction false} UnchainedOfNothing(c: Cipher, iv: Bytes, s: Bytes)
    requires c.Valid() && |iv| == c.size
    ensures Unchained(c, iv, []) + s == s
  {
  }

  lemma {:induction false} ChainedNext(c: Cipher, y: Bytes, pt: Bytes, i: nat, done: Bytes)
    requires c.Valid() && |y| == c.size && i + c.size <= |pt|
    ensures var b := c.Enc(Xor(pt[i..i + c.size], y));
            && done + Chained(c, y, pt[i..]) == done + b + Chained(c, b, pt[i + c.size..])
            && Leftover(c.size, pt[i..]) == Leftover(c.size, pt[i + c.size..])
  {
    hide Xor;
    assert pt[i..][..c.size] == pt[i..i + c.size] && pt[i..][c.size..] == pt[i + c.size..];
  }

  lemma {:induction false} UnchainedNext(c: Cipher, y: Bytes, ct: Bytes, i: nat, done: Bytes)
    requires c.Valid() && |y| == c.size && i + c.size <= |ct|
    ensures var b := ct[i..i + c.size];
            && done + Unchained(c, y, ct[i..]) == done + Xor(c.Dec(b), y) + Unchained(c, b, ct[i + c.size..])
            && Leftover(c.size, ct[i..]) == Leftover(c.size, ct[i + c.size..])
  {
    hide Xor;
    assert ct[i..][..c.size] == ct[i..i + c.size] && ct[i..][c.size..] == ct[i + c.size..];
  }

  lemma {:induction false} ChainedOfFew(c: Cipher, y: Bytes, s: Bytes)
    requires c.Valid() && |y| == c.size && |s| < c.size
    ensures Chained(c, y, s) == [] == Unchained(c, y, s) && Leftover(c.size, s) == s
  {
  }
}
