/** Ciphers with chosen outputs. They show what the primitives built on a cipher can yield: nothing but
    Cipher.Valid is known of a cipher, and all of these are valid. */
module Ciphers {
  import opened Bits
  import opened Blocks

  /** The cipher that leaves every block as it is. */
  function Plain(size: nat): Cipher { Cipher(size, (x: Bytes) => x, (x: Bytes) => x) }

  function Exchanged(a: Bytes, b: Bytes, x: Bytes): Bytes { if x == a then b else if x == b then a else x }

  /** The cipher c, except that x is encrypted to y, and what was encrypted to y to the former c.enc(x). */
  function Redirected(c: Cipher, x: Bytes, y: Bytes): Cipher {
    Cipher(c.size, (t: Bytes) => Exchanged(c.enc(x), y, c.enc(t)), (t: Bytes) => c.dec(Exchanged(c.enc(x), y, t)))
  }

  lemma {:induction false} RedirectedIs(c: Cipher, x: Bytes, y: Bytes)
    requires c.Valid() && |x| == |y| == c.size
    ensures Redirected(c, x, y).Valid() && Redirected(c, x, y).enc(x) == y
  {
    var r := Redirected(c, x, y);
    forall t: Bytes | |t| == c.size
      ensures |r.enc(t)| == c.size && r.dec(r.enc(t)) == t && |r.dec(t)| == c.size
    {
      RedirectedBlock(c, x, y, t);
    }
  }

  lemma {:induction false} RedirectedBlock(c: Cipher, x: Bytes, y: Bytes, t: Bytes)
    requires c.Valid() && |x| == |y| == |t| == c.size
    ensures var r := Redirected(c, x, y); |r.enc(t)| == c.size && r.dec(r.enc(t)) == t && |r.dec(t)| == c.size
  {
    var u, v := c.Enc(x), c.Enc(t);
    DecEnc(c, t);
    assert Exchanged(u, y, Exchanged(u, y, v)) == v;
    var w := Exchanged(u, y, t);
    assert |c.Dec(w)| == c.size;
  }

  /** The other blocks keep their outputs, unless y was one of these. */
  lemma {:induction false} RedirectedElsewhere(c: Cipher, x: Bytes, y: Bytes, t: Bytes)
    requires c.Valid() && |x| == |t| == c.size && t != x && c.enc(t) != y
    ensures Redirected(c, x, y).enc(t) == c.enc(t)
  {
    DecEnc(c, x);
    DecEnc(c, t);
  }
}
