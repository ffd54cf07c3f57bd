/** CBC-MAC over data that arrives in pieces (crypto/cbcmac.hh). */
module CbcMac {
  import opened Bits
  import opened Blocks

  /** The chaining value after the whole blocks of s. */
  function Absorb(c: Cipher, v: Bytes, s: Bytes): (r: Bytes)
    requires c.Valid() && |v| == c.size
    ensures |r| == c.size
    decreases |s|
  {
    if |s| < c.size then v else Absorb(c, c.Enc(Xor(v, s[..c.size])), s[c.size..])
  }

  /** s filled up with zeros to whole blocks. */
  function ZeroPadded(size: nat, s: Bytes): Bytes
    requires size > 0
    decreases |s|
  {
    if s == [] then []
    else if |s| < size then s + Zeros(size - |s|)
    else s[..size] + ZeroPadded(size, s[size..])
  }

  /** CBC-MAC of a whole message: the last chaining value over the zero-padded message. */
  function Tag(c: Cipher, iv: Bytes, s: Bytes): (r: Bytes)
    requires c.Valid() && |iv| == c.size
    ensures |r| == c.size
  {
    Absorb(c, iv, ZeroPadded(c.size, s))
  }

  lemma {:induction false} AbsorbFirst(c: Cipher, v: Bytes, b: Bytes, s: Bytes)
    requires c.Valid() && |v| == |b| == c.size
    ensures Absorb(c, v, b + s) == Absorb(c, c.Enc(Xor(v, b)), s)
    ensures Leftover(c.size, b + s) == Leftover(c.size, s)
  {
    hide Xor;
    assert (b + s)[..c.size] == b && (b + s)[c.size..] == s;
  }

  lemma {:induction false} AbsorbFew(c: Cipher, v: Bytes, s: Bytes)
    requires c.Valid() && |v| == c.size && |s| < c.size
    ensures Absorb(c, v, s) == v && Leftover(c.size, s) == s
  {
  }

  /** More data only meets the chaining value and the bytes left over. */
  lemma {:induction false} AbsorbMore(c: Cipher, v: Bytes, s: Bytes, d: Bytes)
    requires c.Valid() && |v| == c.size
    ensures Absorb(c, v, s + d) == Absorb(c, Absorb(c, v, s), Leftover(c.size, s) + d)
    ensures Leftover(c.size, s + d) == Leftover(c.size, Leftover(c.size, s) + d)
    decreases |s|
  {
    hide Absorb, Leftover, Xor;
    if |s| < c.size {
      AbsorbFew(c, v, s);
    } else {
      var b, rest := s[..c.size], s[c.size..];
      assert s == b + rest && s + d == b + (rest + d);
      AbsorbFirst(c, v, b, rest);
      AbsorbFirst(c, v, b, rest + d);
      AbsorbMore(c, c.Enc(Xor(v, b)), rest, d);
    }
  }

  /** The final step is the zero padding. */
  lemma {:induction false} TagByLeftover(c: Cipher, v: Bytes, s: Bytes)
    requires c.Valid() && |v| == c.size
    ensures var r := Leftover(c.size, s); var w := Absorb(c, v, s);
            Tag(c, v, s) == if r == [] then w else c.Enc(Xor(w, r + Zeros(c.size - |r|)))
    decreases |s|
  {
    hide Absorb, Leftover, Xor;
    if s == [] {
      AbsorbFew(c, v, s);
    } else if |s| < c.size {
      AbsorbFew(c, v, s);
      var p := s + Zeros(c.size - |s|);
      assert p == p + [];
      AbsorbFirst(c, v, p, []);
      AbsorbFew(c, c.Enc(Xor(v, p)), []);
    } else {
      var b, rest := s[..c.size], s[c.size..];
      assert s == b + rest;
      AbsorbFirst(c, v, b, rest);
      AbsorbFirst(c, v, b, ZeroPadded(c.size, rest));
      TagByLeftover(c, c.Enc(Xor(v, b)), rest);
    }
  }

  /** The padding adds fewer zeros than a block has bytes, and makes whole blocks. */
  lemma {:induction false} PaddedIs(size: nat, s: Bytes) returns (k: nat)
    requires size > 0
    ensures k < size && ZeroPadded(size, s) == s + Zeros(k) && Leftover(size, ZeroPadded(size, s)) == []
    decreases |s|
  {
    if s == [] {
      k := 0;
    } else if |s| < size {
      k := size - |s|;
      assert (s + Zeros(k))[size..] == [];
    } else {
      k := PaddedIs(size, s[size..]);
      assert s[..size] + (s[size..] + Zeros(k)) == s + Zeros(k);
      assert (s[..size] + ZeroPadded(size, s[size..]))[size..] == ZeroPadded(size, s[size..]);
    }
  }

  /** The MAC is the last block that CBC encryption makes of the zero-padded message. */
  lemma {:induction false} TagIsLastBlock(c: Cipher, iv: Bytes, s: Bytes)
    requires c.Valid() && |iv| == c.size && s != []
    ensures var t := Chained(c, iv, ZeroPadded(c.size, s));
            |t| >= c.size && Tag(c, iv, s) == t[|t| - c.size..]
  {
    hide Absorb, Chained, ZeroPadded;
    var k := PaddedIs(c.size, s);
    AbsorbedIsLast(c, iv, ZeroPadded(c.size, s));
  }

  lemma {:induction false} AbsorbedIsLast(c: Cipher, v: Bytes, s: Bytes)
    requires c.Valid() && |v| == c.size && Leftover(c.size, s) == [] && s != []
    ensures |Chained(c, v, s)| >= c.size && Absorb(c, v, s) == Chained(c, v, s)[|Chained(c, v, s)| - c.size..]
    decreases |s|
  {
    hide Xor;
    var rest := s[c.size..];
    var y := c.Enc(Xor(s[..c.size], v));
    XorSwaps(v, s[..c.size]);
    if rest == [] {
      ChainedOfFew(c, y, rest);
      assert Chained(c, v, s) == y + [];
    } else {
      AbsorbedIsLast(c, y, rest);
      var t := Chained(c, y, rest);
      assert Chained(c, v, s) == y + t;
      assert (y + t)[|y + t| - c.size..] == t[|t| - c.size..];
    }
  }

  /** The class cbcmac. The counter of buffered bytes is one byte wide. */
  class Mac {
    const c: Cipher
    var v: array<Byte>
    var m: array<Byte>
    var mbytes: Byte
    ghost const iv: Bytes
    /** Everything passed to update so far. */
    ghost var data: Bytes

    ghost predicate Shape()
      reads this
    {
      c.Valid() && c.size < 256 && v.Length == m.Length == c.size == |iv| && v != m
    }

    /** The state is what the data passed so far determines. */
    ghost predicate Valid()
      reads this, v, m
    {
      && Shape() && mbytes < c.size
      && v[..] == Absorb(c, iv, data)
      && m[..mbytes] == Leftover(c.size, data)
    }

    constructor (c: Cipher, iv: Bytes)
      requires c.Valid() && c.size < 256 && |iv| == c.size
      ensures Valid() && fresh(v) && fresh(m)
      ensures this.c == c && this.iv == iv && data == []
    {
      this.c := c;
      this.iv := iv;
      v := new Byte[c.size](i requires 0 <= i < c.size => iv[i]);
      m := new Byte[c.size](_ => 0);
      mbytes := 0;
      data := [];
      new;
      assert v[..] == iv && m[..0] == [];
    }

    /** The copy that "auto mac = mac_base" makes. */
    constructor Copy(other: Mac)
      requires other.Valid()
      ensures Valid() && fresh(v) && fresh(m)
      ensures c == other.c && iv == other.iv && data == other.data
    {
      c := other.c;
      iv := other.iv;
      v := new Byte[other.v.Length](i requires 0 <= i < other.v.Length reads other, other.v => other.v[i]);
      m := new Byte[other.m.Length](i requires 0 <= i < other.m.Length reads other, other.m => other.m[i]);
      mbytes := other.mbytes;
      data := other.data;
      new;
      assert v[..] == other.v[..] && m[..] == other.m[..];
      assert m[..mbytes] == m[..][..mbytes] && other.m[..mbytes] == other.m[..][..mbytes];
    }

    /** do_block. */
    method DoBlock(p: Bytes)
      requires Shape() && |p| == c.size
      modifies v
      ensures v[..] == c.Enc(Xor(old(v[..]), p))
    {
      var x := XorBlock(v[..], p);
      var y := c.Enc(x);
      ghost var before := v[..];
      Store(v, 0, y);
      assert Splice(before, 0, y) == y;
    }

    /** The first part of update: the buffered block is filled up and, once full, processed. */
    method FillBuffer(d: Bytes) returns (rest: Bytes)
      requires Valid()
      modifies this`mbytes, v, m
      ensures Shape() && mbytes < c.size
      ensures mbytes != 0 ==> rest == []
      ensures Absorb(c, old(v[..]), old(m[..mbytes]) + d) == Absorb(c, v[..], m[..mbytes] + rest)
      ensures Leftover(c.size, old(m[..mbytes]) + d) == Leftover(c.size, m[..mbytes] + rest)
    {
      hide Absorb, Leftover, Xor, Splice;
      rest := d;
      ghost var held := m[..mbytes];
      if mbytes != 0 {
        var ncopy := if |d| < c.size - mbytes then |d| else c.size - mbytes;
        ghost var before := m[..];
        Store(m, mbytes, d[..ncopy]);
        SpliceParts(before, mbytes, d[..ncopy]);
        rest := d[ncopy..];
        mbytes := mbytes + ncopy;
        assert m[..mbytes] == m[..][..mbytes] == held + d[..ncopy];
        Rejoined(held, d, ncopy);
      }
      if mbytes == c.size {
        assert m[..mbytes] == m[..];
        AbsorbFirst(c, v[..], m[..], rest);
        DoBlock(m[..]);
        mbytes := 0;
        assert m[..0] + rest == rest;
      }
    }

    /** update. */
    method Update(d: Bytes)
      requires Valid()
      modifies this`mbytes, this`data, v, m
      ensures Valid() && data == old(data) + d
    {
      hide Absorb, Leftover, Xor, Splice;
      AbsorbMore(c, iv, data, d);
      var rest := FillBuffer(d);
      data := data + d;
      if mbytes == 0 {
        assert m[..0] + rest == rest;
        while |rest| >= c.size
          invariant Shape() && mbytes == 0 && data == old(data) + d
          invariant Absorb(c, v[..], rest) == Absorb(c, iv, data)
          invariant Leftover(c.size, rest) == Leftover(c.size, data)
        {
          assert rest == rest[..c.size] + rest[c.size..];
          AbsorbFirst(c, v[..], rest[..c.size], rest[c.size..]);
          DoBlock(rest[..c.size]);
          rest := rest[c.size..];
        }
        AbsorbFew(c, v[..], rest);
        if rest != [] {
          ghost var before := m[..];
          Store(m, 0, rest);
          SpliceParts(before, 0, rest);
          mbytes := |rest|;
          assert m[..mbytes] == m[..][..mbytes] == before[..0] + rest == rest;
        }
        assert rest == [] ==> m[..0] == rest;
      } else {
        assert m[..mbytes] + rest == m[..mbytes];
        AbsorbFew(c, v[..], m[..mbytes]);
      }
    }

    /** final: the tag of all data passed. The object is not meant to be used afterwards. */
    method Final() returns (tag: Bytes)
      requires Valid()
      modifies v, m
      ensures tag == Tag(c, iv, data)
    {
      hide Absorb, Leftover, Xor, Splice, Tag;
      TagByLeftover(c, iv, data);
      if mbytes != 0 {
        ghost var before := m[..];
        var z := Zeros(c.size - mbytes);
        Store(m, mbytes, z);
        SpliceParts(before, mbytes, z);
        assert m[..] == m[..][..mbytes + |z|];
        DoBlock(m[..]);
      }
      tag := v[..];
    }
  }

  lemma {:induction false} Rejoined(held: Bytes, d: Bytes, n: nat)
    requires n <= |d|
    ensures held + d == held + d[..n] + d[n..]
  {
    assert d == d[..n] + d[n..];
  }

  /** The pieces put together. */
  function Concat(pieces: seq<Bytes>): Bytes {
    if pieces == [] then [] else Concat(pieces[..|pieces| - 1]) + pieces[|pieces| - 1]
  }

  /** However a message is cut into updates, the tag is that of the whole message. */
  method TagOfPieces(c: Cipher, iv: Bytes, pieces: seq<Bytes>) returns (tag: Bytes)
    requires c.Valid() && c.size < 256 && |iv| == c.size
    ensures tag == Tag(c, iv, Concat(pieces))
  {
    var mac := new Mac(c, iv);
    for i := 0 to |pieces|
      invariant mac.Valid() && fresh(mac) && fresh(mac.v) && fresh(mac.m)
      invariant mac.c == c && mac.iv == iv && mac.data == Concat(pieces[..i])
    {
      assert pieces[..i + 1][..i] == pieces[..i];
      mac.Update(pieces[i]);
    }
    assert pieces[..|pieces|] == pieces;
    tag := mac.Final();
  }
}
