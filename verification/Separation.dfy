/** Two different messages have different CBC-MACs under some cipher on 16-byte blocks. The cipher is
    made step by step: each block that the MAC encrypts is new, and its output is chosen freely. */
module Separation {
  import opened Power
  import opened Bits
  import opened Blocks
  import opened Ciphers
  import opened CbcMac

  type Block = b: Bytes | |b| == 16 witness seq(16, _ => 0)
  type Cipher16 = c: Cipher | c.Valid() && c.size == 16 witness Plain(16)

  /** The blocks that the MAC encrypts. */
  function Inputs(c: Cipher16, v: Block, s: Bytes): set<Block>
    decreases |s|
  {
    if |s| < 16 then {} else {Xor(v, s[..16])} + Inputs(c, c.Enc(Xor(v, s[..16])), s[16..])
  }

  /** The two ciphers do the same with the blocks in use. */
  ghost predicate Agree(c: Cipher16, d: Cipher16, used: set<Block>) {
    forall x: Block :: x in used ==> c.Enc(x) == d.Enc(x)
  }

  predicate High(v: Block) { v[7] >= 128 }

  predicate Whole(s: Bytes)
    decreases |s|
  {
    s == [] || (|s| >= 16 && Whole(s[16..]))
  }

  /** The next block to be encrypted is not in use. */
  predicate Free(used: set<Block>, v: Block, s: Bytes) { |s| >= 16 ==> Xor(v, s[..16]) !in used }

  lemma {:induction false} AbsorbStep(c: Cipher16, v: Block, s: Bytes)
    requires |s| >= 16
    ensures Absorb(c, v, s) == Absorb(c, c.Enc(Xor(v, s[..16])), s[16..])
    ensures Inputs(c, v, s) == {Xor(v, s[..16])} + Inputs(c, c.Enc(Xor(v, s[..16])), s[16..])
  {
  }

  lemma {:induction false} AbsorbNothing(c: Cipher16, v: Block)
    ensures Absorb(c, v, []) == v && Inputs(c, v, []) == {}
  {
  }

  lemma {:induction false} SameInputsSameTag(c: Cipher16, d: Cipher16, v: Block, s: Bytes)
    requires Agree(c, d, Inputs(c, v, s))
    ensures Absorb(c, v, s) == Absorb(d, v, s)
    decreases |s|
  {
    hide Xor;
    if |s| >= 16 {
      var x := Xor(v, s[..16]);
      assert x in Inputs(c, v, s);
      SameInputsSameTag(c, d, c.Enc(x), s[16..]);
    }
  }

  lemma {:induction false} InputsFew(c: Cipher16, v: Block, s: Bytes)
    ensures |Inputs(c, v, s)| <= |s|
    decreases |s|
  {
    if |s| >= 16 { InputsFew(c, c.Enc(Xor(v, s[..16])), s[16..]); }
  }

  // ---------- a free output ----------

  /** Blocks with a chosen highest bit of byte 7. */
  function Candidate(n: nat, high: bool): (b: Block)
    ensures High(b) == high
  {
    LittleEndian(n, 15)[..7] + [if high then 128 else 0] + LittleEndian(n, 15)[7..]
  }

  lemma {:induction false} CandidateParts(n: nat, high: bool)
    ensures Candidate(n, high)[..7] + Candidate(n, high)[8..] == LittleEndian(n, 15)
  {
    hide LittleEndian;
    assert Candidate(n, high)[..7] == LittleEndian(n, 15)[..7];
    assert Candidate(n, high)[8..] == LittleEndian(n, 15)[7..];
  }

  lemma {:induction false} CandidatesDiffer(m: nat, n: nat, high: bool)
    requires m < n < Pow2(120)
    ensures Candidate(m, high) != Candidate(n, high)
  {
    hide LittleEndian, FromLittleEndian, Pow2, Candidate;
    WordOfNumber(m, 15);
    WordOfNumber(n, 15);
    CandidateParts(m, high);
    CandidateParts(n, high);
  }

  lemma {:induction false} TakenAreFew(taken: set<Block>, n: nat, high: bool)
    requires n <= Pow2(120) && forall k: nat {:trigger Candidate(k, high)} :: k < n ==> Candidate(k, high) in taken
    ensures n <= |taken|
    decreases n
  {
    hide Candidate, Pow2;
    if n > 0 {
      var last := Candidate(n - 1, high);
      forall k: nat | k < n - 1
        ensures Candidate(k, high) in taken - {last}
      {
        CandidatesDiffer(k, n - 1, high);
      }
      TakenAreFew(taken - {last}, n - 1, high);
    }
  }

  lemma {:induction false} FreshBlock(taken: set<Block>, high: bool) returns (b: Block)
    requires |taken| < Pow2(120)
    ensures b !in taken && High(b) == high
  {
    hide Candidate, Pow2, High;
    if forall k: nat {:trigger Candidate(k, high)} :: k <= |taken| ==> Candidate(k, high) in taken {
      TakenAreFew(taken, |taken| + 1, high);
    }
    var k: nat :| k <= |taken| && Candidate(k, high) !in taken;
    b := Candidate(k, high);
  }

  function Image(t: set<Block>, f: Block -> Block): set<Block> { set x | x in t :: f(x) }

  lemma {:induction false} ImageIsSmall(t: set<Block>, f: Block -> Block)
    ensures |Image(t, f)| <= |t|
  {
    if t != {} {
      var a :| a in t;
      ImageIsSmall(t - {a}, f);
      assert Image(t, f) == Image(t - {a}, f) + {f(a)};
    }
  }

  /** The values from which the next block to be encrypted would be in use. */
  function Barred(used: set<Block>, s: Bytes): set<Block> {
    if |s| < 16 then {} else Image(used, (x: Block) => Xor(x, s[..16]))
  }

  lemma {:induction false} BarredIs(used: set<Block>, s: Bytes, v: Block)
    requires v !in Barred(used, s)
    ensures Free(used, v, s)
  {
    hide Xor;
    if |s| >= 16 {
      XorTwice(v, s[..16]);
      var f := (x: Block) => Xor(x, s[..16]);
      assert f(Xor(v, s[..16])) == v;
    }
  }

  lemma {:induction false} BarredFew(used: set<Block>, s: Bytes)
    ensures |Barred(used, s)| <= |used|
  {
    if |s| >= 16 {
      ImageIsSmall(used, (x: Block) => Xor(x, s[..16]));
    }
  }

  /** An unused block gets an output of its own, with a chosen bit and outside a given set. */
  lemma {:induction false} Advance(c: Cipher16, used: set<Block>, x: Block, avoid: set<Block>, high: bool)
    returns (d: Cipher16)
    requires x !in used && |used| + |avoid| < Pow2(120)
    ensures Agree(c, d, used) && d.Enc(x) !in avoid && High(d.Enc(x)) == high
  {
    hide Pow2, High;
    var f := (t: Block) => c.Enc(t);
    var outputs := Image(used, f);
    ImageIsSmall(used, f);
    assert |outputs + avoid| <= |outputs| + |avoid|;
    var b := FreshBlock(outputs + avoid, high);
    RedirectedIs(c, x, b);
    d := Redirected(c, x, b);
    forall t: Block | t in used
      ensures c.Enc(t) == d.Enc(t)
    {
      assert f(t) in outputs;
      RedirectedElsewhere(c, x, b, t);
    }
  }

  // ---------- one message ----------

  /** The tag of a message gets a chosen bit, by outputs of unused blocks only; the reserved ones stay
      unused. */
  lemma {:induction false} Steer(c: Cipher16, used: set<Block>, reserved: set<Block>, v: Block, s: Bytes, high: bool)
    returns (d: Cipher16)
    requires s != [] && Whole(s) && Free(used + reserved, v, s)
    requires 2 * (|used| + |reserved| + |s|) < Pow2(120)
    ensures Agree(c, d, used) && High(Absorb(d, v, s)) == high && Inputs(d, v, s) !! reserved
    decreases |s|
  {
    hide Xor, Pow2, Inputs, Absorb, High, Barred;
    var x, rest := Xor(v, s[..16]), s[16..];
    var barred := used + {x} + reserved;
    assert |barred| <= |used| + 1 + |reserved|;
    BarredFew(barred, rest);
    d := Advance(c, used, x, Barred(barred, rest), high);
    BarredIs(barred, rest, d.Enc(x));
    if rest == [] {
      AbsorbNothing(d, d.Enc(x));
    } else {
      var d1 := d;
      d := Steer(d1, used + {x}, reserved, d1.Enc(x), rest, high);
      assert d.Enc(x) == d1.Enc(x);
    }
    AbsorbStep(d, v, s);
  }

  // ---------- two messages ----------

  lemma {:induction false} Separate(c: Cipher16, used: set<Block>, v: Block, s: Bytes, s': Bytes, high: bool)
    returns (d: Cipher16)
    requires Whole(s) && Whole(s') && s != s' && Free(used, v, s) && Free(used, v, s')
    requires (s == [] ==> High(v) == high) && (s' == [] ==> High(v) != high)
    requires 4 * (|used| + |s| + |s'| + 1) < Pow2(120)
    ensures Agree(c, d, used) && High(Absorb(d, v, s)) == high && High(Absorb(d, v, s')) != high
    decreases |s|, 1
  {
    hide Xor, Pow2, Inputs, Absorb, High, Barred;
    if s == [] {
      d := Steer(c, used, {}, v, s', !high);
      AbsorbNothing(d, v);
    } else if s' == [] {
      d := Steer(c, used, {}, v, s, high);
      AbsorbNothing(d, v);
    } else if s[..16] == s'[..16] {
      d := SeparateTails(c, used, v, s, s', high);
    } else {
      d := SeparateHeads(c, used, v, s, s', high);
    }
  }

  /** The messages start with the same block. */
  lemma {:induction false} SeparateTails(c: Cipher16, used: set<Block>, v: Block, s: Bytes, s': Bytes, high: bool)
    returns (d: Cipher16)
    requires |s| >= 16 && |s'| >= 16 && Whole(s) && Whole(s') && s != s' && s[..16] == s'[..16]
    requires Free(used, v, s) && 4 * (|used| + |s| + |s'| + 1) < Pow2(120)
    ensures Agree(c, d, used) && High(Absorb(d, v, s)) == high && High(Absorb(d, v, s')) != high
    decreases |s|, 0
  {
    hide Xor, Pow2, Inputs, Absorb, High, Barred;
    var x, t, t' := Xor(v, s[..16]), s[16..], s'[16..];
    assert s == s[..16] + t && s' == s'[..16] + t';
    var all := used + {x};
    BarredFew(all, t);
    BarredFew(all, t');
    var avoid := Barred(all, t) + Barred(all, t');
    assert |avoid| <= |Barred(all, t)| + |Barred(all, t')|;
    var d1 := Advance(c, used, x, avoid, high == (t' != []));
    BarredIs(all, t, d1.Enc(x));
    BarredIs(all, t', d1.Enc(x));
    d := Separate(d1, all, d1.Enc(x), t, t', high);
    AbsorbStep(d, v, s);
    AbsorbStep(d, v, s');
    assert d.Enc(x) == d1.Enc(x);
  }

  /** They start with different blocks: the second way keeps off the first one. */
  lemma {:induction false} SeparateHeads(c: Cipher16, used: set<Block>, v: Block, s: Bytes, s': Bytes, high: bool)
    returns (d: Cipher16)
    requires |s| >= 16 && |s'| >= 16 && Whole(s) && Whole(s') && s[..16] != s'[..16]
    requires Free(used, v, s) && Free(used, v, s') && 4 * (|used| + |s| + |s'| + 1) < Pow2(120)
    ensures Agree(c, d, used) && High(Absorb(d, v, s)) == high && High(Absorb(d, v, s')) != high
  {
    hide Xor, Pow2, Inputs, Absorb, High, Barred;
    var y := Xor(v, s'[..16]);
    XorTwice(v, s[..16]);
    XorDiffers(v, s[..16], s'[..16]);
    var d1 := Steer(c, used, {y}, v, s, high);
    InputsFew(d1, v, s);
    var all := used + Inputs(d1, v, s);
    assert |all| <= |used| + |s|;
    d := Steer(d1, all, {}, v, s', !high);
    SameInputsSameTag(d1, d, v, s);
  }

  lemma {:induction false} XorDiffers(v: Block, a: Block, b: Block)
    requires a != b
    ensures Xor(v, a) != Xor(v, b)
  {
    hide Xor;
    XorSwaps(v, a);
    XorSwaps(v, b);
    XorTwice(a, v);
    XorTwice(b, v);
  }

  lemma {:induction false} PaddedWhole(s: Bytes)
    ensures Whole(ZeroPadded(16, s)) && |s| <= |ZeroPadded(16, s)| <= |s| + 16 && ZeroPadded(16, s)[..|s|] == s
    decreases |s|
  {
    if |s| >= 16 {
      PaddedWhole(s[16..]);
      assert ZeroPadded(16, s)[16..] == ZeroPadded(16, s[16..]);
      assert ZeroPadded(16, s)[..|s|] == s[..16] + ZeroPadded(16, s[16..])[..|s| - 16];
    } else if s != [] {
      assert ZeroPadded(16, s)[16..] == [];
    }
  }

  /** CBC-MAC keeps two messages apart under some cipher, unless one is the other with zeros that the
      padding adds as well; the highest bit of byte 7 differs. */
  lemma {:induction false} TagsDiffer(s: Bytes, s': Bytes, high: bool) returns (c: Cipher16)
    requires s != [] && s' != [] && ZeroPadded(16, s) != ZeroPadded(16, s')
    requires 4 * (|s| + |s'| + 33) < Pow2(120)
    ensures High(Tag(c, Zeros(16), s)) == high && High(Tag(c, Zeros(16), s')) != high
  {
    hide Absorb, High, Pow2, ZeroPadded, Whole;
    PaddedWhole(s);
    PaddedWhole(s');
    c := Separate(Plain(16), {}, Zeros(16), ZeroPadded(16, s), ZeroPadded(16, s'), high);
  }
}
