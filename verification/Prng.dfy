/** The pseudo-random generator of crypto/prng.hh: a block cipher in counter mode. */
module Prng {
  import opened Power
  import opened Bits
  import opened Blocks
  import opened Ciphers

  // ---------- the counter ----------

  /** A byte plus one. */
  function Raised(b: Byte): Byte { if b == 255 then 0 else b + 1 }

  /** The counter as a number, lowest byte first, plus one. */
  function Next(ctr: Bytes): (r: Bytes)
    ensures |r| == |ctr|
  {
    if ctr == [] then []
    else if ctr[0] == 255 then [0] + Next(ctr[1..])
    else [ctr[0] + 1] + ctr[1..]
  }

  /** The counter wraps after all its values. */
  lemma {:induction false} NextIs(ctr: Bytes)
    ensures var x := FromLittleEndian(ctr) + 1;
            FromLittleEndian(Next(ctr)) == if x == Pow2(8 * |ctr|) then 0 else x
    decreases |ctr|
  {
    if ctr != [] {
      NextIs(ctr[1..]);
      WordFits(ctr[1..]);
      Pow2Of8();
      Pow2Add(8, 8 * (|ctr| - 1));
    }
  }

  /** The counter after k steps. */
  function After(ctr: Bytes, k: nat): (r: Bytes)
    ensures |r| == |ctr|
  {
    if k == 0 then ctr else Next(After(ctr, k - 1))
  }

  lemma {:induction false} AfterIs(ctr: Bytes, k: nat)
    requires k < Pow2(8 * |ctr|)
    ensures var x, p := FromLittleEndian(ctr) + k, Pow2(8 * |ctr|);
            FromLittleEndian(After(ctr, k)) == if x < p then x else x - p
  {
    hide FromLittleEndian, Next, Pow2;
    WordFits(ctr);
    if k > 0 {
      AfterIs(ctr, k - 1);
      NextIs(After(ctr, k - 1));
    }
  }

  lemma {:induction false} AfterAfter(ctr: Bytes, j: nat, k: nat)
    ensures After(After(ctr, j), k) == After(ctr, j + k)
  {
    if k > 0 { AfterAfter(ctr, j, k - 1); }
  }

  // ---------- the bytes ----------

  /** The first k blocks: the counter is raised before each. */
  function Stream(c: Cipher, ctr: Bytes, k: nat): (r: Bytes)
    requires c.Valid() && |ctr| == c.size
    ensures |r| == k * c.size
  {
    if k == 0 then [] else Stream(c, ctr, k - 1) + c.Enc(After(ctr, k))
  }

  /** How many blocks n bytes take. */
  function BlockCount(size: nat, n: nat): nat
    requires size > 0
  {
    if n == 0 then 0 else if n <= size then 1 else 1 + BlockCount(size, n - size)
  }

  lemma {:induction false} StreamJoins(c: Cipher, ctr: Bytes, j: nat, k: nat)
    requires c.Valid() && |ctr| == c.size
    ensures Stream(c, ctr, j + k) == Stream(c, ctr, j) + Stream(c, After(ctr, j), k)
  {
    hide After;
    if k > 0 {
      StreamJoins(c, ctr, j, k - 1);
      AfterAfter(ctr, j, k);
      StreamNext(c, ctr, j + k);
      StreamNext(c, After(ctr, j), k);
      hide Stream;
      Associates(Stream(c, ctr, j), Stream(c, After(ctr, j), k - 1), c.Enc(After(ctr, j + k)));
    } else {
      assert Stream(c, After(ctr, j), 0) == [];
    }
  }

  lemma {:induction false} StreamNext(c: Cipher, ctr: Bytes, k: nat)
    requires c.Valid() && |ctr| == c.size && k > 0
    ensures Stream(c, ctr, k) == Stream(c, ctr, k - 1) + c.Enc(After(ctr, k))
  {
  }

  lemma {:induction false} Associates<T>(a: seq<T>, b: seq<T>, c: seq<T>)
    ensures (a + b) + c == a + (b + c)
  {
  }

  /** The bytes that a call for n bytes returns. */
  function Drawn(c: Cipher, ctr: Bytes, n: nat): (r: Bytes)
    requires c.Valid() && |ctr| == c.size
    ensures |r| == n
  {
    BlocksCover(c.size, n);
    Stream(c, ctr, BlockCount(c.size, n))[..n]
  }

  lemma {:induction false} BlocksCover(size: nat, n: nat)
    requires size > 0
    ensures n <= BlockCount(size, n) * size < n + size
  {
    if n > size {
      BlocksCover(size, n - size);
      assert BlockCount(size, n) * size == BlockCount(size, n - size) * size + size;
    }
  }

  /** Two calls, the first one for whole blocks, return what one call returns. */
  lemma {:induction false} DrawsJoin(c: Cipher, ctr: Bytes, k: nat, n: nat)
    requires c.Valid() && |ctr| == c.size
    ensures Drawn(c, ctr, k * c.size + n) == Drawn(c, ctr, k * c.size) + Drawn(c, After(ctr, k), n)
  {
    hide Stream, After;
    BlocksAdd(c.size, k, n);
    BlocksAdd(c.size, k, 0);
    StreamJoins(c, ctr, k, BlockCount(c.size, n));
    BlocksCover(c.size, n);
    var a, b := Stream(c, ctr, k), Stream(c, After(ctr, k), BlockCount(c.size, n));
    assert (a + b)[..k * c.size + n] == a + b[..n];
    assert a[..k * c.size] == a;
  }

  lemma {:induction false} BlocksAdd(size: nat, k: nat, n: nat)
    requires size > 0
    ensures BlockCount(size, k * size + n) == k + BlockCount(size, n)
  {
    if k > 0 {
      BlocksAdd(size, k - 1, n);
      assert k * size + n - size == (k - 1) * size + n;
      Larger(1, k, size);
    }
  }

  /** No block comes twice before the counter has run through all its values. */
  lemma {:induction false} BlocksDiffer(c: Cipher, ctr: Bytes, i: nat, j: nat)
    requires c.Valid() && |ctr| == c.size && i < j < Pow2(8 * c.size)
    ensures c.Enc(After(ctr, i)) != c.Enc(After(ctr, j))
  {
    hide After, Pow2, FromLittleEndian;
    WordFits(ctr);
    AfterIs(ctr, i);
    AfterIs(ctr, j);
    DecEnc(c, After(ctr, i));
    DecEnc(c, After(ctr, j));
  }

  // ---------- numbers ----------

  function NumBits(x: nat): nat { if x == 0 then 0 else 1 + NumBits(x / 2) }

  /** rand_zz_mod takes enough bytes for every number below max. */
  lemma {:induction false} EnoughBits(x: nat)
    ensures x < Pow2(NumBits(x)) && NumBits(x) < 8 * (NumBits(x) / 8 + 1)
  {
    if x > 0 { EnoughBits(x / 2); }
  }

  /** The generator's next number below max. */
  function RandMod(c: Cipher, ctr: Bytes, max: nat): (r: nat)
    requires c.Valid() && |ctr| == c.size && max > 0
    ensures r < max
  {
    FromLittleEndian(Drawn(c, ctr, NumBits(max) / 8 + 1)) % max
  }

  /** Each byte, by the block that it comes from. */
  lemma {:induction false} DrawnByte(c: Cipher, ctr: Bytes, k: nat, j: nat, n: nat)
    requires c.Valid() && |ctr| == c.size && j < c.size && k * c.size + j < n
    ensures Drawn(c, ctr, n)[k * c.size + j] == c.Enc(After(ctr, k + 1))[j]
  {
    hide Stream, After, Drawn;
    CountIs(c.size, k, n);
    StreamNext(c, ctr, k + 1);
    DrawnIs(c, ctr, n);
    StreamStarts(c, ctr, k + 1, BlockCount(c.size, n));
    BlocksCover(c.size, n);
    assert Stream(c, ctr, k + 1)[k * c.size + j] == c.Enc(After(ctr, k + 1))[j];
  }

  lemma {:induction false} DrawnIs(c: Cipher, ctr: Bytes, n: nat)
    requires c.Valid() && |ctr| == c.size
    ensures n <= BlockCount(c.size, n) * c.size && Drawn(c, ctr, n) == Stream(c, ctr, BlockCount(c.size, n))[..n]
  {
    BlocksCover(c.size, n);
  }

  lemma {:induction false} StreamStarts(c: Cipher, ctr: Bytes, j: nat, k: nat)
    requires c.Valid() && |ctr| == c.size && j <= k
    ensures j * c.size <= k * c.size && Stream(c, ctr, k)[..j * c.size] == Stream(c, ctr, j)
  {
    hide Stream;
    Larger(j, k, c.size);
    StreamJoins(c, ctr, j, k - j);
  }

  /** A draw of at most one block is the first bytes of the next counter encrypted. */
  lemma {:induction false} DrawnFromBlock(c: Cipher, ctr: Bytes, n: nat)
    requires c.Valid() && |ctr| == c.size && 0 < n <= c.size
    ensures Drawn(c, ctr, n) == c.Enc(Next(ctr))[..n]
  {
    assert After(ctr, 1) == Next(ctr);
    assert Stream(c, ctr, 0) == [];
    StreamNext(c, ctr, 1);
  }

  lemma {:induction false} Quotient(x: nat, m: nat) returns (q: nat)
    requires m > 0
    ensures x == q * m + x % m
  {
    q := x / m;
  }

  /** The number is what the first bytes of that block are modulo max. */
  lemma {:induction false} RandModIs(c: Cipher, ctr: Bytes, max: nat) returns (q: nat)
    requires c.Valid() && |ctr| == c.size && max > 0 && NumBits(max) / 8 + 1 <= c.size
    ensures FromLittleEndian(c.Enc(Next(ctr))[..NumBits(max) / 8 + 1]) == q * max + RandMod(c, ctr, max)
  {
    hide FromLittleEndian, Drawn, Next;
    var n := NumBits(max) / 8 + 1;
    DrawnFromBlock(c, ctr, n);
    var word := FromLittleEndian(Drawn(c, ctr, n));
    assert RandMod(c, ctr, max) == word % max;
    q := Quotient(word, max);
  }

  lemma {:induction false} FewBits(x: nat, k: nat)
    requires x <= Pow2(k)
    ensures NumBits(x) <= k + 1
  {
    if x > 1 { FewBits(x / 2, k - 1); }
  }

  /** A block that starts with the number v makes it the number drawn. */
  lemma {:induction false} DrawsNumber(c: Cipher, ctr: Bytes, max: nat, v: nat, m: nat)
    requires c.Valid() && |ctr| == c.size && v < max && NumBits(max) / 8 < m <= c.size
    requires c.Enc(Next(ctr))[..m] == LittleEndian(v, m)
    ensures RandMod(c, ctr, max) == v
  {
    hide Drawn, LittleEndian, FromLittleEndian, Pow2, Next, NumBits;
    var n := NumBits(max) / 8 + 1;
    DrawnFromBlock(c, ctr, n);
    LittleEndianStarts(v, n, m);
    assert c.Enc(Next(ctr))[..n] == c.Enc(Next(ctr))[..m][..n];
    EnoughBits(max);
    Pow2Monotone(NumBits(max), 8 * n);
    WordOfNumber(v, n);
    ModSmall(v, max);
  }

  /** Every number below max is drawn under some key. */
  lemma {:induction false} EveryNumberDrawn(ctr: Bytes, max: nat, v: nat) returns (c: Cipher)
    requires |ctr| == 16 && v < max <= Pow2(120)
    ensures c.Valid() && c.size == 16 && RandMod(c, ctr, max) == v
  {
    hide LittleEndian, Next, Pow2, NumBits, RandMod;
    FewBits(max, 120);
    c := Redirected(Plain(16), Next(ctr), LittleEndian(v, 16));
    RedirectedIs(Plain(16), Next(ctr), LittleEndian(v, 16));
    assert LittleEndian(v, 16)[..16] == LittleEndian(v, 16);
    DrawsNumber(c, ctr, max, v, 16);
  }

  lemma {:induction false} NextDiffers(a: Bytes, b: Bytes)
    requires |a| == |b| && a != b
    ensures Next(a) != Next(b)
  {
    hide FromLittleEndian, Next, Pow2, LittleEndian;
    NextIs(a);
    NextIs(b);
    WordFits(a);
    WordFits(b);
    NumberOfWord(a);
    NumberOfWord(b);
  }

  /** Every two numbers are drawn from two counters under some key. */
  lemma {:induction false} EveryPairDrawn(ctr: Bytes, max: nat, v: nat, ctr': Bytes, max': nat, v': nat)
    returns (c: Cipher)
    requires |ctr| == |ctr'| == 16 && ctr != ctr' && v < max <= Pow2(112) && v' < max' <= Pow2(112)
    ensures c.Valid() && c.size == 16 && RandMod(c, ctr, max) == v && RandMod(c, ctr', max') == v'
  {
    hide Next, Pow2, LittleEndian, NumBits, RandMod;
    FewBits(max, 112);
    FewBits(max', 112);
    NextDiffers(ctr, ctr');
    var x, x' := Next(ctr), Next(ctr');
    var y, y' := LittleEndian(v, 15) + [0], LittleEndian(v', 15) + [1];
    assert y[15] != y'[15];
    var c1 := Redirected(Plain(16), x, y);
    RedirectedIs(Plain(16), x, y);
    c := Redirected(c1, x', y');
    RedirectedIs(c1, x', y');
    RedirectedElsewhere(c1, x', y', x);
    assert y[..15] == LittleEndian(v, 15) && y'[..15] == LittleEndian(v', 15);
    DrawsNumber(c, ctr, max, v, 15);
    DrawsNumber(c, ctr', max', v', 15);
  }

  /** One byte of the counter is raised. */
  lemma {:induction false} Carried(was: Bytes, before: Bytes, now: Bytes, j: nat)
    requires j < |was| == |before| && before[j..] == was[j..] && now == before[j := Raised(before[j])]
    requires Next(was) == before[..j] + Next(was[j..])
    ensures if now[j] != 0 then now == Next(was) else Next(was) == now[..j + 1] + Next(was[j + 1..])
    ensures now[j + 1..] == was[j + 1..]
  {
    assert was[j] == before[j] by { assert was[j] == was[j..][0] && before[j] == before[j..][0]; }
    assert was[j..][1..] == was[j + 1..] && before[j..][1..] == before[j + 1..];
    assert now == before[..j] + [now[j]] + before[j + 1..];
    assert now[..j + 1] == before[..j] + [now[j]];
  }

  function Least(a: nat, b: nat): nat { if a < b then a else b }

  /** What one more block does to the buffer. */
  lemma {:induction false} PutIs(was: Bytes, now: Bytes, c: Cipher, ctr: Bytes, k: nat, i: nat)
    requires c.Valid() && |ctr| == c.size && i == k * c.size < |was| && was[..i] == Stream(c, ctr, k)[..i]
    requires now == Splice(was, i, c.Enc(After(ctr, k + 1))[..Least(c.size, |was| - i)])
    ensures |now| == |was| && i + c.size == (k + 1) * c.size
    ensures now[..Least(i + c.size, |was|)] == Stream(c, ctr, k + 1)[..Least(i + c.size, |was|)]
  {
    hide After;
    var b := c.Enc(After(ctr, k + 1));
    var n := Least(c.size, |was| - i);
    assert Stream(c, ctr, k)[..i] == Stream(c, ctr, k);
    assert Stream(c, ctr, k + 1)[..i + n] == Stream(c, ctr, k) + b[..n];
    assert now[..i + n] == was[..i] + b[..n];
  }

  lemma {:induction false} CountIs(size: nat, k: nat, n: nat)
    requires size > 0 && k * size < n
    ensures k < BlockCount(size, n)
    ensures (k + 1) * size >= n ==> BlockCount(size, n) == k + 1
  {
    BlocksAdd(size, k, n - k * size);
  }

  // ---------- the class ----------

  /** blockrng: a generator whose whole state is its counter. */
  class BlockRng {
    const bc: Cipher
    const ctr: array<Byte>

    ghost predicate Valid()
      reads ctr
    {
      bc.Valid() && ctr.Length == bc.size
    }

    constructor (c: Cipher)
      requires c.Valid()
      ensures Valid() && bc == c && fresh(ctr) && ctr[..] == Zeros(c.size)
    {
      bc := c;
      ctr := new Byte[c.size];
      new;
      Store(ctr, 0, Zeros(c.size));
    }

    /** set_ctr; it throws (returns false) unless the string is as long as the counter. */
    method SetCtr(v: Bytes) returns (ok: bool)
      requires Valid()
      modifies ctr
      ensures ok <==> |v| == bc.size
      ensures ctr[..] == if ok then v else old(ctr[..])
    {
      ok := |v| == bc.size;
      if ok {
        Store(ctr, 0, v);
      }
    }

    /** Add one, with a carry from byte to byte. */
    method Raise()
      requires Valid()
      modifies ctr
      ensures ctr[..] == Next(old(ctr[..]))
    {
      ghost var was := ctr[..];
      var j := 0;
      while j < bc.size
        invariant 0 <= j <= bc.size && |was| == bc.size && ctr[j..] == was[j..]
        invariant Next(was) == ctr[..j] + Next(was[j..])
      {
        ghost var before := ctr[..];
        ctr[j] := Raised(ctr[j]);
        Carried(was, before, ctr[..], j);
        if ctr[j] != 0 { return; }
        j := j + 1;
      }
      assert ctr[..] == ctr[..j] && was[j..] == [];
    }

    /** One turn of rand_bytes: the next block, or as much of it as fits. */
    method PutBlock(buf: array<Byte>, i: nat)
      requires Valid() && buf != ctr && i < buf.Length
      modifies ctr, buf
      ensures ctr[..] == Next(old(ctr[..]))
      ensures buf[..] == Splice(old(buf[..]), i, bc.Enc(ctr[..])[..Least(bc.size, buf.Length - i)])
    {
      Raise();
      var ct := bc.Enc(ctr[..]);
      Store(buf, i, ct[..Least(bc.size, buf.Length - i)]);
    }

    /** rand_bytes: the buffer is filled block by block. */
    method RandBytes(buf: array<Byte>)
      requires Valid() && buf != ctr
      modifies ctr, buf
      ensures buf[..] == Drawn(bc, old(ctr[..]), buf.Length)
      ensures ctr[..] == After(old(ctr[..]), BlockCount(bc.size, buf.Length))
    {
      hide Stream, Next, Splice;
      ghost var start := ctr[..];
      ghost var k := 0;
      var i := 0;
      assert buf[..0] == Stream(bc, start, 0)[..0];
      while i < buf.Length
        invariant i == k * bc.size && ctr[..] == After(start, k)
        invariant k <= BlockCount(bc.size, buf.Length)
        invariant i >= buf.Length ==> k == BlockCount(bc.size, buf.Length)
        invariant buf[..Least(i, buf.Length)] == Stream(bc, start, k)[..Least(i, buf.Length)]
      {
        ghost var was := buf[..];
        PutBlock(buf, i);
        PutIs(was, buf[..], bc, start, k, i);
        CountIs(bc.size, k, buf.Length);
        k := k + 1;
        i := i + bc.size;
      }
      assert buf[..buf.Length] == buf[..];
    }

    /** rand_zz_mod: the number depends on the counter only. */
    method RandZzMod(max: nat) returns (r: nat)
      requires Valid() && max > 0
      modifies ctr
      ensures r == RandMod(bc, old(ctr[..]), max)
      ensures ctr[..] == After(old(ctr[..]), BlockCount(bc.size, NumBits(max) / 8 + 1))
    {
      var buf := new Byte[NumBits(max) / 8 + 1];
      RandBytes(buf);
      r := FromLittleEndian(buf[..]) % max;
    }
  }
}
