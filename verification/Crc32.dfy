/** The table-driven CRC of click-dpdk/lib/crc32.c against a shift register that takes one
    message bit at a time. */
module Crc32 {

  const POLYNOMIAL: bv32 := 0x04c11db7
  const TOP: bv32 := 0x80000000

  function Plus(x: bv32, y: bv32): bv32 { x ^ y }

  /** One shift of the register. */
  function Shift(c: bv32): bv32 {
    if c & TOP != 0 then (c << 1) ^ POLYNOMIAL else c << 1
  }

  function Shifts(c: bv32, k: nat): bv32
    decreases k
  {
    if k == 0 then c else Shifts(Shift(c), k - 1)
  }

  /** The register after message bit b: b is added at the top and the register shifted once. */
  function Feed(c: bv32, b: bool): bv32 {
    Shift(Plus(c, if b then TOP else 0))
  }

  /** The register after a message of bits: the remainder of polynomial division. */
  function Serial(c: bv32, bits: seq<bool>): bv32 {
    if bits == [] then c else Feed(Serial(c, bits[..|bits| - 1]), bits[|bits| - 1])
  }

  /** A byte at the top of a word. */
  function AtTop(b: bv8): bv32 { (b as bv32) << 24 }

  /** The bits of a byte, highest first. */
  function ByteBits(b: bv8): (bits: seq<bool>)
    ensures |bits| == 8
  {
    [b & 0x80 != 0, b & 0x40 != 0, b & 0x20 != 0, b & 0x10 != 0, b & 0x08 != 0, b & 0x04 != 0, b & 0x02 != 0,
     b & 0x01 != 0]
  }

  function BitsOf(data: seq<bv8>): seq<bool> {
    if data == [] then [] else BitsOf(data[..|data| - 1]) + ByteBits(data[|data| - 1])
  }

  /** The entry that table lookup finds for a byte. */
  function TableEntry(b: bv8): bv32 { Shifts(AtTop(b), 8) }

  /** One byte by table lookup. */
  function UpdateByte(c: bv32, b: bv8): bv32 {
    Plus(c << 8, TableEntry(((c >> 24) as bv8) ^ b))
  }

  function UpdateSpec(c: bv32, data: seq<bv8>): bv32 {
    if data == [] then c else UpdateByte(UpdateSpec(c, data[..|data| - 1]), data[|data| - 1])
  }

  /** The generator polynomial: what a single one leaves behind, and the table's entry for byte 1. */
  lemma {:induction false} PolynomialIs()
    ensures Serial(0, [true]) == 79764919 && TableEntry(1) == 79764919 && 79764919 == 0x04c11db7
  {
    assert [true][..0] == [];
    assert AtTop(1) == 0x0100_0000;
    EntryOfOne();
  }

  lemma {:induction false} EntryOfOne()
    ensures Shifts(0x0100_0000, 8) == 79764919
  {
    assert Shift(0x0100_0000) == 0x0200_0000 && Shift(0x0200_0000) == 0x0400_0000 && Shift(0x0400_0000) == 0x0800_0000;
    assert Shift(0x0800_0000) == 0x1000_0000 && Shift(0x1000_0000) == 0x2000_0000 && Shift(0x2000_0000) == 0x4000_0000;
    assert Shift(0x4000_0000) == 0x8000_0000 && Shift(0x8000_0000) == 79764919;
  }

  // ---------- linearity ----------

  lemma {:induction false} XorOfShifted(x: bv32, y: bv32)
    ensures (x ^ y) << 1 == (x << 1) ^ (y << 1)
  {
  }

  lemma {:induction false} TopOfXor(x: bv32, y: bv32)
    ensures (x ^ y) & TOP == (x & TOP) ^ (y & TOP)
    ensures x & TOP == 0 || x & TOP == TOP
  {
  }

  lemma {:induction false} XorGroups(a: bv32, b: bv32, p: bv32)
    ensures (a ^ p) ^ (b ^ p) == a ^ b && (a ^ p) ^ b == (a ^ b) ^ p && a ^ (b ^ p) == (a ^ b) ^ p
  {
  }

  lemma {:induction false} ShiftIsLinear(x: bv32, y: bv32)
    ensures Shift(Plus(x, y)) == Plus(Shift(x), Shift(y))
  {
    XorOfShifted(x, y);
    TopOfXor(x, y);
    TopOfXor(y, x);
    XorGroups(x << 1, y << 1, POLYNOMIAL);
  }

  lemma {:induction false} ShiftsAreLinear(x: bv32, y: bv32, k: nat)
    ensures Shifts(Plus(x, y), k) == Plus(Shifts(x, k), Shifts(y, k))
    decreases k
  {
    hide Shift, Plus;
    if k > 0 {
      ShiftIsLinear(x, y);
      ShiftsAreLinear(Shift(x), Shift(y), k - 1);
    }
  }

  // ---------- one byte ----------

  function Left(x: bv32): bv32 { x << 1 }

  predicate NoCarry(x: bv32) { x & TOP == 0 }

  lemma {:induction false} PlainShift(x: bv32)
    requires NoCarry(x)
    ensures Shift(x) == Left(x)
  {
  }

  lemma {:induction false} LowBits(x: bv32)
    requires x & 0xff000000 == 0
    ensures NoCarry(x) && NoCarry(Left(x)) && NoCarry(Left(Left(x))) && NoCarry(Left(Left(Left(x))))
    ensures NoCarry(Left(Left(Left(Left(x))))) && NoCarry(Left(Left(Left(Left(Left(x))))))
    ensures NoCarry(Left(Left(Left(Left(Left(Left(x)))))))
    ensures NoCarry(Left(Left(Left(Left(Left(Left(Left(x))))))))
    ensures Left(Left(Left(Left(Left(Left(Left(Left(x)))))))) == x << 8
  {
  }

  lemma {:induction false} EightShifts(x: bv32)
    ensures Shifts(x, 8) == Shift(Shift(Shift(Shift(Shift(Shift(Shift(Shift(x))))))))
  {
    hide Shift;
    assert Shifts(x, 8) == Shifts(Shift(Shift(Shift(Shift(x)))), 4);
  }

  lemma {:induction false} LowByteShifts(x: bv32)
    requires x & 0xff000000 == 0
    ensures Shifts(x, 8) == x << 8
  {
    hide Shift, Shifts, Left, NoCarry;
    LowBits(x);
    EightShifts(x);
    PlainShift(x);
    PlainShift(Left(x));
    PlainShift(Left(Left(x)));
    PlainShift(Left(Left(Left(x))));
    PlainShift(Left(Left(Left(Left(x)))));
    PlainShift(Left(Left(Left(Left(Left(x))))));
    PlainShift(Left(Left(Left(Left(Left(Left(x)))))));
    PlainShift(Left(Left(Left(Left(Left(Left(Left(x))))))));
  }

  lemma {:induction false} SplitWord(c: bv32, b: bv8)
    ensures Plus(c, AtTop(b)) == Plus(c & 0x00ffffff, AtTop(((c >> 24) as bv8) ^ b))
    ensures (c & 0x00ffffff) & 0xff000000 == 0 && (c & 0x00ffffff) << 8 == c << 8
  {
  }

  /** A table lookup is eight shifts of the register with the byte added at the top. */
  lemma {:induction false} LookupIsEightShifts(c: bv32, b: bv8)
    ensures UpdateByte(c, b) == Shifts(Plus(c, AtTop(b)), 8)
  {
    hide Plus, AtTop, Shifts;
    SplitWord(c, b);
    ShiftsAreLinear(c & 0x00ffffff, AtTop(((c >> 24) as bv8) ^ b), 8);
    LowByteShifts(c & 0x00ffffff);
  }

  // ---------- bit by bit ----------

  /** Bit k of a byte at the top of a word, counted from the highest. */
  function Place(k: nat): bv32 {
    if k == 0 then TOP else Place(k - 1) >> 1
  }

  /** The k highest bits of a byte at the top of a word. */
  function TopBits(b: bv8, k: nat): bv32
    requires k <= 8
  {
    if k == 0 then 0 else Plus(TopBits(b, k - 1), if ByteBits(b)[k - 1] then Place(k - 1) else 0)
  }

  lemma {:induction false} ShiftsLast(c: bv32, k: nat)
    ensures Shifts(c, k + 1) == Shift(Shifts(c, k))
    decreases k
  {
    hide Shift;
    if k > 0 { ShiftsLast(Shift(c), k - 1); }
  }

  lemma {:induction false} PlacesAre()
    ensures Place(0) == 0x80000000 && Place(1) == 0x40000000 && Place(2) == 0x20000000 && Place(3) == 0x10000000
    ensures Place(4) == 0x08000000 && Place(5) == 0x04000000 && Place(6) == 0x02000000 && Place(7) == 0x01000000
  {
    assert Place(3) == 0x10000000;
    assert Place(6) == 0x02000000;
  }

  lemma {:induction false} HighTopBitsAre(b: bv8)
    ensures TopBits(b, 4) == AtTop(b) & 0xf0000000
  {
    PlacesAre();
    hide Place;
    assert TopBits(b, 1) == AtTop(b) & 0x80000000;
    assert TopBits(b, 2) == AtTop(b) & 0xc0000000;
    assert TopBits(b, 3) == AtTop(b) & 0xe0000000;
  }

  lemma {:induction false} TopBitsAre(b: bv8)
    ensures TopBits(b, 8) == AtTop(b)
  {
    PlacesAre();
    HighTopBitsAre(b);
    hide Place;
    assert TopBits(b, 5) == AtTop(b) & 0xf8000000;
    assert TopBits(b, 6) == AtTop(b) & 0xfc000000;
    assert TopBits(b, 7) == AtTop(b) & 0xfe000000;
  }

  lemma {:induction false} ShiftedOut(k: nat)
    requires k < 8
    ensures Shifts(Place(k), k) == TOP && Shifts(0, k) == 0
    decreases k
  {
    if k > 0 {
      PlacesAre();
      assert Shift(Place(k)) == Place(k - 1);
      assert Shift(0) == 0;
      ShiftedOut(k - 1);
    }
  }

  lemma {:induction false} PlusGroups(a: bv32, b: bv32, c: bv32)
    ensures Plus(a, Plus(b, c)) == Plus(Plus(a, b), c) && Plus(a, 0) == a
  {
  }

  lemma {:induction false} BitByBit(c: bv32, b: bv8, k: nat)
    requires k <= 8
    ensures Serial(c, ByteBits(b)[..k]) == Shifts(Plus(c, TopBits(b, k)), k)
  {
    hide Plus, Shift, ByteBits, Place;
    var bits := ByteBits(b);
    if k == 0 {
      PlusGroups(c, 0, 0);
    } else {
      var x := if bits[k - 1] then Place(k - 1) else 0;
      var t := TopBits(b, k - 1);
      BitByBit(c, b, k - 1);
      assert bits[..k][..k - 1] == bits[..k - 1];
      PlusGroups(c, t, x);
      ShiftsAreLinear(Plus(c, t), x, k - 1);
      ShiftedOut(k - 1);
      ShiftsLast(Plus(c, TopBits(b, k)), k - 1);
    }
  }

  lemma {:induction false} SerialJoins(c: bv32, x: seq<bool>, y: seq<bool>)
    ensures Serial(c, x + y) == Serial(Serial(c, x), y)
    decreases |y|
  {
    hide Feed;
    if y == [] {
      assert x + y == x;
    } else {
      var y' := y[..|y| - 1];
      SerialJoins(c, x, y');
      assert (x + y)[..|x + y| - 1] == x + y';
    }
  }

  lemma {:induction false} ByteIsEightBits(c: bv32, b: bv8)
    ensures Serial(c, ByteBits(b)) == UpdateByte(c, b)
  {
    hide Plus, AtTop, UpdateByte;
    BitByBit(c, b, 8);
    TopBitsAre(b);
    LookupIsEightShifts(c, b);
    assert ByteBits(b)[..8] == ByteBits(b);
  }

  /** Table lookup byte by byte computes the bit-serial remainder, for every start value and
      every message. */
  lemma {:induction false} UpdateIsSerial(c: bv32, data: seq<bv8>)
    ensures UpdateSpec(c, data) == Serial(c, BitsOf(data))
  {
    hide UpdateByte, ByteBits;
    if data != [] {
      var d, b := data[..|data| - 1], data[|data| - 1];
      UpdateIsSerial(c, d);
      SerialJoins(c, BitsOf(d), ByteBits(b));
      ByteIsEightBits(UpdateSpec(c, d), b);
    }
  }

  /** The CRC of a concatenation is two chained updates. */
  lemma {:induction false} UpdateJoins(c: bv32, x: seq<bv8>, y: seq<bv8>)
    ensures UpdateSpec(c, x + y) == UpdateSpec(UpdateSpec(c, x), y)
    decreases |y|
  {
    hide UpdateByte;
    if y == [] {
      assert x + y == x;
    } else {
      var y' := y[..|y| - 1];
      UpdateJoins(c, x, y');
      assert (x + y)[..|x + y| - 1] == x + y';
    }
  }

  // ---------- the loops ----------

  /** crc_table and whether it has been filled. */
  class Crc {
    var table: array<bv32>
    var initialized: bool

    ghost predicate Valid()
      reads this, table
    {
      table.Length == 256 && (initialized ==> Filled(256))
    }

    /** The entries below n are those that eight shifts give. */
    ghost predicate Filled(n: nat)
      requires n <= 256 == table.Length
      reads this, table
    {
      forall i :: 0 <= i < n ==> table[i] == TableEntry(i as bv8)
    }

    constructor ()
      ensures Valid() && fresh(table)
    {
      table := new bv32[256](_ => 0);
      initialized := false;
    }

    /** gen_crc_table. */
    method GenTable()
      requires table.Length == 256
      modifies table
      ensures Filled(256)
    {
      hide TableEntry;
      for i := 0 to 256
        invariant Filled(i)
      {
        table[i] := Entry(i as bv8);
      }
    }

    /** update_crc. */
    method Update(start: bv32, data: seq<bv8>) returns (crc: bv32)
      requires Valid()
      modifies this`initialized, table
      ensures Valid() && crc == UpdateSpec(start, data)
    {
      hide TableEntry, UpdateByte;
      if !initialized {
        initialized := true;
        GenTable();
      }
      crc := start;
      for j := 0 to |data|
        invariant Valid() && initialized && crc == UpdateSpec(start, data[..j])
      {
        assert data[..j + 1][..j] == data[..j];
        crc := Lookup(crc, data[j]);
      }
      assert data[..|data|] == data;
    }

    /** The body of its loop. */
    method Lookup(crc: bv32, b: bv8) returns (r: bv32)
      requires Valid() && initialized
      ensures r == UpdateByte(crc, b)
    {
      hide TableEntry;
      var i := ((crc >> 24) as bv8) ^ b;
      ByteAsInt(i);
      r := (crc << 8) ^ table[i as int];
    }
  }

  lemma {:induction false} ByteAsInt(b: bv8)
    ensures 0 <= b as int < 256 && (b as int) as bv8 == b
  {
  }

  /** The inner loop of gen_crc_table. */
  method Entry(i: bv8) returns (crc: bv32)
    ensures crc == TableEntry(i)
  {
    hide Shift, AtTop;
    crc := AtTop(i);
    for j := 0 to 8
      invariant crc == Shifts(AtTop(i), j)
    {
      ShiftsLast(AtTop(i), j);
      crc := ShiftOnce(crc);
    }
  }

  method ShiftOnce(c: bv32) returns (r: bv32)
    ensures r == Shift(c)
  {
    if c & TOP != 0 {
      r := (c << 1) ^ POLYNOMIAL;
    } else {
      r := c << 1;
    }
  }
}
