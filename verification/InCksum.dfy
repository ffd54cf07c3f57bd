/** The Internet checksum of click-dpdk/lib/in_cksum.c: a 32-bit accumulator that is folded twice
    against the one's complement sum of section 1 of RFC 1071. */
module InCksum {
  import opened Bits

  const WORD: nat := 0x1_0000_0000

  /** A 16-bit word in memory, lowest byte first, as on the machines the library is written for. */
  function Word16(low: nat, high: nat): nat { low + 256 * high }

  /** The sum of the 16-bit words of the data in memory order, an odd byte filled up with zero. */
  function WordSum(data: Bytes): nat {
    if data == [] then 0
    else if |data| % 2 == 1 then WordSum(data[..|data| - 1]) + data[|data| - 1]
    else WordSum(data[..|data| - 2]) + Word16(data[|data| - 2], data[|data| - 1])
  }

  /** An odd byte counts as a word whose second byte in memory is zero. */
  lemma {:induction false} OddIsPadded(data: Bytes)
    requires |data| % 2 == 1
    ensures WordSum(data + [0]) == WordSum(data)
  {
    assert (data + [0])[..|data + [0]| - 2] == data[..|data| - 1];
  }

  /** The one's complement sum: carries out of 16 bits are added at the other end until there are
      none. */
  function OnesSum(s: nat): (r: nat)
    ensures r < 0x1_0000 && (r == 0 <==> s == 0) && r % 0xFFFF == s % 0xFFFF
    decreases s
  {
    if s < 0x1_0000 then s else OnesSum(s % 0x1_0000 + s / 0x1_0000)
  }

  lemma {:induction false} OnesSumIs(s: nat, r: nat)
    requires r < 0x1_0000 && (r == 0 <==> s == 0) && r % 0xFFFF == s % 0xFFFF
    ensures OnesSum(s) == r
  {
    hide OnesSum;
    var t := OnesSum(s);
    assert t % 0xFFFF == r % 0xFFFF;
  }

  /** Two folds are enough for 32 bits; what is above bit 15 after them is cut off. */
  function TwoFolds(sum: nat): nat {
    var once := sum % 0x1_0000 + sum / 0x1_0000;
    (once + once / 0x1_0000) % 0x1_0000
  }

  lemma {:induction false} TwoFoldsAreEnough(sum: nat)
    requires sum < WORD
    ensures TwoFolds(sum) == OnesSum(sum)
  {
    hide OnesSum;
    var once := sum % 0x1_0000 + sum / 0x1_0000;
    FoldKeeps(sum);
    if once < 0x1_0000 {
      assert TwoFolds(sum) == once;
    } else {
      assert TwoFolds(sum) == once - 0xFFFF;
    }
    OnesSumIs(sum, TwoFolds(sum));
  }

  lemma {:induction false} FoldKeeps(sum: nat)
    requires sum < WORD
    ensures var once := sum % 0x1_0000 + sum / 0x1_0000;
            once < 0x1_FFFF && once % 0xFFFF == sum % 0xFFFF && (once == 0 <==> sum == 0)
  {
    var once := sum % 0x1_0000 + sum / 0x1_0000;
    assert sum == once + sum / 0x1_0000 * 0xFFFF;
  }

  /** The 32-bit sum of all words. */
  method Accumulate(data: Bytes) returns (sum: nat)
    ensures sum == WordSum(data) % WORD
  {
    hide Word16;
    var nleft := |data|;
    var w := 0;
    sum := 0;
    assert data[..0] == [];
    while nleft > 1
      invariant 0 <= w && nleft >= 0 && w % 2 == 0 && w + nleft == |data|
      invariant sum == WordSum(data[..w]) % WORD
    {
      WordSumNext(data, w);
      AddWraps(WordSum(data[..w]), Word16(data[w], data[w + 1]));
      sum := (sum + Word16(data[w], data[w + 1])) % WORD;
      w := w + 2;
      nleft := nleft - 2;
    }
    if nleft == 1 {
      WordSumOdd(data);
      AddWraps(WordSum(data[..w]), data[w]);
      sum := (sum + data[w]) % WORD;
    } else {
      assert data[..w] == data;
    }
  }

  /** The complement of what the accumulator sums up to. */
  function ChecksumOf(data: Bytes): (c: nat)
    ensures c < 0x1_0000
  {
    0xFFFF - OnesSum(WordSum(data) % WORD)
  }

  /** click_in_cksum. */
  method Checksum(data: Bytes) returns (answer: nat)
    ensures answer == ChecksumOf(data)
  {
    hide OnesSum, TwoFolds, WordSum;
    var sum := Accumulate(data);
    TwoFoldsAreEnough(sum);
    Folded(sum);
    sum := sum % 0x1_0000 + sum / 0x1_0000;
    sum := (sum + sum / 0x1_0000) % WORD;
    answer := 0xFFFF - sum % 0x1_0000;
  }

  lemma {:induction false} Folded(sum: nat)
    requires sum < WORD
    ensures var once := sum % 0x1_0000 + sum / 0x1_0000;
            (once + once / 0x1_0000) % WORD % 0x1_0000 == TwoFolds(sum)
  {
  }

  lemma {:induction false} AddWraps(s: nat, x: nat)
    ensures (s % WORD + x) % WORD == (s + x) % WORD
  {
  }

  lemma {:induction false} WordSumNext(data: Bytes, w: nat)
    requires w + 2 <= |data| && w % 2 == 0
    ensures WordSum(data[..w + 2]) == WordSum(data[..w]) + Word16(data[w], data[w + 1])
  {
    assert data[..w + 2][..w] == data[..w];
  }

  lemma {:induction false} WordSumOdd(data: Bytes)
    requires |data| % 2 == 1
    ensures WordSum(data) == WordSum(data[..|data| - 1]) + data[|data| - 1]
  {
  }

  /** When the accumulator loses nothing: exactly when the words sum up to less than 2^32, or the
      number of times it wraps round is a multiple of 65535 and something is left. */
  lemma {:induction false} WhenExact(s: nat)
    ensures OnesSum(s % WORD) == OnesSum(s) <==> s < WORD || (s % WORD != 0 && s / WORD % 0xFFFF == 0)
  {
    hide OnesSum;
    var c, r := s / WORD, s % WORD;
    assert s == c * WORD + r;
    assert s % 0xFFFF == (c + r) % 0xFFFF by {
      assert WORD == 0xFFFF * 0x1_0001 + 1;
      assert s == 0xFFFF * (c * 0x1_0001) + (c + r);
    }
    if OnesSum(r) == OnesSum(s) && s >= WORD {
      assert r != 0;
      assert (c + r) % 0xFFFF == r % 0xFFFF;
      assert c % 0xFFFF == 0;
    }
    if s >= WORD && r != 0 && c % 0xFFFF == 0 {
      assert (c + r) % 0xFFFF == r % 0xFFFF;
      OnesSumIs(s, OnesSum(r));
    }
    if s < WORD {
      assert r == s;
    }
  }

  /** Data of up to 131074 bytes, more than any IP packet has, never makes it wrap. */
  lemma {:induction false} PacketsFit(data: Bytes)
    requires |data| <= MOST
    ensures WordSum(data) < WORD
  {
    WordSumBound(data);
  }

  lemma {:induction false} WordSumBound(data: Bytes)
    ensures WordSum(data) <= (|data| + 1) / 2 * 0xFFFF
  {
    if data == [] {
    } else if |data| % 2 == 1 {
      WordSumBound(data[..|data| - 1]);
    } else {
      WordSumBound(data[..|data| - 2]);
    }
  }

  /** The most bytes that the accumulator always holds. */
  const MOST: nat := 131074

  /** Bytes of ones up to one byte above that, and zeros. */
  function Ones(n: nat): (data: Bytes)
    ensures |data| == n
  {
    seq(n, i => if i <= MOST then 255 else 0)
  }

  function OneAt(i: nat): nat { if i <= MOST then 255 else 0 }

  lemma {:induction false} OnesNext(n: nat)
    ensures WordSum(Ones(0)) == 0
    ensures n % 2 == 1 ==> WordSum(Ones(n)) == WordSum(Ones(n - 1)) + OneAt(n - 1)
    ensures n % 2 == 0 && n > 0 ==> WordSum(Ones(n)) == WordSum(Ones(n - 2)) + OneAt(n - 2) + 256 * OneAt(n - 1)
  {
    if n % 2 == 1 {
      assert Ones(n)[..n - 1] == Ones(n - 1);
    } else if n > 0 {
      assert Ones(n)[..n - 2] == Ones(n - 2);
    }
  }

  lemma {:induction false} OnesAdd(n: nat)
    ensures WordSum(Ones(n)) == if n <= MOST then n / 2 * 0xFFFF + n % 2 * 255 else WORD + 254
  {
    hide WordSum, Ones;
    OnesNext(n);
    if n % 2 == 1 {
      OnesAdd(n - 1);
    } else if n > 0 {
      OnesAdd(n - 2);
    }
  }

  /** The result is the one's complement sum for all data of a length exactly up to that bound. */
  lemma {:induction false} ExactUpTo(n: nat)
    ensures (forall data: Bytes {:trigger WordSum(data)} ::
               |data| == n ==> OnesSum(WordSum(data) % WORD) == OnesSum(WordSum(data))) <==> n <= MOST
  {
    hide OnesSum, WordSum;
    if n <= MOST {
      forall data: Bytes | |data| == n
        ensures OnesSum(WordSum(data) % WORD) == OnesSum(WordSum(data))
      {
        PacketsFit(data);
      }
    } else {
      OnesAdd(n);
      WhenExact(WordSum(Ones(n)));
    }
  }

  /** Data with a 16-bit word stored at an even offset. */
  function Stored(data: Bytes, at: nat, c: nat): (r: Bytes)
    requires at + 2 <= |data| && c < 0x1_0000
    ensures |r| == |data|
  {
    data[at := c % 256][at + 1 := c / 256]
  }

  lemma {:induction false} StoredAdds(data: Bytes, at: nat, c: nat)
    requires at + 2 <= |data| && at % 2 == 0 && c < 0x1_0000 && data[at] == 0 == data[at + 1]
    ensures WordSum(Stored(data, at, c)) == WordSum(data) + c
    decreases |data|
  {
    var d := Stored(data, at, c);
    var n := |data|;
    if n % 2 == 1 {
      assert d[..n - 1] == Stored(data[..n - 1], at, c);
      StoredAdds(data[..n - 1], at, c);
    } else if at + 2 < n {
      assert d[..n - 2] == Stored(data[..n - 2], at, c);
      StoredAdds(data[..n - 2], at, c);
    } else {
      assert d[..at] == data[..at];
    }
  }

  /** A packet that carries the checksum of its data, computed with zeros in its place, has the
      checksum zero: the receiver's check. The accumulator may have wrapped on the way. */
  lemma {:induction false} ReceiverAccepts(data: Bytes, at: nat)
    requires at + 2 <= |data| && at % 2 == 0 && data[at] == 0 == data[at + 1]
    ensures ChecksumOf(Stored(data, at, ChecksumOf(data))) == 0
  {
    hide OnesSum, WordSum, Stored;
    var s, c := WordSum(data), ChecksumOf(data);
    StoredAdds(data, at, c);
    FillsUp(s % WORD);
    assert (s + c) % WORD == s % WORD + c;
  }

  /** The checksum fills a 32-bit sum up to a multiple of 65535 without wrapping it. */
  lemma {:induction false} FillsUp(r: nat)
    requires r < WORD
    ensures var c := 0xFFFF - OnesSum(r); r + c < WORD && OnesSum(r + c) == 0xFFFF
  {
    hide OnesSum;
    var c := 0xFFFF - OnesSum(r);
    assert (r + c) % 0xFFFF == 0;
    assert WORD - 1 == 0xFFFF * 0x1_0001;
    OnesSumIs(r + c, 0xFFFF);
  }
}
