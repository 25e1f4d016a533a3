/** Bucket and Bloom-filter sizing of the GNU hash section, and the filter's bit operations. */
module GnuHashSizing {
  import opened Words

  const PRIMES: seq<nat> := [1, 1, 3, 3, 7, 13, 31, 61, 127, 251, 509, 1021, 2039, 4093, 8191, 16381, 32749, 65521,
                             131071]

  /** Log2_32_Ceil: the least k with 2^k >= n. */
  function Log2Ceil(n: nat): nat
    requires n > 0
  {
    if n == 1 then 0 else 1 + Log2Ceil((n + 1) / 2)
  }

  function CalcNBuckets(numHashed: nat): nat {
    if numHashed == 0 then 0 else
      var k := Log2Ceil(numHashed);
      PRIMES[if k < |PRIMES| - 1 then k else |PRIMES| - 1]
  }

  /** The least power of two above a, from p on. */
  function NextPowerOf2(a: nat, p: nat): nat
    requires p > 0
    decreases a - p
  {
    if p > a then p else NextPowerOf2(a, 2 * p)
  }

  function CalcMaskWords(numHashed: nat, offSize: nat): nat
    requires offSize > 0
  {
    if numHashed == 0 then 1 else NextPowerOf2((numHashed - 1) / offSize, 1)
  }

  lemma {:induction false} Log2CeilBounds(n: nat)
    requires n > 0
    ensures n <= Pow2(Log2Ceil(n))
    ensures n > 1 ==> Log2Ceil(n) > 0 && Pow2(Log2Ceil(n) - 1) < n
  {
    if n > 1 {
      Log2CeilBounds((n + 1) / 2);
    }
  }

  lemma PrimesFit(k: nat)
    requires 0 < k < |PRIMES|
    ensures 1 <= PRIMES[k] <= Pow2(k - 1) + 1
  {
    assert Pow2(4) == 16;
    assert Pow2(8) == 16 * Pow2(4);
    assert Pow2(12) == 16 * Pow2(8);
    assert Pow2(16) == 16 * Pow2(12);
  }

  /** There is at least one bucket, and never more buckets than symbols. */
  lemma NBucketsBounds(numHashed: nat)
    requires numHashed > 0
    ensures 1 <= CalcNBuckets(numHashed) <= numHashed
  {
    var k := Log2Ceil(numHashed);
    Log2CeilBounds(numHashed);
    if 0 < k {
      var i := if k < |PRIMES| - 1 then k else |PRIMES| - 1;
      PrimesFit(i);
      Pow2Grows(i - 1, k - 1);
    }
  }

  lemma PrimesClose(k: nat)
    requires 0 < k < |PRIMES|
    ensures 4 * PRIMES[k] >= 3 * Pow2(k - 1)
  {
    assert Pow2(4) == 16;
    assert Pow2(8) == 16 * Pow2(4);
    assert Pow2(12) == 16 * Pow2(8);
    assert Pow2(16) == 16 * Pow2(12);
  }

  /** The bucket count is one of a few primes, or 1; up to 2^18 symbols there are fewer than three symbols a
      bucket, and from there on always as many buckets. */
  lemma NBucketsLoad(numHashed: nat)
    requires numHashed > 0
    ensures CalcNBuckets(numHashed) in
      {1, 3, 7, 13, 31, 61, 127, 251, 509, 1021, 2039, 4093, 8191, 16381, 32749, 65521, 131071}
    ensures numHashed <= 0x4_0000 ==> 3 * numHashed <= 8 * CalcNBuckets(numHashed)
    ensures numHashed > 0x2_0000 ==> CalcNBuckets(numHashed) == 131071
  {
    var k := Log2Ceil(numHashed);
    Log2CeilBounds(numHashed);
    Powers();
    if 0 < k < |PRIMES| {
      PrimesClose(k);
    }
    if numHashed > 0x2_0000 && k <= 17 {
      Pow2Grows(k, 17);
    }
    if numHashed <= 0x4_0000 && k > 18 {
      Pow2Grows(18, k - 1);
    }
  }

  lemma Powers()
    ensures Pow2(16) == 0x1_0000 && Pow2(17) == 0x2_0000 && Pow2(18) == 0x4_0000
  {
    assert Pow2(4) == 16;
    assert Pow2(8) == 16 * Pow2(4);
    assert Pow2(12) == 16 * Pow2(8);
    assert Pow2(16) == 16 * Pow2(12);
  }

  lemma {:induction false} NextPowerOf2Bounds(a: nat, p: nat, j: nat) returns (k: nat)
    requires p == Pow2(j) && (j > 0 ==> Pow2(j - 1) <= a)
    ensures NextPowerOf2(a, p) == Pow2(k) > a && (k > 0 ==> Pow2(k - 1) <= a)
    decreases a - p
  {
    if p > a {
      k := j;
    } else {
      k := NextPowerOf2Bounds(a, 2 * p, j + 1);
    }
  }

  /** The filter has a power of two of words, at least eight bits a symbol, and no more words than
      that takes; the word size is that of the 32- or the 64-bit class. */
  lemma MaskWordsBounds(numHashed: nat, offSize: nat) returns (k: nat)
    requires offSize == 4 || offSize == 8
    ensures CalcMaskWords(numHashed, offSize) == Pow2(k)
    ensures 8 * offSize * CalcMaskWords(numHashed, offSize) >= 8 * numHashed
    ensures k > 0 ==> offSize * Pow2(k - 1) < numHashed
  {
    if numHashed == 0 {
      k := 0;
    } else {
      k := NextPowerOf2Bounds((numHashed - 1) / offSize, 1, 0);
    }
  }

  /** x & y */
  function BitAnd(x: nat, y: nat): nat {
    if y == 0 then 0 else 2 * BitAnd(x / 2, y / 2) + (if x % 2 == 1 && y % 2 == 1 then 1 else 0)
  }

  lemma {:induction false} BitAndBelow(x: nat, y: nat)
    ensures BitAnd(x, y) <= y
  {
    if y != 0 {
      BitAndBelow(x / 2, y / 2);
    }
  }

  lemma DoubledRemainder(x: nat, h: nat)
    requires h > 0
    ensures Remainder(x, 2 * h) == 2 * Remainder(x / 2, h) + x % 2
  {
    var q := RemainderOf(x / 2, h);
    assert q * (2 * h) == 2 * (q * h);
    RemainderUnique(x, 2 * h, q, 2 * Remainder(x / 2, h) + x % 2);
  }

  lemma BitAndOnes(x: nat, h: nat)
    requires h > 0
    ensures BitAnd(x, 2 * h - 1) == 2 * BitAnd(x / 2, h - 1) + x % 2
  {
    assert (2 * h - 1) / 2 == h - 1 && (2 * h - 1) % 2 == 1;
  }

  /** Masking with a power of two less one takes the remainder by that power. */
  lemma {:induction false} BitAndIsRemainder(x: nat, k: nat)
    ensures BitAnd(x, Pow2(k) - 1) == Remainder(x, Pow2(k))
    decreases k
  {
    if k == 0 {
      RemainderUnique(x, 1, x, 0);
    } else {
      BitAndIsRemainder(x / 2, k - 1);
      BitAndOnes(x, Pow2(k - 1));
      DoubledRemainder(x, Pow2(k - 1));
    }
  }
}
