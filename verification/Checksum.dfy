/** The Internet checksum (section 1 of RFC 1071) over bytes taken as little-endian 16-bit words, and
    the folding helpers of ebpf-nfs/katran/csum_helpers.h and ebpf-nfs/crab/lb_kern.c. */
module Checksums {

  type byte = b: int | 0 <= b < 256
  type Bytes = seq<byte>

  const TWO_32 := 0x1_0000_0000

  type u16 = x: int | 0 <= x < 0x1_0000
  type u32 = x: int | 0 <= x < TWO_32

  const ALL_ONES := 0xFFFF

  // ----- one's complement sums

  function Word(lo: byte, hi: byte): (w: int)
    ensures 0 <= w <= ALL_ONES
  {
    (lo as int) + 256 * (hi as int)
  }

  /** The plain sum of the words; a trailing odd byte is padded with zero. */
  function Sum16(b: Bytes): nat {
    if |b| == 0 then 0 else if |b| == 1 then b[0] else Word(b[0], b[1]) + Sum16(b[2..])
  }

  /** 16-bit addition with end-around carry. */
  function OnesAdd(x: nat, y: nat): nat {
    if x + y > ALL_ONES then x + y - ALL_ONES else x + y
  }

  function OnesSum(b: Bytes): nat {
    if |b| == 0 then 0 else if |b| == 1 then b[0] else OnesAdd(Word(b[0], b[1]), OnesSum(b[2..]))
  }

  /** RFC 1071: the sum over the data including its checksum is all ones. */
  ghost predicate Verifies(b: Bytes) {
    OnesSum(b) == ALL_ONES
  }

  /** The 16-bit number that stands for x modulo 65535: zero only for zero. By repeated subtraction, so
      that a proof meets the modulus only where it asks for CanonMod. */
  function Canon(x: nat): (r: nat)
    ensures r <= ALL_ONES && (r == 0 <==> x == 0)
  {
    if x <= ALL_ONES then x else Canon(x - ALL_ONES)
  }

  lemma {:induction false} CanonMod(x: nat)
    ensures Canon(x) == if x == 0 then 0 else (x - 1) % ALL_ONES + 1
  {
    if x > ALL_ONES {
      CanonMod(x - ALL_ONES);
      assert (x - 1 - ALL_ONES) % ALL_ONES == (x - 1) % ALL_ONES;
    }
  }

  /** Numbers that differ by a multiple of 65535 have the same residue, unless one of them is zero. */
  lemma {:induction false} CanonMultiple(x: nat, k: nat)
    requires x > 0
    ensures Canon(x + k * ALL_ONES) == Canon(x)
    decreases k
  {
    if k > 0 {
      CanonMultiple(x, k - 1);
      assert x + k * ALL_ONES - ALL_ONES == x + (k - 1) * ALL_ONES;
    }
  }

  lemma {:induction false} CanonSum(x: nat, y: nat)
    ensures Canon(Canon(x) + y) == Canon(x + y)
    ensures Canon(x) <= ALL_ONES && (Canon(x) == 0 <==> x == 0)
  {
    if x > ALL_ONES {
      CanonSum(x - ALL_ONES, y);
      CanonMultiple(x - ALL_ONES + y, 1);
    }
  }

  lemma {:induction false} OnesSumIsCanon(b: Bytes)
    ensures OnesSum(b) == Canon(Sum16(b))
  {
    if |b| >= 2 {
      hide Canon, OnesAdd, Word;
      OnesSumIsCanon(b[2..]);
      OnesAddCanon(Word(b[0], b[1]), Sum16(b[2..]));
    }
  }

  lemma OnesAddCanon(x: nat, sum: nat)
    requires x <= ALL_ONES
    ensures OnesAdd(x, Canon(sum)) == Canon(x + sum)
  {
    CanonSum(sum, x);
  }

  /** Data verifies exactly when its plain sum is a positive multiple of 65535. */
  lemma VerifiesIff(b: Bytes)
    ensures Verifies(b) <==> Sum16(b) > 0 && Sum16(b) % ALL_ONES == 0
  {
    OnesSumIsCanon(b);
    CanonFull(Sum16(b));
  }

  lemma CanonFull(x: nat)
    ensures Canon(x) == ALL_ONES <==> x > 0 && x % ALL_ONES == 0
  {
    CanonMod(x);
  }

  lemma {:induction false} SumConcat(a: Bytes, b: Bytes)
    requires |a| % 2 == 0
    ensures Sum16(a + b) == Sum16(a) + Sum16(b)
  {
    if a == [] {
      assert a + b == b;
    } else {
      assert (a + b)[2..] == a[2..] + b;
      SumConcat(a[2..], b);
    }
  }

  lemma SumNothing()
    ensures Sum16([]) == 0
  {
  }

  lemma SumWord(lo: byte, hi: byte)
    ensures Sum16([lo, hi]) == Word(lo, hi)
  {
    assert [lo, hi][2..] == [];
  }

  function Zeros(n: nat): (r: Bytes)
    ensures |r| == n && forall i :: 0 <= i < n ==> r[i] == 0
  {
    seq(n, _ => 0)
  }

  lemma {:induction false} SumZeros(n: nat)
    ensures Sum16(Zeros(n)) == 0
  {
    if n >= 2 {
      assert Zeros(n)[2..] == Zeros(n - 2);
      SumZeros(n - 2);
    }
  }

  /** x / 256, by repeated subtraction for the same reason. */
  function Div256(x: nat): nat {
    if x < 256 then 0 else 1 + Div256(x - 256)
  }

  lemma {:induction false} DivMod256(x: nat)
    ensures Div256(x) == x / 256 && 256 * Div256(x) <= x < 256 * Div256(x) + 256
  {
    if x >= 256 {
      DivMod256(x - 256);
    }
  }

  function LowByte(x: nat): byte {
    DivMod256(x);
    x - 256 * Div256(x)
  }

  function HighByte(x: nat): byte {
    LowByte(Div256(x))
  }

  /** A 16-bit value as the program stores it. */
  function Store16(x: nat): Bytes {
    [LowByte(x), HighByte(x)]
  }

  function Load16(b: Bytes, i: nat): nat
    requires i + 2 <= |b|
  {
    Word(b[i], b[i + 1])
  }

  lemma StoreSize(x: nat)
    ensures |Store16(x)| == 2
  {
  }

  lemma StoreSum(x: nat)
    requires x <= ALL_ONES
    ensures Sum16(Store16(x)) == x && Load16(Store16(x), 0) == x
  {
    SumWord(LowByte(x), HighByte(x));
    DivMod256(x);
    DivMod256(Div256(x));
  }

  // ----- folding

  function Fold(x: nat): nat {
    x % 0x1_0000 + x / 0x1_0000
  }

  lemma FoldKeepsCanon(x: nat)
    ensures Canon(Fold(x)) == Canon(x)
    ensures x < 0x1_0000 ==> Fold(x) == x
  {
    var q, r := x / 0x1_0000, x % 0x1_0000;
    assert x == r + q + q * ALL_ONES;
    if r + q > 0 {
      CanonMultiple(r + q, q);
    }
  }

  /** csum_fold_helper: four folds bring every 64-bit sum down to its 16-bit residue, which is then
      complemented. */
  method CsumFoldHelper(sum: nat) returns (r: nat)
    requires sum < 0x1_0000_0000_0000_0000
    ensures r == ALL_ONES - Canon(sum)
  {
    var csum := sum;
    var i := 0;
    while i < 4
      invariant 0 <= i <= 4
      invariant csum <= (if i == 0 then 0xFFFF_FFFF_FFFF_FFFF else if i == 1 then 0x1_0000_0000_FFFE
                         else if i == 2 then 0x1_0000_FFFE else if i == 3 then 0x1_FFFE else 0xFFFF)
      invariant Canon(csum) == Canon(sum)
    {
      FoldKeepsCanon(csum);
      if csum / 0x1_0000 != 0 {
        csum := csum % 0x1_0000 + csum / 0x1_0000;
      }
      i := i + 1;
    }
    r := ALL_ONES - csum % 0x1_0000;
  }

  /** csum_reduce_helper: two folds are enough for 32 bits. */
  function CsumReduceHelper(sum: nat): (r: nat)
    requires sum < 0x1_0000_0000
    ensures r == Canon(sum)
  {
    FoldKeepsCanon(sum);
    FoldKeepsCanon(Fold(sum));
    Fold(Fold(sum))
  }

  /** The checksum makes the data verify: with a zero in the checksum word, storing the complement
      of the residue there completes the sum. */
  lemma ComplementCompletes(rest: nat)
    requires rest > 0
    ensures (rest + (ALL_ONES - Canon(rest))) % ALL_ONES == 0
  {
    CanonMod(rest);
  }

  // ----- bpf_csum_diff with nothing subtracted

  /** 32-bit addition with end-around carry. */
  function Add32(x: nat, y: nat): (r: nat)
    requires x < 0x1_0000_0000 && y < 0x1_0000_0000
    ensures r < 0x1_0000_0000
  {
    if x + y >= 0x1_0000_0000 then x + y - 0xFFFF_FFFF else x + y
  }

  function Word32(lo: nat, hi: nat): (w: nat)
    requires lo <= ALL_ONES && hi <= ALL_ONES
    ensures w < 0x1_0000_0000
  {
    lo + 0x1_0000 * hi
  }

  function CsumDiff(b: Bytes, seed: nat): (r: nat)
    requires |b| % 4 == 0 && seed < 0x1_0000_0000
    ensures r < 0x1_0000_0000
  {
    if b == [] then seed
    else CsumDiff(b[4..], Add32(seed, Word32(Word(b[0], b[1]), Word(b[2], b[3]))))
  }

  /** Whatever 32-bit number it returns, it stands for the seed plus the sum of the words. */
  lemma {:induction false} CsumDiffIsSum(b: Bytes, seed: nat)
    requires |b| % 4 == 0 && seed < 0x1_0000_0000
    ensures Canon(CsumDiff(b, seed)) == Canon(seed + Sum16(b))
  {
    hide Canon, CsumDiff, Sum16, Add32, Word32, Word;
    if b == [] {
      CsumDiffEmpty(seed);
    } else {
      var lo, hi, rest := Word(b[0], b[1]), Word(b[2], b[3]), Sum16(b[4..]);
      var next := Add32(seed, Word32(lo, hi));
      CsumDiffStep(b, seed);
      CsumDiffIsSum(b[4..], next);
      Add32KeepsCanon(seed, lo, hi);
      CanonSum(next, rest);
      CanonSum(seed + lo + hi, rest);
    }
  }

  lemma CsumDiffEmpty(seed: nat)
    requires seed < 0x1_0000_0000
    ensures CsumDiff([], seed) == seed && Sum16([]) == 0
  {
  }

  lemma CsumDiffStep(b: Bytes, seed: nat)
    requires |b| % 4 == 0 && b != [] && seed < 0x1_0000_0000
    ensures CsumDiff(b, seed) == CsumDiff(b[4..], Add32(seed, Word32(Word(b[0], b[1]), Word(b[2], b[3]))))
    ensures Sum16(b) == Word(b[0], b[1]) + Word(b[2], b[3]) + Sum16(b[4..])
  {
    hide Add32, Word32, Word;
    assert b[2..][2..] == b[4..];
  }

  lemma Add32KeepsCanon(seed: nat, lo: nat, hi: nat)
    requires seed < 0x1_0000_0000 && lo < 0x1_0000 && hi < 0x1_0000
    ensures Canon(Add32(seed, Word32(lo, hi))) == Canon(seed + lo + hi)
  {
    hide Canon;
    var sum := seed + Word32(lo, hi);
    assert sum == seed + lo + hi + hi * ALL_ONES;
    if seed + lo + hi > 0 {
      CanonMultiple(seed + lo + hi, hi);
    }
    if sum >= 0x1_0000_0000 {
      assert sum == (sum - 0xFFFF_FFFF) + 0x1_0001 * ALL_ONES;
      CanonMultiple(sum - 0xFFFF_FFFF, 0x1_0001);
    }
  }
}
