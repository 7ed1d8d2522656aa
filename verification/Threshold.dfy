/** The distinguished-point test: a hash passes when multiplying it by a power of two taken from
    the bit length of the key does not overflow a U256. */
module Threshold {
  import opened NumberTheory
  import opened Bytes

  const POINT_DST_FACTOR: nat := 8

  /** The first bit length whose shift leaves the word. */
  const OVERLONG: nat := 528

  /** Bit lengths for which neither subtraction of the source underflows. */
  predicate Measurable(bitLength: nat) {
    bitLength == 16 || bitLength >= 18
  }

  function Shift(bitLength: nat): nat
    requires Measurable(bitLength)
  {
    bitLength / 2 - POINT_DST_FACTOR
  }

  /** `U256::one() << s`: from 256 on the bit is shifted out. */
  function ShiftedOne(s: nat): u256 {
    if s < 256 then PowerFits(s); Pow(2, s) else 0
  }

  /** `hash_diff`. */
  function HashDiff(bitLength: nat): u256
    requires Measurable(bitLength)
  {
    var s := Shift(bitLength);
    if bitLength % 2 != 0 then
      PowerFits(if s < 256 then s else 255);
      ShiftedOne(s) + ShiftedOne(s - 1)
    else ShiftedOne(s)
  }

  /** The flag of `U256::overflowing_mul`. */
  predicate Overflows(x: u256, y: u256) {
    x * y >= TWO_256
  }

  /** The hash is that of a distinguished point. */
  predicate Passes(hash: u256, bitLength: nat)
    requires Measurable(bitLength)
  {
    !Overflows(hash, HashDiff(bitLength))
  }

  lemma PowerFits(s: nat)
    requires s < 256
    ensures 0 < 2 * Pow(2, s) <= TWO_256
    ensures s > 0 ==> Pow(2, s) == 2 * Pow(2, s - 1)
  {
    WordSize(8);
    PowMonotone(2, s + 1, 32 * 8);
    PowPositive(2, s);
  }

  lemma SplitWord(s: nat)
    requires s <= 256
    ensures Pow(2, s) * Pow(2, 256 - s) == TWO_256
  {
    WordSize(8);
    PowAdd(2, s, 32 * 8 - s);
  }

  lemma Scale(x: nat, y: nat, k: nat)
    requires x <= y
    ensures x * k <= y * k
    ensures x < y && k > 0 ==> x * k < y * k
  {
    var d := y - x;
    assert y * k == x * k + d * k by { assert y == x + d; }
    if d > 0 { assert d * k >= k by { assert d * k == k + (d - 1) * k; } }
  }

  lemma ScaledBelow(x: nat, y: nat, k: nat)
    requires k > 0
    ensures x * k < y * k <==> x < y
  {
    if x < y { Scale(x, y, k); } else { Scale(y, x, k); }
  }

  lemma Factor(bitLength: nat)
    requires Measurable(bitLength) && bitLength < OVERLONG
    ensures var s := Shift(bitLength);
            && Pow(2, s) > 0
            && (bitLength % 2 == 0 ==> HashDiff(bitLength) == Pow(2, s))
            && (bitLength % 2 == 1 ==> s > 0 && Pow(2, s - 1) > 0 && HashDiff(bitLength) == 3 * Pow(2, s - 1))
  {
    PowerFits(Shift(bitLength));
  }

  /** For an even bit length: exactly when the top bitLength / 2 - 8 bits of the hash are zero. */
  lemma EvenThreshold(hash: u256, bitLength: nat)
    requires Measurable(bitLength) && bitLength < OVERLONG && bitLength % 2 == 0
    ensures Passes(hash, bitLength) <==> hash < Pow(2, 256 - Shift(bitLength))
  {
    hide HashDiff, Pow;
    var s := Shift(bitLength);
    Factor(bitLength);
    SplitWord(s);
    ScaledBelow(hash, Pow(2, 256 - s), Pow(2, s));
  }

  /** For an odd bit length the threshold lies between those of its two neighbours. */
  lemma OddThreshold(hash: u256, bitLength: nat)
    requires Measurable(bitLength) && bitLength < OVERLONG && bitLength % 2 == 1
    ensures Passes(hash, bitLength) <==> 3 * hash < Pow(2, 257 - Shift(bitLength))
  {
    hide HashDiff, Pow;
    var s := Shift(bitLength);
    Factor(bitLength);
    SplitWord(s - 1);
    var u := Pow(2, s - 1);
    assert hash * (3 * u) == (3 * hash) * u;
    ScaledBelow(3 * hash, Pow(2, 256 - (s - 1)), u);
  }

  /** From 528 on the shift leaves the word: nothing is tested any more, except at 529, where one of
      the two bits is still inside. */
  lemma OverlongThreshold(hash: u256, bitLength: nat)
    requires bitLength >= OVERLONG
    ensures Passes(hash, bitLength) <==> bitLength != 529 || hash < 2
  {
    if bitLength == 529 {
      SplitWord(255);
      assert Pow(2, 1) == 2;
      PowerFits(255);
      ScaledBelow(hash, 2, Pow(2, 255));
    } else {
      assert hash * 0 == 0;
    }
  }

  /** A longer key has a strictly larger factor. */
  lemma {:induction false} HashDiffIncreasing(b: nat, c: nat)
    requires Measurable(b) && Measurable(c) && b < c < OVERLONG
    ensures HashDiff(b) < HashDiff(c)
    decreases c
  {
    var d := if c == 18 then 16 else c - 1;
    if b < d { HashDiffIncreasing(b, d); }
    PowerFits(Shift(c));
    PowerFits(Shift(d));
  }

  /** A point distinguished for a long key is distinguished for every shorter one. */
  lemma PassesShorter(hash: u256, b: nat, c: nat)
    requires Measurable(b) && Measurable(c) && b <= c < OVERLONG && Passes(hash, c)
    ensures Passes(hash, b)
  {
    if b < c {
      HashDiffIncreasing(b, c);
      Scale(HashDiff(b), HashDiff(c), hash);
      assert hash * HashDiff(b) == HashDiff(b) * hash && hash * HashDiff(c) == HashDiff(c) * hash;
    }
  }
}
