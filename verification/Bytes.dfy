/** Conversions between big integers and the fixed-width words of the seal: the little-endian
    byte conversions to and from U256, and the saturate-to-zero conversion to u128. */
module Bytes {
  import opened NumberTheory

  const TWO_128: nat := 0x1_0000_0000_0000_0000_0000_0000_0000_0000
  const TWO_256: nat :=
    0x1_0000_0000_0000_0000_0000_0000_0000_0000_0000_0000_0000_0000_0000_0000_0000_0000

  type byte = x: int | 0 <= x < 256
  type u128 = x: nat | x < TWO_128
  type u256 = x: nat | x < TWO_256

  /** The value of a little-endian digit string. */
  function FromDigits(s: seq<byte>): nat {
    if s == [] then 0 else s[0] + 256 * FromDigits(s[1..])
  }

  /** The shortest little-endian digit string; zero has no digits. */
  function ToDigits(n: nat): (s: seq<byte>) {
    if n == 0 then [] else [n % 256] + ToDigits(n / 256)
  }

  /** The low k bytes of n, padded with zeros. */
  function LittleEndian(n: nat, k: nat): (s: seq<byte>)
    ensures |s| == k
  {
    if k == 0 then [] else [n % 256] + LittleEndian(n / 256, k - 1)
  }

  lemma {:induction false} FromToDigits(n: nat)
    ensures FromDigits(ToDigits(n)) == n
  {
    if n != 0 {
      FromToDigits(n / 256);
      assert ToDigits(n)[1..] == ToDigits(n / 256);
    }
  }

  lemma {:induction false} NoPadding(n: nat)
    ensures ToDigits(n) == [] || ToDigits(n)[|ToDigits(n)| - 1] != 0
  {
    if n != 0 { NoPadding(n / 256); }
  }

  /** A number has at most k digits exactly when it is below 256^k. */
  lemma {:induction false} DigitCount(n: nat, k: nat)
    ensures |ToDigits(n)| <= k <==> n < Pow(256, k)
  {
    if n == 0 {
      PowPositive(256, k);
    } else if k == 0 {
    } else {
      DigitCount(n / 256, k - 1);
      assert n == 256 * (n / 256) + n % 256;
    }
  }

  lemma {:induction false} LittleEndianValue(n: nat, k: nat)
    requires n < Pow(256, k)
    ensures FromDigits(LittleEndian(n, k)) == n
  {
    if k != 0 {
      assert n == 256 * (n / 256) + n % 256;
      LittleEndianValue(n / 256, k - 1);
      assert LittleEndian(n, k)[1..] == LittleEndian(n / 256, k - 1);
    }
  }

  lemma {:induction false} PowPositive(b: nat, e: nat)
    requires b > 0
    ensures Pow(b, e) > 0
  {
    if e != 0 {
      PowPositive(b, e - 1);
    }
  }

  lemma {:induction false} PowMonotone(b: nat, e: nat, f: nat)
    requires b >= 1 && e <= f
    ensures Pow(b, e) <= Pow(b, f)
  {
    if e < f {
      PowMonotone(b, e, f - 1);
      PowPositive(b, f - 1);
      assert b * Pow(b, f - 1) >= Pow(b, f - 1);
    }
  }

  lemma Square(b: nat, e: nat, v: nat)
    requires Pow(b, e) == v
    ensures Pow(b, 2 * e) == v * v
  {
    PowAdd(b, e, e);
  }

  /** With e bits a byte: 2^(32 e) is both 256^32 and the size of a U256. */
  lemma WordSize(e: nat)
    requires e == 8
    ensures Pow(2, e) == 256
    ensures Pow(2, 16 * e) == TWO_128
    ensures Pow(2, 32 * e) == TWO_256 == Pow(256, 4 * e)
  {
    assert Pow(2, 8) == 256;
    Square(2, e, 256);
    Square(2, 2 * e, 0x1_0000);
    Square(2, 4 * e, 0x1_0000_0000);
    Square(2, 8 * e, 0x1_0000_0000_0000_0000);
    Square(2, 16 * e, TWO_128);
    PowMul(2, e, 4 * e);
  }

  /** `bigint_u256`: the digits of the integer, read back as a U256. More than 32 digits panic. */
  function BigintU256(n: nat): (u: u256)
    requires |ToDigits(n)| <= 32
    ensures u == n
  {
    FromToDigits(n);
    DigitCount(n, 32);
    WordSize(8);
    FromDigits(ToDigits(n))
  }

  /** `u256_bigint`: a 32-byte buffer filled by the U256, read back as an integer. */
  function U256Bigint(u: u256): (n: nat)
    ensures n == u
  {
    WordSize(8);
    LittleEndianValue(u, 32);
    FromDigits(LittleEndian(u, 32))
  }

  /** Exactly the integers below 2^256 can be converted, and they survive the round trip. */
  lemma U256RoundTrip(n: nat)
    ensures |ToDigits(n)| <= 32 <==> n < TWO_256
    ensures n < TWO_256 ==> U256Bigint(BigintU256(n)) == n
  {
    WordSize(8);
    DigitCount(n, 32);
  }

  /** Every integer that fits is the value of exactly one U256. */
  lemma U256RoundTripBack(u: u256)
    ensures |ToDigits(U256Bigint(u))| <= 32
    ensures BigintU256(U256Bigint(u)) == u
  {
    U256RoundTrip(u);
  }

  /** `bigint_u128`: integers that do not fit become zero. */
  function BigintU128(n: nat): u128 {
    if n < TWO_128 then n else 0
  }

  /** `u128_bigint`. */
  function U128Bigint(u: u128): nat {
    u
  }
}
