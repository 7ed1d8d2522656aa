/** The linear congruence solver that turns a collision of the walk into a discrete logarithm. */
module Congruence {
  import opened NumberTheory
  import opened Wrappers

  /** Division of big integers truncates toward zero. */
  function TruncDiv(a: int, b: nat): int
    requires b > 0
  {
    if a >= 0 then a / b else -((-a) / b)
  }

  /** `eqs_solvers`: solve k * (b1 - b2) = a2 - a1 (mod n) for k. The fallback for a b1 - b2 that is
      not invertible divides `a2 - a2`, not `a2 - a1`, by the common divisor, as the source does. */
  function EqsSolvers(a1: int, b1: int, a2: int, b2: int, n: nat): Option<nat>
    requires n > 0
  {
    var r := (b1 - b2) % n;
    if r == 0 then None
    else
      match Invert(r, n)
      case Some(inv) => Some((inv * (a2 - a1)) % n)
      case None =>
        var div := Gcd(r, n);
        var resL := TruncDiv(b1 - b2, div);
        var resR := TruncDiv(a2 - a2, div);
        var p1 := n / div;
        ReducedModulus(r, n);
        match Invert(resL % p1, p1)
        case Some(inv) => Some((inv * resR) % p1)
        case None => None
  }

  /** k solves the congruence handed to the solver. */
  predicate Solves(k: int, a1: int, b1: int, a2: int, b2: int, n: nat)
    requires n > 0
  {
    Cong(k * (b1 - b2), a2 - a1, n)
  }

  /** b1 - b2 can be inverted modulo n. */
  predicate Invertible(b1: int, b2: int, n: nat)
    requires n > 0
  {
    Gcd((b1 - b2) % n, n) == 1
  }

  lemma ReducedModulus(r: nat, n: nat)
    requires n > 0
    ensures var div := Gcd(r, n); n / div > 0 && n == div * (n / div)
  {
    var div := Gcd(r, n);
    assert n == div * (n / div) + n % div;
    var q := n / div;
    assert q <= 0 ==> div * q <= 0;
  }

  /** The gcd taken after reduction still divides the unreduced number. */
  lemma GcdOfReduced(x: int, m: nat)
    requires m > 0
    ensures Divides(Gcd(x % m, m), x) && Divides(Gcd(x % m, m), m)
  {
    var g := Gcd(x % m, m);
    DividesCombination(g, m, x % m, x / m, 1);
    assert (x / m) * m + 1 * (x % m) == x;
  }

  lemma Reassociate(x: int, u: int, g: int, d: int)
    requires x == u * g
    ensures x * d == u * (g * d)
  {
  }

  lemma CofactorsCoprime(r: nat, d: int, q: int, n: nat, l: int, p1: nat)
    requires n > 0 && p1 > 0 && r == d - q * n
    requires n == p1 * Gcd(r, n) && d == l * Gcd(r, n)
    ensures Gcd(l % p1, p1) == 1
  {
    var div, g := Gcd(r, n), Gcd(l % p1, p1);
    GcdOfReduced(l, p1);
    Reassociate(p1, p1 / g, g, div);
    Reassociate(l, l / g, g, div);
    var c := g * div;
    assert c > 0;
    DividesIntro(c, p1 / g, n);
    DividesIntro(c, l / g, d);
    CommonDivisor(c, d, q, r, n);
    FactorOne(g, div);
  }

  lemma FactorOne(g: nat, d: nat)
    requires g > 0 && d > 0 && g * d <= d
    ensures g == 1
  {
    assert (g - 1) * d <= 0;
  }

  lemma CommonDivisor(c: nat, d: int, q: int, r: nat, n: nat)
    requires n > 0 && r == d - q * n && c > 0 && Divides(c, d) && Divides(c, n)
    ensures c <= Gcd(r, n)
  {
    DividesCombination(c, d, n, 1, -q);
    assert 1 * d + (-q) * n == r;
    GcdGreatest(r, n, c);
  }

  /** Dividing both the coefficient and the modulus by their gcd leaves coprime numbers, and the
      truncating division is exact. */
  lemma FallbackCoprime(d: int, n: nat)
    requires n > 0
    ensures var div, p1 := Gcd(d % n, n), n / Gcd(d % n, n);
            p1 > 0 && TruncDiv(d, div) * div == d && Gcd(TruncDiv(d, div) % p1, p1) == 1
  {
    var div := Gcd(d % n, n);
    ReducedModulus(d % n, n);
    GcdOfReduced(d, n);
    ExactDivision(d, div);
    assert d % n == d - (d / n) * n;
    CofactorsCoprime(d % n, d, d / n, n, TruncDiv(d, div), n / div);
  }

  lemma ExactDivision(d: int, div: nat)
    requires div > 0 && Divides(div, d)
    ensures TruncDiv(d, div) * div == d
  {
    if d < 0 {
      DividesIntro(div, -(d / div), -d);
    }
  }

  /** No solution is reported exactly when b1 = b2 (mod n): the fallback's inversion never fails. */
  lemma SolverNone(a1: int, b1: int, a2: int, b2: int, n: nat)
    requires n > 0
    ensures EqsSolvers(a1, b1, a2, b2, n).None? <==> Cong(b1, b2, n)
  {
    FallbackCoprime(b1 - b2, n);
    if Cong(b1, b2, n) {
      var k := CongElim(b1, b2, n);
      DividesIntro(n, k, b1 - b2);
    } else if (b1 - b2) % n == 0 {
      CongIntro(b1, b2, (b1 - b2) / n, n);
    }
  }

  /** In the invertible branch the answer is the one and only solution in [0, n). */
  lemma SolverInvertible(a1: int, b1: int, a2: int, b2: int, n: nat)
    requires n > 0 && !Cong(b1, b2, n) && Invertible(b1, b2, n)
    ensures var r := EqsSolvers(a1, b1, a2, b2, n);
            && r.Some? && r.value < n && Solves(r.value, a1, b1, a2, b2, n)
            && forall k: nat | k < n && Solves(k, a1, b1, a2, b2, n) :: k == r.value
  {
    SolverNone(a1, b1, a2, b2, n);
    var d, r, e := b1 - b2, (b1 - b2) % n, a2 - a1;
    var inv := Invert(r, n).value;
    var k := (inv * e) % n;
    ModIsCong(d, n);
    ModIsCong(inv * e, n);
    CongMul(k, inv * e, d, r, n);
    CongMul(r * inv, 1, e, e, n);
    assert (inv * e) * r == (r * inv) * e;
    forall l: nat | l < n && Solves(l, a1, b1, a2, b2, n) ensures l == k {
      CongMul(l, l, d, r, n);
      assert r * l == l * r && r * k == k * r;
      CongMul(k, k, d, r, n);
      CongCancel(r, l, k, n);
      ModUnique(l, n, 0, l);
      ModUnique(k, n, 0, k);
    }
  }

  /** The other branch always answers zero. */
  lemma SolverFallback(a1: int, b1: int, a2: int, b2: int, n: nat)
    requires n > 0 && !Cong(b1, b2, n) && !Invertible(b1, b2, n)
    ensures EqsSolvers(a1, b1, a2, b2, n) == Some(0)
  {
    SolverNone(a1, b1, a2, b2, n);
    FallbackCoprime(b1 - b2, n);
    var div := Gcd((b1 - b2) % n, n);
    var p1 := n / div;
    var inv := Invert(TruncDiv(b1 - b2, div) % p1, p1).value;
    assert TruncDiv(a2 - a2, div) == 0;
    assert inv * 0 == 0;
    ModUnique(0, p1, 0, 0);
  }

  /** Whatever is answered is a solution exactly when b1 - b2 is invertible or a1 = a2 (mod n). */
  lemma SolverCorrectIff(a1: int, b1: int, a2: int, b2: int, n: nat)
    requires n > 0 && EqsSolvers(a1, b1, a2, b2, n).Some?
    ensures Solves(EqsSolvers(a1, b1, a2, b2, n).value, a1, b1, a2, b2, n)
            <==> Invertible(b1, b2, n) || Cong(a1, a2, n)
  {
    SolverNone(a1, b1, a2, b2, n);
    if Invertible(b1, b2, n) {
      SolverInvertible(a1, b1, a2, b2, n);
    } else {
      SolverFallback(a1, b1, a2, b2, n);
      assert 0 * (b1 - b2) == 0;
      if Cong(a1, a2, n) {
        CongAdd(a2, a1, a1, a1, n);
      } else if Cong(0, a2 - a1, n) {
        CongAdd(0, a2 - a1, a1, a1, n);
      }
    }
  }

  lemma SolvableOnlyIf(d: int, e: int, k: int, n: nat)
    requires n > 0 && Cong(k * d, e, n)
    ensures Divides(Gcd(d % n, n), e)
  {
    var q := CongElim(k * d, e, n);
    GcdOfReduced(d, n);
    DividesCombination(Gcd(d % n, n), d, n, k, -q);
    assert k * d + (-q) * n == e;
  }

  lemma SwapLast(x: int, y: int, z: int)
    ensures (x * y) * z == (z * x) * y
  {
  }

  lemma ScaleEquation(k: int, l: int, m: int, q: int, p: int, c: int)
    requires k * l == m + q * p
    ensures k * (l * c) == m * c + q * (p * c)
  {
    assert k * (l * c) == (k * l) * c;
    assert (m + q * p) * c == m * c + q * (p * c);
  }

  /** Dividing a2 - a1 by the gcd in the fallback gives a solution whenever there is one. */
  lemma IntendedFallback(d: int, e: int, div: nat, l: int, p1: nat, inv: nat) returns (k: nat)
    requires div > 0 && p1 > 0 && p1 * div > 0 && d == l * div && Divides(div, e)
    requires Cong((l % p1) * inv, 1, p1)
    ensures k == (inv * (e / div)) % p1 && Cong(k * d, e, p1 * div)
  {
    var m := e / div;
    k := (inv * m) % p1;
    ModIsCong(inv * m, p1);
    ModIsCong(l, p1);
    CongMul(k, inv * m, l, l % p1, p1);
    CongMul((l % p1) * inv, 1, m, m, p1);
    SwapLast(inv, m, l % p1);
    var q := CongElim(k * l, m, p1);
    ScaleEquation(k, l, m, q, p1, div);
    CongIntro(k * d, e, q, p1 * div);
  }

  /** The congruence has a solution exactly when the gcd divides a2 - a1. */
  lemma SolvableIff(a1: int, b1: int, a2: int, b2: int, n: nat)
    requires n > 0
    ensures (exists k: nat :: Solves(k, a1, b1, a2, b2, n))
            <==> Divides(Gcd((b1 - b2) % n, n), a2 - a1)
  {
    var d, e := b1 - b2, a2 - a1;
    var div := Gcd(d % n, n);
    if k: nat :| Solves(k, a1, b1, a2, b2, n) {
      SolvableOnlyIf(d, e, k, n);
    }
    if Divides(div, e) {
      FallbackCoprime(d, n);
      ReducedModulus(d % n, n);
      var p1, l := n / div, TruncDiv(d, div);
      var k := IntendedFallback(d, e, div, l, p1, Invert(l % p1, p1).value);
      assert Solves(k, a1, b1, a2, b2, n);
    }
  }

  /** A solvable congruence the source answers wrongly: 2k = 2 (mod 6) has k = 1, but 0 is returned. */
  lemma SolverFallbackWrong()
    ensures EqsSolvers(0, 2, 2, 0, 6) == Some(0)
    ensures Solves(1, 0, 2, 2, 0, 6) && !Solves(0, 0, 2, 2, 0, 6)
  {
    assert ExtGcd(2, 6).0 == 2 by { assert ExtGcd(6, 2).0 == ExtGcd(2, 0).0; }
    SolverFallback(0, 2, 2, 0, 6);
  }

  /** For a prime modulus the fallback is dead code. */
  lemma PrimeModulusInvertible(b1: int, b2: int, n: nat)
    requires IsPrime(n) && !Cong(b1, b2, n)
    ensures Invertible(b1, b2, n)
  {
    var r := (b1 - b2) % n;
    if Divides(n, r) {
      ModUnique(r, n, 0, r);
      assert b1 == b2 + ((b1 - b2) / n) * n;
      CongIntro(b1, b2, (b1 - b2) / n, n);
      assert false;
    }
    CoprimeToPrime(r, n);
  }
}
