/** The arithmetic behind the exponent walk: congruences, powers, the extended Euclidean
    algorithm, modular inverses, Euclid's lemma and Fermat's little theorem. */
module NumberTheory {
  import opened Wrappers

  // ---------- congruences ----------

  predicate Cong(x: int, y: int, m: int)
    requires m > 0
  {
    x % m == y % m
  }

  lemma ModUnique(x: int, m: int, k: int, r: int)
    requires 0 <= r < m && x == k * m + r
    ensures x % m == r && x / m == k
  {
    var q := k - x / m;
    assert q * m == x % m - r;
    assert q >= 1 ==> q * m >= m;
    assert q <= -1 ==> q * m <= -m;
  }

  lemma CongIntro(x: int, y: int, k: int, m: int)
    requires m > 0 && x == y + k * m
    ensures Cong(x, y, m)
  {
    assert x == (y / m + k) * m + y % m;
    ModUnique(x, m, y / m + k, y % m);
  }

  lemma CongElim(x: int, y: int, m: int) returns (k: int)
    requires m > 0 && Cong(x, y, m)
    ensures x == y + k * m
  {
    k := x / m - y / m;
    assert x == m * (x / m) + x % m && y == m * (y / m) + y % m;
  }

  lemma CongScale(x: int, y: int, u: int, m: int)
    requires m > 0 && Cong(x, y, m)
    ensures Cong(x * u, y * u, m) && Cong(u * x, u * y, m)
  {
    var k := CongElim(x, y, m);
    Distribute(y, k, m, u);
    CongIntro(x * u, y * u, k * u, m);
  }

  lemma Distribute(y: int, k: int, m: int, u: int)
    ensures (y + k * m) * u == y * u + (k * u) * m
    ensures u * (y + k * m) == u * y + (k * u) * m
  {
  }

  lemma CongMul(x: int, y: int, u: int, v: int, m: int)
    requires m > 0 && Cong(x, y, m) && Cong(u, v, m)
    ensures Cong(x * u, y * v, m)
  {
    CongScale(x, y, u, m);
    CongScale(u, v, y, m);
  }

  lemma CongAdd(x: int, y: int, u: int, v: int, m: int)
    requires m > 0 && Cong(x, y, m) && Cong(u, v, m)
    ensures Cong(x + u, y + v, m) && Cong(x - u, y - v, m)
  {
    var k := CongElim(x, y, m);
    var l := CongElim(u, v, m);
    assert (k + l) * m == k * m + l * m && (k - l) * m == k * m - l * m;
    CongIntro(x + u, y + v, k + l, m);
    CongIntro(x - u, y - v, k - l, m);
  }

  lemma ModIsCong(x: int, m: int)
    requires m > 0
    ensures 0 <= x % m < m && Cong(x % m, x, m)
  {
    assert x % m == x + (-(x / m)) * m;
    CongIntro(x % m, x, -(x / m), m);
  }

  /** Multiplying reduced factors and reducing again is multiplying and reducing once. */
  lemma ModMul(x: int, y: int, m: int)
    requires m > 0
    ensures ((x % m) * (y % m)) % m == (x * y) % m
  {
    ModIsCong(x, m);
    ModIsCong(y, m);
    CongMul(x % m, x, y % m, y, m);
  }

  /** Congruence modulo c*m implies congruence modulo m. */
  lemma CongCoarsen(x: int, y: int, c: int, m: int)
    requires m > 0 && c > 0 && c * m > 0 && Cong(x, y, c * m)
    ensures Cong(x, y, m)
  {
    var k := CongElim(x, y, c * m);
    assert k * (c * m) == (k * c) * m;
    CongIntro(x, y, k * c, m);
  }

  // ---------- powers ----------

  function Pow(b: nat, e: nat): nat {
    if e == 0 then 1 else b * Pow(b, e - 1)
  }

  lemma {:induction false} PowAdd(b: nat, e: nat, f: nat)
    ensures Pow(b, e + f) == Pow(b, e) * Pow(b, f)
  {
    if e != 0 {
      PowAdd(b, e - 1, f);
      assert b * (Pow(b, e - 1) * Pow(b, f)) == b * Pow(b, e - 1) * Pow(b, f);
    }
  }

  lemma {:induction false} PowOne(e: nat)
    ensures Pow(1, e) == 1
  {
    if e != 0 { PowOne(e - 1); }
  }

  lemma {:induction false} PowMul(b: nat, e: nat, f: nat)
    ensures Pow(b, e * f) == Pow(Pow(b, e), f)
  {
    if f != 0 {
      PowMul(b, e, f - 1);
      assert e * f == e + e * (f - 1);
      PowAdd(b, e, e * (f - 1));
    } else {
      assert e * f == 0;
    }
  }

  lemma {:induction false} PowProduct(b: nat, c: nat, e: nat)
    ensures Pow(b * c, e) == Pow(b, e) * Pow(c, e)
  {
    if e != 0 {
      PowProduct(b, c, e - 1);
      Regroup(b, c, Pow(b, e - 1), Pow(c, e - 1));
    }
  }

  lemma {:induction false} PowCong(b: nat, c: nat, e: nat, m: int)
    requires m > 0 && Cong(b, c, m)
    ensures Cong(Pow(b, e), Pow(c, e), m)
  {
    if e != 0 {
      PowCong(b, c, e - 1, m);
      CongMul(b, c, Pow(b, e - 1), Pow(c, e - 1), m);
    }
  }

  /** If b^o is 1 then adding a multiple of o to the exponent changes nothing. */
  lemma PowPeriod(b: nat, e: nat, o: nat, k: nat, m: int)
    requires m > 0 && Cong(Pow(b, o), 1, m)
    ensures Cong(Pow(b, e + o * k), Pow(b, e), m)
  {
    PowAdd(b, e, o * k);
    PowMul(b, o, k);
    PowCong(Pow(b, o), 1, k, m);
    PowOne(k);
    CongMul(Pow(b, e), Pow(b, e), Pow(Pow(b, o), k), 1, m);
  }

  /** Exponents may be reduced modulo any o with b^o = 1. */
  lemma PowReduce(b: nat, e: nat, o: nat, m: int)
    requires m > 0 && o > 0 && Cong(Pow(b, o), 1, m)
    ensures Cong(Pow(b, e % o), Pow(b, e), m)
  {
    assert e == e % o + o * (e / o);
    PowPeriod(b, e % o, o, e / o, m);
  }

  // ---------- divisibility, Euclid ----------

  predicate Divides(d: nat, x: int)
    requires d > 0
  {
    x % d == 0
  }

  lemma DividesIntro(d: nat, k: int, x: int)
    requires d > 0 && x == k * d
    ensures Divides(d, x) && x / d == k
  {
    ModUnique(x, d, k, 0);
  }

  lemma DividesCombination(d: nat, x: int, y: int, u: int, v: int)
    requires d > 0 && Divides(d, x) && Divides(d, y)
    ensures Divides(d, u * x + v * y)
  {
    var p, q := x / d, y / d;
    assert x == p * d && y == q * d;
    assert u * x + v * y == (u * p + v * q) * d by {
      assert u * (p * d) == (u * p) * d && v * (q * d) == (v * q) * d;
    }
    DividesIntro(d, u * p + v * q, u * x + v * y);
  }

  lemma DividesBound(d: nat, x: int)
    requires d > 0 && Divides(d, x) && x > 0
    ensures d <= x
  {
    var k := x / d;
    assert x == k * d;
    assert k <= 0 ==> k * d <= 0;
    assert k >= 1 ==> k * d >= d;
  }

  /** One step of extended Euclid: coefficients for (b, a mod b) become coefficients for (a, b). */
  lemma EuclidStep(a: nat, b: nat, g: nat, x: int, y: int)
    requires b > 0 && g > 0 && b * x + (a % b) * y == g
    requires Divides(g, b) && Divides(g, a % b)
    ensures a * y + b * (x - (a / b) * y) == g
    ensures Divides(g, a)
  {
    var q, r := a / b, a % b;
    assert a == b * q + r;
    assert a * y == b * (q * y) + r * y by { assert (b * q + r) * y == b * q * y + r * y; }
    assert b * (x - q * y) == b * x - b * (q * y);
    DividesCombination(g, b, r, q, 1);
    assert q * b + 1 * r == a;
  }

  /** Congruence is divisibility of the difference. */
  lemma CongIffDivides(x: int, y: int, m: nat)
    requires m > 0
    ensures Cong(x, y, m) <==> Divides(m, x - y)
  {
    if Cong(x, y, m) {
      var k := CongElim(x, y, m);
      DividesIntro(m, k, x - y);
    }
    if Divides(m, x - y) {
      CongIntro(x, y, (x - y) / m, m);
    }
  }

  lemma Regroup(a: int, b: int, c: int, d: int)
    ensures (a * b) * (c * d) == (a * c) * (b * d)
  {
  }

  /** Extended Euclid: the greatest common divisor with its Bezout coefficients. */
  function ExtGcd(a: nat, b: nat): (r: (nat, int, int))
    requires a > 0 || b > 0
    ensures r.0 > 0 && a * r.1 + b * r.2 == r.0
    ensures Divides(r.0, a) && Divides(r.0, b)
    decreases b
  {
    if b == 0 then
      DividesIntro(a, 1, a);
      (a, 1, 0)
    else
      var (g, x, y) := ExtGcd(b, a % b);
      EuclidStep(a, b, g, x, y);
      (g, y, x - (a / b) * y)
  }

  function Gcd(a: nat, b: nat): (g: nat)
    requires a > 0 || b > 0
    ensures g > 0 && Divides(g, a) && Divides(g, b)
  {
    ExtGcd(a, b).0
  }

  /** Gcd is the greatest common divisor, and every common divisor divides it. */
  lemma GcdGreatest(a: nat, b: nat, d: nat)
    requires a > 0 || b > 0
    requires d > 0 && Divides(d, a) && Divides(d, b)
    ensures Divides(d, Gcd(a, b)) && d <= Gcd(a, b)
  {
    var (g, x, y) := ExtGcd(a, b);
    DividesCombination(d, a, b, x, y);
    assert x * a + y * b == g;
    DividesBound(d, g);
  }

  /** The inverse of a modulo m, present exactly when a and m are coprime. */
  function Invert(a: nat, m: nat): (r: Option<nat>)
    requires m > 0
    ensures r.Some? <==> Gcd(a, m) == 1
    ensures r.Some? ==> r.value < m && Cong(a * r.value, 1, m)
  {
    var (g, x, y) := ExtGcd(a, m);
    if g == 1 then
      assert Cong(a * (x % m), 1, m) by {
        ModIsCong(x, m);
        CongMul(a, a, x % m, x, m);
        assert a * x == 1 + (-y) * m;
        CongIntro(a * x, 1, -y, m);
      }
      Some(x % m)
    else
      None
  }

  ghost predicate IsPrime(p: nat) {
    2 <= p && forall d | 1 < d < p :: !Divides(d, p)
  }

  lemma CoprimeToPrime(a: nat, p: nat)
    requires IsPrime(p) && !Divides(p, a)
    ensures Gcd(a, p) == 1
  {
    var g := Gcd(a, p);
    DividesBound(g, p);
  }

  lemma EuclidLemma(a: nat, b: nat, p: nat)
    requires IsPrime(p) && Divides(p, a * b)
    ensures Divides(p, a) || Divides(p, b)
  {
    if !Divides(p, a) {
      CoprimeToPrime(a, p);
      CoprimeFactor(a, b, p);
    }
  }

  /** If m divides a*b and a is coprime to m, then m divides b. */
  lemma CoprimeFactor(a: nat, b: int, m: nat)
    requires m > 0 && Gcd(a, m) == 1 && Divides(m, a * b)
    ensures Divides(m, b)
  {
    var (g, x, y) := ExtGcd(a, m);
    DividesIntro(m, 1, m);
    DividesCombination(m, a * b, m, x, y * b);
    assert x * (a * b) + (y * b) * m == (a * x + m * y) * b;
  }

  /** Coprime factors can be cancelled from a congruence. */
  lemma CongCancel(a: nat, x: int, y: int, m: nat)
    requires m > 0 && Gcd(a, m) == 1 && Cong(a * x, a * y, m)
    ensures Cong(x, y, m)
  {
    var k := CongElim(a * x, a * y, m);
    assert a * (x - y) == k * m;
    DividesIntro(m, k, a * (x - y));
    CoprimeFactor(a, x - y, m);
    CongIntro(x, y, (x - y) / m, m);
  }

  // ---------- Fermat's little theorem ----------

  function Product(s: seq<nat>): nat {
    if s == [] then 1 else s[0] * Product(s[1..])
  }

  lemma {:induction false} ProductSplit(s: seq<nat>, i: nat)
    requires i < |s|
    ensures Product(s) == s[i] * Product(s[..i] + s[i+1..])
  {
    if i == 0 {
      assert s[..0] + s[1..] == s[1..];
    } else {
      var t := s[..i] + s[i+1..];
      ProductSplit(s[1..], i - 1);
      assert s[1..][..i-1] + s[1..][i..] == t[1..];
      assert t[0] == s[0];
      assert s[0] * (s[i] * Product(t[1..])) == s[i] * (s[0] * Product(t[1..]));
    }
  }

  /** A product depends only on the multiset of its factors. */
  lemma {:induction false} ProductPermutation(s: seq<nat>, t: seq<nat>)
    requires multiset(s) == multiset(t)
    ensures Product(s) == Product(t)
  {
    if s == [] {
      assert |t| == |multiset(t)| == 0;
    } else {
      assert s[0] in multiset(t);
      var i :| 0 <= i < |t| && t[i] == s[0];
      ProductSplit(t, i);
      var u := t[..i] + t[i+1..];
      assert t == t[..i] + [t[i]] + t[i+1..];
      assert s == [s[0]] + s[1..];
      assert multiset(u) == multiset(t) - multiset{t[i]};
      assert multiset(s[1..]) == multiset(s) - multiset{s[0]};
      ProductPermutation(s[1..], u);
    }
  }

  /** The numbers 1 .. n. */
  function Upto(n: nat): seq<nat> {
    seq(n, i => i + 1)
  }

  /** Distinct members of 1 .. n, n of them, are 1 .. n in some order. */
  lemma DistinctFill(t: seq<nat>, n: nat)
    requires |t| == n
    requires forall i | 0 <= i < n :: 1 <= t[i] <= n
    requires forall i, j | 0 <= i < j < n :: t[i] != t[j]
    ensures multiset(t) == multiset(Upto(n))
  {
    var u := Upto(n);
    forall x ensures multiset(t)[x] <= multiset(u)[x] {
      DistinctCount(t, x);
      if x in t { assert u[x - 1] == x; assert x in u; }
    }
    assert multiset(t) <= multiset(u);
    assert |multiset(u) - multiset(t)| == 0;
  }

  lemma {:induction false} DistinctCount(t: seq<nat>, x: nat)
    requires forall i, j | 0 <= i < j < |t| :: t[i] != t[j]
    ensures multiset(t)[x] == if x in t then 1 else 0
  {
    if t != [] {
      DistinctCount(t[1..], x);
      assert t == [t[0]] + t[1..];
    }
  }

  /** Scaling every factor by a, modulo m. */
  function Scaled(a: nat, s: seq<nat>, m: nat): seq<nat>
    requires m > 0
  {
    seq(|s|, i requires 0 <= i < |s| => (a * s[i]) % m)
  }

  lemma {:induction false} ScaledProduct(a: nat, s: seq<nat>, m: nat)
    requires m > 0
    ensures Cong(Product(Scaled(a, s, m)), Pow(a, |s|) * Product(s), m)
  {
    if s != [] {
      var t := Scaled(a, s, m);
      ScaledProduct(a, s[1..], m);
      assert t[1..] == Scaled(a, s[1..], m);
      ModIsCong(a * s[0], m);
      var u, v := Pow(a, |s| - 1), Product(s[1..]);
      CongMul(t[0], a * s[0], Product(t[1..]), u * v, m);
      Regroup(a, s[0], u, v);
    }
  }

  lemma {:induction false} PrimeProduct(s: seq<nat>, p: nat)
    requires IsPrime(p) && forall x | x in s :: !Divides(p, x)
    ensures !Divides(p, Product(s))
  {
    if s == [] {
      ModUnique(1, p, 0, 1);
    } else {
      PrimeProduct(s[1..], p);
      if Divides(p, Product(s)) { EuclidLemma(s[0], Product(s[1..]), p); }
    }
  }

  /** Fermat's little theorem. */
  lemma Fermat(a: nat, p: nat)
    requires IsPrime(p) && !Divides(p, a)
    ensures Cong(Pow(a, p - 1), 1, p)
  {
    var u := Upto(p - 1);
    var t := Scaled(a, u, p);
    forall x | x in u ensures !Divides(p, x) {
      if Divides(p, x) { DividesBound(p, x); }
    }
    CoprimeToPrime(a, p);
    forall i | 0 <= i < p - 1 ensures 1 <= t[i] <= p - 1 {
      assert u[i] in u;
      if t[i] == 0 { EuclidLemma(a, u[i], p); }
    }
    forall i, j | 0 <= i < j < p - 1 ensures t[i] != t[j] {
      if t[i] == t[j] {
        CongCancel(a, u[i], u[j], p);
        ModUnique(u[i], p, 0, u[i]);
        ModUnique(u[j], p, 0, u[j]);
      }
    }
    DistinctFill(t, p - 1);
    ProductPermutation(t, u);
    ScaledProduct(a, u, p);
    PrimeProduct(u, p);
    var f := Product(u);
    CoprimeToPrime(f, p);
    assert Pow(a, p - 1) * f == f * Pow(a, p - 1);
    CongCancel(f, Pow(a, p - 1), 1, p);
  }

  // ---------- pigeonhole, integer square root ----------

  /** p + 1 values below p repeat. */
  lemma {:induction false} Pigeonhole(f: nat -> nat, p: nat) returns (i: nat, k: nat)
    requires forall x: nat | x <= p :: f(x) < p
    ensures i < k <= p && f(i) == f(k)
  {
    if exists x: nat, y: nat :: x < y <= p && f(x) == f(y) {
      i, k :| i < k <= p && f(i) == f(k);
    } else {
      var seen: set<nat> := {};
      var x := 0;
      while x <= p
        invariant x <= p + 1 && |seen| == x
        invariant forall y | y in seen :: y < p && exists z: nat | z < x :: f(z) == y
      {
        assert f(x) !in seen;
        seen := seen + {f(x)};
        x := x + 1;
      }
      SetBelow(seen, p);
      assert false;
    }
  }

  lemma {:induction false} SetBelow(s: set<nat>, n: nat)
    requires forall y | y in s :: y < n
    ensures |s| <= n
  {
    if n == 0 {
      assert forall y | y in s :: false;
    } else {
      SetBelow(s - {n - 1}, n - 1);
      assert |s - {n - 1}| >= |s| - 1;
    }
  }

  /** The floor square root. */
  function Isqrt(n: nat): (r: nat)
    ensures r * r <= n < (r + 1) * (r + 1)
  {
    if n == 0 then 0
    else
      var r := Isqrt(n - 1);
      if (r + 1) * (r + 1) <= n then
        assert n < (r + 2) * (r + 2) by { assert (r + 2) * (r + 2) == (r + 1) * (r + 1) + 2 * r + 3; }
        r + 1
      else r
  }
}
