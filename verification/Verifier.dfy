/** Checking a collision as a proof of work, and solving it for the private key. */
module Verifier {
  import opened Wrappers
  import opened NumberTheory
  import opened Bytes
  import opened Threshold
  import opened Congruence
  import opened Walk

  /** `hash_encode`: the point hash digests the sum of five fifths. */
  function HashEncode(o: Oracle, s: State): u256 {
    o.point(ToDigits(s.nonce / 5 + s.work / 5 + s.pubkey.p / 5 + s.pubkey.g / 5 + s.pubkey.h / 5))
  }

  /** What the point hash digests: an oracle that knows the number v by its shortest digit string hits
      exactly the states whose five fifths add up to v. The solution does not enter. */
  lemma PointHashInput(o: Oracle, s: State, v: nat)
    ensures var hits := o.(point := d => if FromDigits(d) == v && (d == [] || d[|d| - 1] != 0) then 1 else 0);
            HashEncode(hits, s) == 1
            <==> v == s.nonce / 5 + s.work / 5 + s.pubkey.p / 5 + s.pubkey.g / 5 + s.pubkey.h / 5
  {
    hide ToDigits, FromDigits;
    var total := s.nonce / 5 + s.work / 5 + s.pubkey.p / 5 + s.pubkey.g / 5 + s.pubkey.h / 5;
    FromToDigits(total);
    NoPadding(total);
  }

  predicate Distinguished(o: Oracle, s: State)
    requires UsableKey(s.pubkey)
  {
    Passes(HashEncode(o, s), s.pubkey.bitLength)
  }

  /** `SolutionVerifier::verify`, on a header that carries the nonce. */
  predicate Verify(job: Job, key: PublicKey, solutions: Solutions, nonce: u256)
    requires UsableKey(key)
  {
    if solutions.0 == solutions.1 then false
    else
      var y1 := Derive(key, solutions.0);
      var y2 := Derive(key, solutions.1);
      if y1 != y2 then false
      else
        var x := HashInteger(job, nonce) % key.p;
        var work := FuncF(key, x, U256Bigint(nonce));
        if y1 != work then false
        else
          var state1 := State(solutions.0, U256Bigint(nonce), work, key);
          var state2 := State(solutions.1, U256Bigint(nonce), work, key);
          !(!Distinguished(job.oracle, state1) && !Distinguished(job.oracle, state2))
  }

  /** The state was reached by a step from the work its nonce records. */
  predicate Stepped(job: Job, s: State)
    requires UsableKey(s.pubkey)
  {
    s.nonce < TWO_256 && s.work == FuncF(s.pubkey, HashInteger(job, s.nonce) % s.pubkey.p, s.nonce)
  }

  lemma StepIsStepped(job: Job, s: State)
    requires Ready(s)
    ensures Stepped(job, Step(job, s))
  {
    U256RoundTrip(s.work);
  }

  // ---------- what acceptance means ----------

  /** The nonce is one step away from the element s stands for, and that is a distinguished point. */
  predicate PointUnder(job: Job, key: PublicKey, s: Solution, nonce: u256)
    requires UsableKey(key)
  {
    var at := State(s, nonce, Derive(key, s), key);
    Stepped(job, at) && Distinguished(job.oracle, at)
  }

  /** The exponents agree modulo p - 1, the period of every sound key. */
  predicate SameExponents(key: PublicKey, s: Solution, t: Solution)
    requires key.p > 1
  {
    Cong(s.a, t.a, key.p - 1) && Cong(s.b, t.b, key.p - 1)
  }

  /** s and t are, up to the period, two different reduced representations of one element. They are
      values that satisfy the invariant of the walk; nothing says that a walk has reached them. */
  ghost predicate Collide(key: PublicKey, s: Solution, t: Solution)
    requires UsableKey(key)
  {
    exists u: State, v: State ::
      && OnWalk(u) && OnWalk(v) && u.pubkey == key && v.pubkey == key
      && u.work == v.work && u.solution != v.solution
      && SameExponents(key, s, u.solution) && SameExponents(key, t, v.solution)
  }

  /** Exponents that agree modulo p - 1 stand for one element, whatever h is. */
  lemma PeriodInvisible(key: PublicKey, s: Solution, t: Solution)
    requires SoundKey(key) && SameExponents(key, s, t)
    ensures Derive(key, s) == Derive(key, t)
  {
    PowReduce(key.g, s.a, key.p - 1, key.p);
    PowReduce(key.g, t.a, key.p - 1, key.p);
    PowReduce(key.h, s.b, key.p - 1, key.p);
    PowReduce(key.h, t.b, key.p - 1, key.p);
  }

  /** Every solution is, up to the period, that of a state of the walk. */
  lemma ReducedState(key: PublicKey, s: Solution) returns (u: State)
    requires SoundKey(key)
    ensures OnWalk(u) && u.pubkey == key && SameExponents(key, s, u.solution) && u.work == Derive(key, s)
  {
    hide Derive;
    ModIsCong(s.a, key.p - 1);
    ModIsCong(s.b, key.p - 1);
    var r := Solution(s.a % (key.p - 1), s.b % (key.p - 1), (key.p - 1) / 2);
    PeriodInvisible(key, s, r);
    u := State(r, 0, Derive(key, r), key);
  }

  /** Reduced exponents agree modulo the period only if they are equal. */
  lemma ReducedEqual(key: PublicKey, u: State, v: State)
    requires UsableKey(key) && OnWalk(u) && OnWalk(v) && u.pubkey == key && v.pubkey == key
    requires SameExponents(key, u.solution, v.solution)
    ensures u.solution == v.solution
  {
    hide Derive;
    var m := key.p - 1;
    ModUnique(u.solution.a, m, 0, u.solution.a);
    ModUnique(v.solution.a, m, 0, v.solution.a);
    ModUnique(u.solution.b, m, 0, u.solution.b);
    ModUnique(v.solution.b, m, 0, v.solution.b);
  }

  /** Two solutions collide exactly when they stand for one element and differ modulo p - 1. */
  lemma CollideIff(key: PublicKey, s: Solution, t: Solution)
    requires SoundKey(key)
    ensures Collide(key, s, t) <==> Derive(key, s) == Derive(key, t) && !SameExponents(key, s, t)
  {
    hide Derive;
    if Collide(key, s, t) {
      var u: State, v: State :|
        && OnWalk(u) && OnWalk(v) && u.pubkey == key && v.pubkey == key
        && u.work == v.work && u.solution != v.solution
        && SameExponents(key, s, u.solution) && SameExponents(key, t, v.solution);
      PeriodInvisible(key, s, u.solution);
      PeriodInvisible(key, t, v.solution);
      if SameExponents(key, s, t) { ReducedEqual(key, u, v); }
    }
    if Derive(key, s) == Derive(key, t) && !SameExponents(key, s, t) {
      var u := ReducedState(key, s);
      var v := ReducedState(key, t);
      assert OnWalk(u) && OnWalk(v) && u.work == v.work && u.solution != v.solution;
    }
  }

  /** Acceptance, without the order of the tests. */
  lemma VerifyIff(job: Job, key: PublicKey, solutions: Solutions, nonce: u256)
    requires UsableKey(key)
    ensures Verify(job, key, solutions, nonce)
            <==> && solutions.0 != solutions.1
                 && Derive(key, solutions.0) == Derive(key, solutions.1)
                 && PointUnder(job, key, solutions.0, nonce)
  {
    hide Derive, FuncF, Passes;
    var y := Derive(key, solutions.0);
    assert HashEncode(job.oracle, State(solutions.1, nonce, y, key))
           == HashEncode(job.oracle, State(solutions.0, nonce, y, key));
  }

  /** A collision of two walks is presented under the nonce of some distinguished state of the same
      key. It is accepted exactly when that state has the work of the collision. */
  lemma VerifyCollision(job: Job, at: State, s: State, t: State)
    requires UsableKey(at.pubkey) && s.pubkey == t.pubkey == at.pubkey
    requires Stepped(job, at) && Distinguished(job.oracle, at)
    requires OnWalk(s) && OnWalk(t) && s.work == t.work && s.solution != t.solution
    ensures Verify(job, at.pubkey, (s.solution, t.solution), at.nonce) <==> at.work == s.work
  {
    hide Verify, Derive, FuncF, Passes;
    VerifyIff(job, at.pubkey, (s.solution, t.solution), at.nonce);
    assert HashEncode(job.oracle, State(s.solution, at.nonce, at.work, at.pubkey)) == HashEncode(job.oracle, at);
  }

  /** What is accepted: a distinguished point under the nonce, held by a pair that either collides, as
      representations modulo p - 1, or agrees modulo p - 1 and differs in its spelling only. */
  lemma AcceptedIff(job: Job, key: PublicKey, solutions: Solutions, nonce: u256)
    requires SoundKey(key)
    ensures Verify(job, key, solutions, nonce)
            <==> && PointUnder(job, key, solutions.0, nonce)
                 && (Collide(key, solutions.0, solutions.1)
                     || (solutions.0 != solutions.1 && SameExponents(key, solutions.0, solutions.1)))
    ensures Verify(job, key, solutions, nonce) ==>
              (Collide(key, solutions.0, solutions.1) <==> !SameExponents(key, solutions.0, solutions.1))
  {
    hide Verify, Collide, PointUnder, Derive;
    var s, t := solutions.0, solutions.1;
    VerifyIff(job, key, solutions, nonce);
    CollideIff(key, s, t);
    if SameExponents(key, s, t) { PeriodInvisible(key, s, t); }
  }

  /** So a single distinguished point is accepted without any collision, together with any other
      spelling of its solution. */
  lemma OnePointAccepted(job: Job, at: State, t: Solution)
    requires SoundKey(at.pubkey) && at.work == Derive(at.pubkey, at.solution)
    requires Stepped(job, at) && Distinguished(job.oracle, at)
    requires t != at.solution && SameExponents(at.pubkey, at.solution, t)
    ensures Verify(job, at.pubkey, (at.solution, t), at.nonce) && !Collide(at.pubkey, at.solution, t)
  {
    hide Verify, Collide, Derive, Distinguished;
    assert at == State(at.solution, at.nonce, at.work, at.pubkey);
    AcceptedIff(job, at.pubkey, (at.solution, t), at.nonce);
  }

  /** Such spellings: another n, or further rounds of either exponent. */
  lemma OtherSpellings(key: PublicKey, s: Solution, n: nat, k: nat)
    requires key.p > 1 && n != s.n && k > 0
    ensures var m := key.p - 1;
            && s.(n := n) != s && SameExponents(key, s, s.(n := n))
            && s.(a := s.a + k * m) != s && SameExponents(key, s, s.(a := s.a + k * m))
            && s.(b := s.b + k * m) != s && SameExponents(key, s, s.(b := s.b + k * m))
  {
    var m := key.p - 1;
    assert k * m > 0;
    CongIntro(s.a + k * m, s.a, k, m);
    CongIntro(s.b + k * m, s.b, k, m);
  }

  /** The only square roots of 1 modulo a prime are 1 and -1. */
  lemma RootOfOne(y: nat, p: nat)
    requires IsPrime(p) && Cong(y * y, 1, p)
    ensures Cong(y, 1, p) || Cong(y, -1, p)
  {
    ModUnique(1, p, 0, 1);
    ModUnique(0, p, 0, 0);
    assert y > 0;
    CongIffDivides(y * y, 1, p);
    assert (y - 1) * (y + 1) == y * y - 1;
    EuclidLemma(y - 1, y + 1, p);
    CongIffDivides(y, 1, p);
    CongIffDivides(y, -1, p);
  }

  lemma PrimeIsOdd(p: nat)
    requires IsPrime(p) && p >= 3
    ensures p - 1 == 2 * ((p - 1) / 2)
  {
    assert !Divides(2, p);
  }

  /** The power (p - 1) / 2 of a nonzero residue is 1 or -1. */
  lemma HalfPower(x: nat, p: nat)
    requires IsPrime(p) && p >= 3 && 0 < x < p
    ensures var y := Pow(x, (p - 1) / 2); Cong(y, 1, p) || Cong(y, -1, p)
  {
    hide Pow;
    var q := (p - 1) / 2;
    PrimeIsOdd(p);
    ModUnique(x, p, 0, x);
    Fermat(x, p);
    PowAdd(x, q, q);
    RootOfOne(Pow(x, q), p);
  }

  /** The exponents agree modulo (p - 1) / 2. */
  predicate AgreeAtHalf(key: PublicKey, s: Solution, t: Solution)
    requires key.p >= 3
  {
    Cong(s.a, t.a, (key.p - 1) / 2) && Cong(s.b, t.b, (key.p - 1) / 2)
  }

  /** One or both exponents shifted by (p - 1) / 2, such that the two signs cancel. */
  function HalfShifted(key: PublicKey, s: Solution): (t: Solution)
    requires key.p >= 3
  {
    var q := (key.p - 1) / 2;
    if Pow(key.g, q) % key.p == 1 then s.(a := s.a + q)
    else if Pow(key.h, q) % key.p == 1 then s.(b := s.b + q)
    else s.(a := s.a + q, b := s.b + q)
  }

  lemma SameProduct(key: PublicKey, s: Solution, t: Solution)
    requires key.p > 0
    requires Cong(Pow(key.g, s.a) * Pow(key.h, s.b), Pow(key.g, t.a) * Pow(key.h, t.b), key.p)
    ensures Derive(key, s) == Derive(key, t)
  {
    hide Pow, Derive;
    DeriveIsProduct(key, s);
    DeriveUnique(key, t, Derive(key, s));
  }

  /** The shift keeps the element and agrees modulo (p - 1) / 2, but not modulo p - 1. */
  lemma HalfShiftKeeps(key: PublicKey, s: Solution)
    requires PrimeKey(key)
    ensures var t := HalfShifted(key, s);
            && Derive(key, s) == Derive(key, t) && t.n == s.n
            && AgreeAtHalf(key, s, t) && !SameExponents(key, s, t)
  {
    hide Pow, Derive;
    var p, q, t := key.p, (key.p - 1) / 2, HalfShifted(key, s);
    ShiftedProduct(key, s);
    SameProduct(key, s, t);
    CongIntro(s.a, s.a + q, -1, q);
    CongIntro(s.b, s.b + q, -1, q);
    PrimeIsOdd(p);
    HalfDiffers(s.a, q);
    HalfDiffers(s.b, q);
  }

  lemma HalfDiffers(x: nat, q: nat)
    requires q > 0
    ensures !Cong(x, x + q, 2 * q)
  {
    CongIffDivides(x + q, x, 2 * q);
    ModUnique(q, 2 * q, 0, q);
  }

  lemma ShiftedProduct(key: PublicKey, s: Solution)
    requires PrimeKey(key)
    ensures var t := HalfShifted(key, s);
            Cong(Pow(key.g, s.a) * Pow(key.h, s.b), Pow(key.g, t.a) * Pow(key.h, t.b), key.p)
  {
    hide Pow;
    var p, q := key.p, (key.p - 1) / 2;
    var u, v, x, y := Pow(key.g, s.a), Pow(key.h, s.b), Pow(key.g, q), Pow(key.h, q);
    HalfPower(key.g, p);
    HalfPower(key.h, p);
    ModUnique(1, p, 0, 1);
    PowAdd(key.g, s.a, q);
    PowAdd(key.h, s.b, q);
    SignsCancel(u, v, if x % p == 1 || y % p != 1 then x else 1, if x % p == 1 then 1 else y, p);
  }

  /** Factors that are both 1 or both -1 change nothing. */
  lemma SignsCancel(u: int, v: int, x: int, y: int, p: nat)
    requires p > 0 && ((Cong(x, 1, p) && Cong(y, 1, p)) || (Cong(x, -1, p) && Cong(y, -1, p)))
    ensures Cong(u * v, (u * x) * (v * y), p)
  {
    var e := if Cong(x, 1, p) && Cong(y, 1, p) then 1 else -1;
    CongMul(u, u, x, e, p);
    CongMul(v, v, y, e, p);
    CongMul(u * x, u * e, v * y, v * e, p);
    Regroup(u, e, v, e);
    assert e * e == 1;
  }

  /** Nor do different residues modulo p - 1 show that two walks met: for every prime key a single
      distinguished point is accepted with its half shift, which collides, and from which key_gen
      recovers nothing. */
  lemma HalfShiftAccepted(job: Job, at: State)
    requires PrimeKey(at.pubkey) && at.work == Derive(at.pubkey, at.solution)
    requires Stepped(job, at) && Distinguished(job.oracle, at)
    ensures var s, t := at.solution, HalfShifted(at.pubkey, at.solution);
            && Verify(job, at.pubkey, (s, t), at.nonce) && Collide(at.pubkey, s, t)
            && !SameExponents(at.pubkey, s, t)
            && (s.n == (at.pubkey.p - 1) / 2 ==> KeyGen(at.pubkey, (s, t)).None?)
  {
    hide Verify, Collide, Derive, Distinguished, HalfShifted, SameExponents;
    var s, t := at.solution, HalfShifted(at.pubkey, at.solution);
    assert at == State(s, at.nonce, at.work, at.pubkey);
    PrimeKeyIsSound(at.pubkey);
    HalfShiftKeeps(at.pubkey, s);
    CollideIff(at.pubkey, s, t);
    AcceptedIff(job, at.pubkey, (s, t), at.nonce);
    if s.n == (at.pubkey.p - 1) / 2 { SolverNone(s.a, s.b, t.a, t.b, s.n); }
  }

  lemma PairIsWitness(s: State, t: State)
    requires OnWalk(s) && OnWalk(t) && s.pubkey == t.pubkey && s.work == t.work && s.solution != t.solution
    ensures Collide(s.pubkey, s.solution, t.solution)
  {
  }

  /** Two states of the walk with one work and different solutions collide. */
  lemma WalkPairCollides(s: State, t: State)
    requires OnWalk(s) && OnWalk(t) && s.pubkey == t.pubkey && s.work == t.work && s.solution != t.solution
    ensures Collide(s.pubkey, s.solution, t.solution)
    ensures !SameExponents(s.pubkey, s.solution, t.solution)
  {
    hide Derive, Collide;
    assert Collide(s.pubkey, s.solution, t.solution) by { PairIsWitness(s, t); }
    if SameExponents(s.pubkey, s.solution, t.solution) { ReducedEqual(s.pubkey, s, t); }
  }

  // ---------- key recovery ----------

  datatype PrivateKey = PrivateKey(p: nat, g: nat, x: nat, bitLength: nat)

  /** `SolutionVerifier::key_gen`. */
  function KeyGen(key: PublicKey, solutions: Solutions): Option<PrivateKey>
    requires key.p > 0 && solutions.1.n > 0
  {
    var n := solutions.1.n;
    match EqsSolvers(solutions.0.a, solutions.0.b, solutions.1.a, solutions.1.b, n)
    case None => None
    case Some(k) =>
      var validate := Pow(key.g, k) % key.p;
      var x := if validate != key.h then k + n else k;
      Some(PrivateKey(key.p, key.g, x, key.bitLength))
  }

  /** o is the order of g modulo p. */
  ghost predicate HasOrder(g: nat, o: nat, p: nat)
    requires p > 0
  {
    && o > 0 && Cong(Pow(g, o), 1, p)
    && forall e: nat | 0 < e < o :: !Cong(Pow(g, e), 1, p)
  }

  /** A key whose g has order (p - 1) / 2 or twice that, and whose h is g^z. */
  ghost predicate RecoverableKey(key: PublicKey, z: nat) {
    && key.p >= 3
    && (HasOrder(key.g, (key.p - 1) / 2, key.p) || HasOrder(key.g, 2 * ((key.p - 1) / 2), key.p))
    && key.h == Pow(key.g, z) % key.p
  }

  /** The returned key is the private key of the public one: of the same group and generator, with a
      logarithm of h. */
  predicate Right(key: PublicKey, r: Option<PrivateKey>)
    requires key.p > 0
  {
    && r.Some? && r.value.p == key.p && r.value.g == key.g && r.value.bitLength == key.bitLength
    && Pow(r.value.g, r.value.x) % r.value.p == key.h
  }

  lemma OrderDivides(g: nat, o: nat, p: nat, e: nat)
    requires p > 0 && HasOrder(g, o, p) && Cong(Pow(g, e), 1, p)
    ensures Divides(o, e)
  {
    PowReduce(g, e, o, p);
    assert Cong(Pow(g, e % o), 1, p);
  }

  /** A power of g can be cancelled: g^v has the inverse g^((o - 1) v). */
  lemma PowCancel(g: nat, v: nat, d: nat, o: nat, p: nat)
    requires p > 0 && o > 0 && Cong(Pow(g, o), 1, p) && Cong(Pow(g, v + d), Pow(g, v), p)
    ensures Cong(Pow(g, d), 1, p)
  {
    var w := (o - 1) * v;
    assert v + w == o * v;
    PowAdd(g, v + d, w);
    PowAdd(g, v, w);
    assert v + d + w == d + o * v;
    CongMul(Pow(g, v + d), Pow(g, v), Pow(g, w), Pow(g, w), p);
    PowPeriod(g, d, o, v, p);
    PowPeriod(g, 0, o, v, p);
  }

  /** Powers of g agree exactly for exponents that agree modulo its order. */
  lemma EqualPowers(g: nat, u: nat, v: nat, o: nat, p: nat)
    requires p > 0 && HasOrder(g, o, p)
    ensures Cong(Pow(g, u), Pow(g, v), p) <==> Cong(u, v, o)
  {
    hide Pow;
    if Cong(Pow(g, u), Pow(g, v), p) {
      var d := if v <= u then u - v else v - u;
      PowCancel(g, if v <= u then v else u, d, o, p);
      OrderDivides(g, o, p, d);
      CongIffDivides(u, v, o);
      CongIffDivides(v, u, o);
    }
    if Cong(u, v, o) {
      PowReduce(g, u, o, p);
      PowReduce(g, v, o, p);
    }
  }

  lemma SeparateUnknown(sa: int, sb: int, ta: int, tb: int, n: nat, z: int)
    requires n > 0 && Cong(sa + z * sb, ta + z * tb, n)
    ensures Cong(z * (sb - tb), ta - sa, n)
  {
    var c := sa + z * tb;
    CongAdd(sa + z * sb, ta + z * tb, c, c, n);
    assert z * sb - z * tb == z * (sb - tb);
  }

  /** A collision fixes the discrete logarithm z of h up to a linear congruence modulo the order of g. */
  lemma CollisionCongruence(key: PublicKey, s: Solution, t: Solution, o: nat, z: nat)
    requires key.p > 0 && HasOrder(key.g, o, key.p) && key.h == Pow(key.g, z) % key.p
    requires Derive(key, s) == Derive(key, t)
    ensures Solves(z, s.a, s.b, t.a, t.b, o)
  {
    hide Derive, Pow;
    CollisionAsPowers(key, s, z);
    CollisionAsPowers(key, t, z);
    EqualPowers(key.g, s.a + z * s.b, t.a + z * t.b, o, key.p);
    SeparateUnknown(s.a, s.b, t.a, t.b, o, z);
  }

  lemma CollisionAsPowers(key: PublicKey, s: Solution, z: nat)
    requires key.p > 0 && key.h == Pow(key.g, z) % key.p
    ensures Cong(Derive(key, s), Pow(key.g, s.a + z * s.b), key.p)
  {
    var p, g := key.p, key.g;
    DeriveIsProduct(key, s);
    ModIsCong(Pow(g, z), p);
    PowCong(key.h, Pow(g, z), s.b, p);
    PowMul(g, z, s.b);
    CongMul(Pow(g, s.a), Pow(g, s.a), Pow(key.h, s.b), Pow(g, z * s.b), p);
    PowAdd(g, s.a, z * s.b);
  }

  lemma EvenCofactor(k: int, o: int)
    requires (k * o) % 2 == 0 && k % 2 == 1
    ensures o % 2 == 0
  {
    assert k * o == 2 * ((k / 2) * o + o / 2) + o % 2 by { assert k == 2 * (k / 2) + 1; }
  }

  /** What g^(2n) = 1 says about the order o: o is a divisor e of n, or twice one with n / e odd. */
  lemma HalfOrder(g: nat, o: nat, n: nat, p: nat) returns (e: nat, c: nat)
    requires p > 0 && n > 0 && HasOrder(g, o, p) && Cong(Pow(g, 2 * n), 1, p)
    ensures e > 0 && c > 0 && n == c * e && (o == e || (o == 2 * e && c % 2 == 1))
  {
    hide Pow;
    OrderDivides(g, o, p, 2 * n);
    var k := 2 * n / o;
    assert 2 * n == k * o;
    if k % 2 == 0 {
      e, c := o, k / 2;
      assert 2 * (c * e) == k * o;
    } else {
      EvenCofactor(k, o);
      e, c := o / 2, k;
      assert 2 * (c * e) == k * o;
    }
    assert n == c * e && n > 0;
    assert c <= 0 ==> c * e <= 0;
  }

  /** Modulo such an order, z is k or k + n as soon as it is k modulo e. */
  lemma ChoiceIsRight(k: int, z: int, e: nat, c: nat, o: nat)
    requires e > 0 && Cong(k, z, e) && (o == e || (o == 2 * e && c % 2 == 1))
    ensures Cong(k, z, o) || Cong(k + c * e, z, o)
  {
    if o == 2 * e {
      var m := CongElim(k, z, e);
      var h := m / 2;
      if m == 2 * h {
        assert m * e == h * (2 * e);
        CongIntro(k, z, h, o);
      } else {
        var l := (m + c) / 2;
        assert m + c == 2 * l;
        assert m * e + c * e == l * (2 * e) by { assert m * e + c * e == (m + c) * e; }
        CongIntro(k + c * e, z, l, o);
      }
    }
  }

  /** Key recovery: whatever n the solutions carry, as long as g^(2n) = 1, an invertible collision
      yields the private key. */
  lemma KeyRecovery(key: PublicKey, solutions: Solutions, o: nat, z: nat)
    requires key.p > 0 && HasOrder(key.g, o, key.p) && key.h == Pow(key.g, z) % key.p
    requires Derive(key, solutions.0) == Derive(key, solutions.1)
    requires var n := solutions.1.n; n > 0 && Cong(Pow(key.g, 2 * n), 1, key.p)
    requires !Cong(solutions.0.b, solutions.1.b, solutions.1.n)
    requires Invertible(solutions.0.b, solutions.1.b, solutions.1.n)
    ensures Right(key, KeyGen(key, solutions))
  {
    hide Pow, Derive, EqsSolvers, Invertible;
    var n, s, t := solutions.1.n, solutions.0, solutions.1;
    CollisionCongruence(key, s, t, o, z);
    SolverInvertible(s.a, s.b, t.a, t.b, n);
    var k := EqsSolvers(s.a, s.b, t.a, t.b, n).value;
    var e, c := HalfOrder(key.g, o, n, key.p);
    SolutionsAgree(k, z, s, t, n, o, c, e);
    ChoiceIsRight(k, z, e, c, o);
    EqualPowers(key.g, k, z, o, key.p);
    EqualPowers(key.g, k + n, z, o, key.p);
  }

  /** The answer modulo n and the logarithm modulo o agree modulo the common divisor e. */
  lemma SolutionsAgree(k: nat, z: nat, s: Solution, t: Solution, n: nat, o: nat, c: nat, e: nat)
    requires n > 0 && o > 0 && e > 0 && c > 0 && n == c * e && (o == e || o == 2 * e)
    requires Solves(k, s.a, s.b, t.a, t.b, n) && Solves(z, s.a, s.b, t.a, t.b, o)
    requires Invertible(s.b, t.b, n)
    ensures Cong(k, z, e)
  {
    var d, r := s.b - t.b, t.a - s.a;
    CongCoarsen(k * d, r, c, e);
    if o == 2 * e { CongCoarsen(z * d, r, 2, e); }
    InvertibleDivisor(s.b, t.b, n, c, e);
    var x := d % e;
    ModIsCong(d, e);
    CongMul(k, k, d, x, e);
    CongMul(z, z, d, x, e);
    assert k * x == x * k && z * x == x * z;
    CongCancel(x, k, z, e);
  }

  lemma InvertibleDivisor(b1: int, b2: int, n: nat, c: nat, e: nat)
    requires e > 0 && c > 0 && n > 0 && n == c * e && Invertible(b1, b2, n)
    ensures Invertible(b1, b2, e)
  {
    var d := b1 - b2;
    var f := Gcd(d % e, e);
    GcdOfReduced(d, e);
    DividesCombination(f, e, 0, c, 0);
    assert d % n == d - (d / n) * n;
    CommonDivisor(f, d, d / n, d % n, n);
  }

  /** Every invertible collision with this n, for whatever power h of g, yields a logarithm of h. */
  ghost predicate Recovers(g: nat, p: nat, n: nat)
    requires p > 0 && n > 0
  {
    forall key: PublicKey, s: Solution, t: Solution, z: nat
      | && key.p == p && key.g == g && key.h == Pow(g, z) % p && t.n == n
        && Derive(key, s) == Derive(key, t) && Invertible(s.b, t.b, n) && !Cong(s.b, t.b, n)
      :: Right(key, KeyGen(key, (s, t)))
  }

  /** Exactly the moduli n with g^(2n) = 1 are good for key recovery (and 1, which admits no
      invertible collision). */
  lemma RecoveryModulusIff(g: nat, p: nat, o: nat, n: nat)
    requires p >= 2 && n > 0 && HasOrder(g, o, p)
    ensures Recovers(g, p, n) <==> n == 1 || Cong(Pow(g, 2 * n), 1, p)
  {
    hide Pow, Derive, Invertible, KeyGen, Right;
    if n == 1 {
      forall x: int, y: int ensures Cong(x, y, 1) {}
    } else if Cong(Pow(g, 2 * n), 1, p) {
      forall key: PublicKey, s: Solution, t: Solution, z: nat
        | && key.p == p && key.g == g && key.h == Pow(g, z) % p && t.n == n
          && Derive(key, s) == Derive(key, t) && Invertible(s.b, t.b, n) && !Cong(s.b, t.b, n)
        ensures Right(key, KeyGen(key, (s, t)))
      {
        KeyRecovery(key, (s, t), o, z);
      }
    } else {
      WrongKey(PublicKey(p, g, Pow(g, 2 * n) % p, 0), o, n);
    }
  }

  /** For any other n the collision g^0 h^1 = g^(2n) h^0 of the key h = g^(2n) yields a wrong key. */
  lemma WrongKey(key: PublicKey, o: nat, n: nat)
    requires key.p >= 2 && n > 1 && HasOrder(key.g, o, key.p) && !Cong(Pow(key.g, 2 * n), 1, key.p)
    requires key.h == Pow(key.g, 2 * n) % key.p
    ensures var s, t := Solution(0, 1, n), Solution(2 * n, 0, n);
            && Derive(key, s) == Derive(key, t) == key.h && Invertible(s.b, t.b, n) && !Cong(s.b, t.b, n)
            && !Right(key, KeyGen(key, (s, t)))
  {
    hide EqsSolvers, Invertible, Solves, Derive;
    var g, p := key.g, key.p;
    WrongPair(key, n);
    AnswerZero(n);
    assert Pow(g, 0) == 1;
    ModUnique(1, p, 0, 1);
    EqualPowers(g, n, 2 * n, o, p);
    EqualPowers(g, 0, 2 * n, o, p);
    if Cong(n, 2 * n, o) { Doubled(n, o); }
  }

  lemma Doubled(n: nat, o: nat)
    requires o > 0 && Cong(n, 2 * n, o)
    ensures Cong(0, 2 * n, o)
  {
    CongAdd(n, 2 * n, n, n, o);
    CongMul(0, n, 2, 2, o);
  }

  lemma WrongPair(key: PublicKey, n: nat)
    requires key.p >= 2 && n > 1 && key.h == Pow(key.g, 2 * n) % key.p
    ensures Derive(key, Solution(0, 1, n)) == Derive(key, Solution(2 * n, 0, n)) == key.h
    ensures Invertible(1, 0, n) && !Cong(1, 0, n)
  {
    var h := key.h;
    assert Pow(key.g, 0) == 1 && Pow(h, 0) == 1 && Pow(h, 1) == h;
    ModUnique(1, key.p, 0, 1);
    ModUnique(h, key.p, 0, h);
    ModUnique(1, n, 0, 1);
    ModUnique(0, n, 0, 0);
    GcdOfOne(n);
  }

  /** k = 2n (mod n) is answered by 0. */
  lemma AnswerZero(n: nat)
    requires n > 1 && Invertible(1, 0, n) && !Cong(1, 0, n)
    ensures EqsSolvers(0, 1, 2 * n, 0, n) == Some(0)
  {
    hide EqsSolvers, Invertible;
    SolverInvertible(0, 1, 2 * n, 0, n);
    CongIntro(2 * n, 0, 2, n);
    assert Solves(0, 0, 1, 2 * n, 0, n);
  }

  lemma GcdOfOne(n: nat)
    requires n > 0
    ensures Gcd(1, n) == 1
  {
    DividesBound(Gcd(1, n), 1);
  }

  lemma NoKeyCollision(sa: int, sb: int, ta: int, tb: int, n: nat, z: int)
    requires n > 0 && Cong(sb, tb, n) && Cong(z * (sb - tb), ta - sa, n)
    ensures Cong(sa, ta, n)
  {
    var q := CongElim(sb, tb, n);
    assert z * (sb - tb) == 0 + (z * q) * n by { assert sb - tb == q * n; }
    CongIntro(z * (sb - tb), 0, z * q, n);
    CongAdd(0, ta - sa, sa, sa, n);
  }

  lemma NoPower(g: nat)
    ensures Pow(g, 0) == 1
  {
  }

  /** What key_gen returns for a collision that carries any n: nothing exactly when b1 = b2 (mod n).
      Otherwise a key. From the fallback it is right exactly when h is one of the two elements its
      zero can stand for; from the invertible branch it is right whenever g^(2n) = 1. Its exponent is
      below 2n, and from n on only if the exponent n smaller is not right. */
  lemma KeyGenOutcome(key: PublicKey, solutions: Solutions, o: nat, z: nat)
    requires key.p >= 2 && solutions.1.n > 0
    requires HasOrder(key.g, o, key.p) && key.h == Pow(key.g, z) % key.p
    requires Derive(key, solutions.0) == Derive(key, solutions.1)
    ensures var n, s, t, r := solutions.1.n, solutions.0, solutions.1, KeyGen(key, solutions);
            && (r.None? <==> Cong(s.b, t.b, n))
            && (r.Some? && !Invertible(s.b, t.b, n) ==>
                  (Right(key, r) <==> key.h == 1 || key.h == Pow(key.g, n) % key.p))
            && (r.Some? && Invertible(s.b, t.b, n) && Cong(Pow(key.g, 2 * n), 1, key.p) ==> Right(key, r))
            && (r.Some? ==> r.value.x < 2 * n && (r.value.x >= n ==> Pow(key.g, r.value.x - n) % key.p != key.h))
  {
    hide EqsSolvers, Pow;
    assert Pow(key.g, 0) == 1 by { NoPower(key.g); }
    var n, s, t := solutions.1.n, solutions.0, solutions.1;
    SolverNone(s.a, s.b, t.a, t.b, n);
    if !Cong(s.b, t.b, n) && Invertible(s.b, t.b, n) {
      SolverInvertible(s.a, s.b, t.a, t.b, n);
    }
    if !Cong(s.b, t.b, n) && !Invertible(s.b, t.b, n) {
      SolverFallback(s.a, s.b, t.a, t.b, n);
      ModUnique(1, key.p, 0, 1);
    } else if !Cong(s.b, t.b, n) && Cong(Pow(key.g, 2 * n), 1, key.p) {
      KeyRecovery(key, solutions, o, z);
    }
  }

  /** The n of the walk, (p - 1) / 2, is a good modulus, and it divides the order of g. */
  lemma HalfIsGood(key: PublicKey, z: nat) returns (o: nat)
    requires RecoverableKey(key, z)
    ensures HasOrder(key.g, o, key.p)
    ensures var q := (key.p - 1) / 2; (o == q || o == 2 * q) && Cong(Pow(key.g, 2 * q), 1, key.p)
  {
    hide Pow;
    var q := (key.p - 1) / 2;
    if HasOrder(key.g, q, key.p) {
      o := q;
      PowPeriod(key.g, q, q, 1, key.p);
    } else {
      o := 2 * q;
    }
  }

  /** With n = (p - 1) / 2 no key is returned only if the solutions agree modulo n in both exponents. */
  lemma NoKeyAtHalf(key: PublicKey, s: Solution, t: Solution, z: nat)
    requires RecoverableKey(key, z) && Derive(key, s) == Derive(key, t)
    requires Cong(s.b, t.b, (key.p - 1) / 2)
    ensures Cong(s.a, t.a, (key.p - 1) / 2)
  {
    hide Derive, HasOrder;
    var n := (key.p - 1) / 2;
    var o := HalfIsGood(key, z);
    CollisionCongruence(key, s, t, o, z);
    if o == 2 * n { CongCoarsen(z * (s.b - t.b), t.a - s.a, 2, n); }
    NoKeyCollision(s.a, s.b, t.a, t.b, n, z);
  }

  /** An accepted pair, whatever n it carries. The returned key is right from the invertible branch
      if g^(2n) = 1. If n is (p - 1) / 2, as on the walk, that is so; and if it is prime as well, every
      returned key is right. None is returned then only if the solutions agree in both exponents. */
  lemma AcceptedPairRecovery(job: Job, key: PublicKey, solutions: Solutions, nonce: u256, z: nat)
    requires UsableKey(key) && Verify(job, key, solutions, nonce)
    requires RecoverableKey(key, z) && solutions.1.n > 0
    ensures var n, s, t, r := solutions.1.n, solutions.0, solutions.1, KeyGen(key, solutions);
            && (r.None? <==> Cong(s.b, t.b, n))
            && (r.Some? && !Invertible(s.b, t.b, n) ==>
                  (Right(key, r) <==> key.h == 1 || key.h == Pow(key.g, n) % key.p))
            && (r.Some? && Invertible(s.b, t.b, n) && Cong(Pow(key.g, 2 * n), 1, key.p) ==> Right(key, r))
            && (n == (key.p - 1) / 2 ==>
                  && (r.None? ==> Cong(s.a, t.a, n))
                  && (r.Some? && Invertible(s.b, t.b, n) ==> Right(key, r))
                  && (r.Some? && IsPrime(n) ==> Right(key, r)))
  {
    hide Pow, Derive, Right, KeyGen, Invertible, HasOrder, Verify, PointUnder, IsPrime;
    var n, s, t := solutions.1.n, solutions.0, solutions.1;
    var o := HalfIsGood(key, z);
    VerifyIff(job, key, solutions, nonce);
    KeyGenOutcome(key, solutions, o, z);
    if n == (key.p - 1) / 2 {
      if Cong(s.b, t.b, n) {
        NoKeyAtHalf(key, s, t, z);
      } else if IsPrime(n) {
        PrimeModulusInvertible(s.b, t.b, n);
      }
    }
  }

  /** The pair carries n = (p - 1) / 2 and yields the private key exactly when it does not agree modulo
      (p - 1) / 2 in both exponents; it then differs in b. If it does agree nothing is returned. */
  predicate KeyUnlessAgree(key: PublicKey, solutions: Solutions)
    requires key.p >= 3
  {
    && solutions.1.n == (key.p - 1) / 2
    && var r := KeyGen(key, solutions);
    && (Right(key, r) <==> !AgreeAtHalf(key, solutions.0, solutions.1))
    && (Right(key, r) <==> !Cong(solutions.0.b, solutions.1.b, (key.p - 1) / 2))
    && (r.None? <==> AgreeAtHalf(key, solutions.0, solutions.1))
  }

  /** The boundary that matters, for any two solutions of one element with (p - 1) / 2 prime. */
  lemma RecoveryBoundary(key: PublicKey, solutions: Solutions, z: nat)
    requires RecoverableKey(key, z) && IsPrime((key.p - 1) / 2) && solutions.1.n == (key.p - 1) / 2
    requires Derive(key, solutions.0) == Derive(key, solutions.1)
    ensures KeyUnlessAgree(key, solutions)
  {
    hide Pow, Derive, KeyGen, Invertible, HasOrder, IsPrime;
    var s, t := solutions.0, solutions.1;
    var o := HalfIsGood(key, z);
    KeyGenOutcome(key, solutions, o, z);
    if Cong(s.b, t.b, t.n) {
      NoKeyAtHalf(key, s, t, z);
    } else {
      PrimeModulusInvertible(s.b, t.b, t.n);
    }
  }

  /** In particular for accepted pairs. */
  lemma AcceptedRightIff(job: Job, key: PublicKey, solutions: Solutions, nonce: u256, z: nat)
    requires UsableKey(key) && Verify(job, key, solutions, nonce)
    requires RecoverableKey(key, z) && IsPrime((key.p - 1) / 2) && solutions.1.n == (key.p - 1) / 2
    ensures KeyUnlessAgree(key, solutions)
  {
    hide Verify, RecoverableKey, PointUnder, Derive, KeyUnlessAgree, IsPrime;
    VerifyIff(job, key, solutions, nonce);
    RecoveryBoundary(key, solutions, z);
  }

  /** An accepted pair that carries n = 2 where (p - 1) / 2 = 3: for p = 7 and g = h = 2 the solutions
      (0, 1) and (4, 0) stand for 2, key_gen returns a key, and it is wrong. The oracle hashes every
      header to 1 and every point to 0. */
  lemma AcceptedWithWrongKey()
    ensures var job := Job(Oracle((d, pre, x) => 1, digits => 0, (m, seed, k) => 0), 48, 0);
            var key, pair := PublicKey(7, 2, 2, 48), (Solution(0, 1, 2), Solution(4, 0, 2));
            && RecoverableKey(key, 1) && IsPrime((key.p - 1) / 2)
            && Verify(job, key, pair, 1) && Collide(key, pair.0, pair.1)
            && KeyGen(key, pair).Some? && !Right(key, KeyGen(key, pair))
  {
    hide Derive, Pow, KeyGen, Right, Collide, Verify;
    var job := Job(Oracle((d, pre, x) => 1, digits => 0, (m, seed, k) => 0), 48, 0);
    var key, s, t := PublicKey(7, 2, 2, 48), Solution(0, 1, 2), Solution(4, 0, 2);
    OrderOfTwo();
    WrongKey(key, 3, 2);
    KeyGenOutcome(key, (s, t), 3, 1);
    AllPass(job, key, s);
    VerifyIff(job, key, (s, t), 1);
    CollideIff(key, s, t);
  }

  lemma AllPass(job: Job, key: PublicKey, s: Solution)
    requires UsableKey(key) && key.p == 7 && key.g == 2 && Derive(key, s) == 2
    requires job.oracle.header(job.difficulty, job.preHash, 1) == 1 && forall d :: job.oracle.point(d) == 0
    ensures PointUnder(job, key, s, 1)
  {
    hide Derive, HashDiff;
    assert Pow(2, 1) == 2;
    assert 0 * HashDiff(key.bitLength) == 0;
  }

  /** The order of 2 modulo 7 is 3. */
  lemma OrderOfTwo()
    ensures HasOrder(2, 3, 7) && Pow(2, 1) == 2 && Pow(2, 4) == 16
    ensures SoundKey(PublicKey(7, 2, 2, 48)) && IsPrime(3)
  {
    assert Pow(2, 1) == 2 && Pow(2, 2) == 4 && Pow(2, 3) == 8;
    assert Pow(2, 4) == 16 && Pow(2, 5) == 32 && Pow(2, 6) == 64;
  }
}
