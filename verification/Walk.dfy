/** The hash-driven walk over (work, a, b): one step, its iteration, and what every step keeps.
    blake3 and the random generator enter only as total functions of their inputs. */
module Walk {
  import opened NumberTheory
  import opened Bytes
  import opened Threshold

  /** An ElGamal public key: h is a power of g modulo p. */
  datatype PublicKey = PublicKey(p: nat, g: nat, h: nat, bitLength: nat)

  /** A pair of exponents, with the modulus n used for key recovery. */
  datatype Solution = Solution(a: nat, b: nat, n: nat)

  type Solutions = (Solution, Solution)

  /** A node of the walk; `nonce` is the previous `work`. */
  datatype State = State(solution: Solution, nonce: nat, work: nat, pubkey: PublicKey)

  /** What the model leaves uninterpreted: the header hash of (difficulty, pre-hash, nonce), the
      hash of a digit string, and the k-th draw of a generator seeded for the range n. */
  datatype Oracle = Oracle(
    header: (nat, nat, u256) -> nat,
    point: seq<byte> -> u256,
    draw: (nat, nat, nat) -> nat)

  /** The data of a header before its nonce is known. */
  datatype Job = Job(oracle: Oracle, difficulty: nat, preHash: nat)

  /** `hash_integer` of a header. */
  function HashInteger(job: Job, nonce: u256): nat {
    job.oracle.header(job.difficulty, job.preHash, nonce)
  }

  // ---------- one step ----------

  function FuncF(key: PublicKey, x: nat, y: nat): (w: nat)
    requires key.p > 0
    ensures w < key.p
  {
    match x % 3
    case 0 => Pow(y, x) % key.p
    case 1 => ((Pow(key.g, x) % key.p) * y) % key.p
    case 2 => ((Pow(key.h, x) % key.p) * y) % key.p
  }

  function FuncG(key: PublicKey, a: nat, x: nat): nat
    requires key.p > 1
  {
    match x % 3
    case 0 => (a * x) % (key.p - 1)
    case 1 => (a + x) % (key.p - 1)
    case 2 => a
  }

  function FuncH(key: PublicKey, b: nat, x: nat): nat
    requires key.p > 1
  {
    match x % 3
    case 0 => (b * x) % (key.p - 1)
    case 1 => b
    case 2 => (b + x) % (key.p - 1)
  }

  /** Keys the arithmetic is defined for: below 3 the random range is empty, from 2^256 on the
      work no longer fits the nonce of a header, and the distinguished-point factor must not
      underflow. */
  predicate UsableKey(key: PublicKey) {
    3 <= key.p < TWO_256 && Measurable(key.bitLength)
  }

  predicate Ready(s: State) {
    UsableKey(s.pubkey) && s.work < s.pubkey.p
  }

  /** `transit`, as a function: the work becomes the nonce and is hashed with the header. */
  function Step(job: Job, s: State): (t: State)
    requires Ready(s)
    ensures Ready(t) && t.pubkey == s.pubkey
  {
    U256RoundTrip(s.work);
    var x := HashInteger(job, BigintU256(s.work)) % s.pubkey.p;
    State(Solution(FuncG(s.pubkey, s.solution.a, x), FuncH(s.pubkey, s.solution.b, x), s.solution.n),
          s.work,
          FuncF(s.pubkey, x, s.work),
          s.pubkey)
  }

  /** The state after i steps. */
  function Iter(job: Job, s: State, i: nat): (t: State)
    requires Ready(s)
    ensures Ready(t) && t.pubkey == s.pubkey
  {
    if i == 0 then s else Step(job, Iter(job, s, i - 1))
  }

  /** The group element a solution stands for. */
  function Derive(key: PublicKey, s: Solution): (y: nat)
    requires key.p > 0
    ensures y < key.p
  {
    ((Pow(key.g, s.a) % key.p) * (Pow(key.h, s.b) % key.p)) % key.p
  }

  function RandomBelow(o: Oracle, n: nat, seed: nat, k: nat): (r: nat)
    requires n > 0
    ensures r < n
  {
    o.draw(n, seed, k) % n
  }

  /** `Solution::new_random`. */
  function NewRandom(o: Oracle, n: nat, seed: nat): Solution
    requires n > 0
  {
    Solution(RandomBelow(o, n, seed, 0), RandomBelow(o, n, seed, 1), n)
  }

  /** `State::from_pub_key`. */
  function FromPubKey(o: Oracle, key: PublicKey, seed: nat): (s: State)
    requires UsableKey(key)
    ensures Ready(s) && s.pubkey == key
  {
    var solution := NewRandom(o, (key.p - 1) / 2, seed);
    State(solution, 1, Derive(key, solution), key)
  }

  // ---------- the walk invariant ----------

  /** Keys whose generators have an order dividing p - 1. */
  ghost predicate SoundKey(key: PublicKey) {
    && UsableKey(key)
    && Cong(Pow(key.g, key.p - 1), 1, key.p)
    && Cong(Pow(key.h, key.p - 1), 1, key.p)
  }

  /** Keys as the generator makes them: a prime modulus and two nonzero residues. */
  ghost predicate PrimeKey(key: PublicKey) {
    UsableKey(key) && IsPrime(key.p) && 0 < key.g < key.p && 0 < key.h < key.p
  }

  /** Fermat's little theorem makes every prime key sound. */
  lemma PrimeKeyIsSound(key: PublicKey)
    requires PrimeKey(key)
    ensures SoundKey(key)
  {
    ModUnique(key.g, key.p, 0, key.g);
    ModUnique(key.h, key.p, 0, key.h);
    Fermat(key.g, key.p);
    Fermat(key.h, key.p);
  }

  /** The work is the group element of the exponents, which stay reduced, and n stays (p - 1) / 2. */
  predicate OnWalk(s: State) {
    && Ready(s)
    && s.work == Derive(s.pubkey, s.solution)
    && s.solution.a < s.pubkey.p - 1
    && s.solution.b < s.pubkey.p - 1
    && s.solution.n == (s.pubkey.p - 1) / 2
  }

  lemma DeriveIsProduct(key: PublicKey, s: Solution)
    requires key.p > 0
    ensures Cong(Derive(key, s), Pow(key.g, s.a) * Pow(key.h, s.b), key.p)
  {
    ModMul(Pow(key.g, s.a), Pow(key.h, s.b), key.p);
    ModIsCong(Pow(key.g, s.a) * Pow(key.h, s.b), key.p);
  }

  /** A residue congruent to g^a h^b is what the solution (a, b) stands for. */
  lemma DeriveUnique(key: PublicKey, s: Solution, y: nat)
    requires key.p > 0 && y < key.p && Cong(y, Pow(key.g, s.a) * Pow(key.h, s.b), key.p)
    ensures y == Derive(key, s)
  {
    DeriveIsProduct(key, s);
    ModUnique(y, key.p, 0, y);
    ModUnique(Derive(key, s), key.p, 0, Derive(key, s));
  }

  /** Case x = 0 (mod 3): raising the work to a power multiplies both exponents. */
  lemma PowerStep(key: PublicKey, s: Solution, x: nat)
    requires SoundKey(key) && x % 3 == 0
    ensures FuncF(key, x, Derive(key, s))
            == Derive(key, Solution(FuncG(key, s.a, x), FuncH(key, s.b, x), s.n))
  {
    hide Pow, Derive;
    var p, y := key.p, Derive(key, s);
    var A, B := Pow(key.g, s.a), Pow(key.h, s.b);
    DeriveIsProduct(key, s);
    PowCong(y, A * B, x, p);
    PowProduct(A, B, x);
    PowMul(key.g, s.a, x);
    PowMul(key.h, s.b, x);
    PowReduce(key.g, s.a * x, p - 1, p);
    PowReduce(key.h, s.b * x, p - 1, p);
    CongMul(Pow(key.g, (s.a * x) % (p - 1)), Pow(key.g, s.a * x),
            Pow(key.h, (s.b * x) % (p - 1)), Pow(key.h, s.b * x), p);
    ModIsCong(Pow(y, x), p);
    DeriveUnique(key, Solution(FuncG(key, s.a, x), FuncH(key, s.b, x), s.n), FuncF(key, x, y));
  }

  /** Multiplying a product u * v by a residue c, when w stands for u * c. */
  lemma ShiftCong(y: nat, c: nat, u: nat, v: nat, w: nat, p: nat)
    requires p > 0 && Cong(y, u * v, p) && Cong(w, u * c, p)
    ensures Cong(((c % p) * y) % p, w * v, p)
  {
    ModIsCong(c, p);
    CongMul(c % p, c, y, u * v, p);
    ModIsCong((c % p) * y, p);
    CongMul(w, u * c, v, v, p);
    assert c * (u * v) == (u * c) * v;
  }

  /** Case x = 1 (mod 3): multiplying by g^x adds x to a. */
  lemma GeneratorStep(key: PublicKey, s: Solution, x: nat)
    requires SoundKey(key) && x % 3 == 1
    ensures FuncF(key, x, Derive(key, s))
            == Derive(key, Solution(FuncG(key, s.a, x), FuncH(key, s.b, x), s.n))
  {
    hide Pow, Derive;
    var p, y := key.p, Derive(key, s);
    var t := Solution((s.a + x) % (p - 1), s.b, s.n);
    DeriveIsProduct(key, s);
    PowAdd(key.g, s.a, x);
    PowReduce(key.g, s.a + x, p - 1, p);
    ShiftCong(y, Pow(key.g, x), Pow(key.g, s.a), Pow(key.h, s.b), Pow(key.g, t.a), p);
    DeriveUnique(key, t, FuncF(key, x, y));
  }

  /** Case x = 2 (mod 3): multiplying by h^x adds x to b. */
  lemma ElementStep(key: PublicKey, s: Solution, x: nat)
    requires SoundKey(key) && x % 3 == 2
    ensures FuncF(key, x, Derive(key, s))
            == Derive(key, Solution(FuncG(key, s.a, x), FuncH(key, s.b, x), s.n))
  {
    hide Pow, Derive;
    var p, y := key.p, Derive(key, s);
    var t := Solution(s.a, (s.b + x) % (p - 1), s.n);
    DeriveIsProduct(key, s);
    PowAdd(key.h, s.b, x);
    PowReduce(key.h, s.b + x, p - 1, p);
    Commute(Pow(key.g, s.a), Pow(key.h, s.b));
    Commute(Pow(key.g, s.a), Pow(key.h, t.b));
    ShiftCong(y, Pow(key.h, x), Pow(key.h, s.b), Pow(key.g, s.a), Pow(key.h, t.b), p);
    DeriveUnique(key, t, FuncF(key, x, y));
  }

  lemma Commute(x: nat, y: nat)
    ensures x * y == y * x
  {
  }

  /** Every step keeps the walk invariant. */
  lemma StepKeepsWalk(job: Job, s: State)
    requires SoundKey(s.pubkey) && OnWalk(s)
    ensures OnWalk(Step(job, s))
  {
    U256RoundTrip(s.work);
    var x := HashInteger(job, BigintU256(s.work)) % s.pubkey.p;
    if x % 3 == 0 {
      PowerStep(s.pubkey, s.solution, x);
    } else if x % 3 == 1 {
      GeneratorStep(s.pubkey, s.solution, x);
    } else {
      ElementStep(s.pubkey, s.solution, x);
    }
  }

  lemma StartOnWalk(o: Oracle, key: PublicKey, seed: nat)
    requires UsableKey(key)
    ensures OnWalk(FromPubKey(o, key, seed))
  {
  }

  /** The invariant holds after any number of steps from a state that satisfies it. */
  lemma {:induction false} IterKeepsWalk(job: Job, s: State, i: nat)
    requires SoundKey(s.pubkey) && OnWalk(s)
    ensures OnWalk(Iter(job, s, i))
  {
    if i != 0 {
      IterKeepsWalk(job, s, i - 1);
      StepKeepsWalk(job, Iter(job, s, i - 1));
    }
  }

  /** From any seed and after any number of steps. */
  lemma WalkInvariant(job: Job, key: PublicKey, seed: nat, i: nat)
    requires SoundKey(key)
    ensures OnWalk(Iter(job, FromPubKey(job.oracle, key, seed), i))
  {
    StartOnWalk(job.oracle, key, seed);
    IterKeepsWalk(job, FromPubKey(job.oracle, key, seed), i);
  }

  // ---------- the cases of a step, and the start ----------

  /** What a step does, with x the hash of the header for the work, modulo p: raise the work to x and
      multiply both exponents by it; or multiply the work by g^x and add x to a; or multiply it by h^x
      and add x to b. The work becomes the nonce. */
  lemma StepCases(job: Job, s: State)
    requires Ready(s)
    ensures var t, p := Step(job, s), s.pubkey.p;
            var x := job.oracle.header(job.difficulty, job.preHash, s.work) % p;
            && t.nonce == s.work && t.solution.n == s.solution.n && t.work < p
            && (x % 3 == 0 ==>
                  && Cong(t.work, Pow(s.work, x), p)
                  && Cong(t.solution.a, s.solution.a * x, p - 1) && Cong(t.solution.b, s.solution.b * x, p - 1))
            && (x % 3 == 1 ==>
                  && Cong(t.work, Pow(s.pubkey.g, x) * s.work, p)
                  && Cong(t.solution.a, s.solution.a + x, p - 1) && t.solution.b == s.solution.b)
            && (x % 3 == 2 ==>
                  && Cong(t.work, Pow(s.pubkey.h, x) * s.work, p)
                  && t.solution.a == s.solution.a && Cong(t.solution.b, s.solution.b + x, p - 1))
  {
    hide Pow;
    var p := s.pubkey.p;
    U256RoundTrip(s.work);
    var x := HashInteger(job, BigintU256(s.work)) % p;
    ModIsCong(Pow(s.work, x), p);
    ReducedFactor(Pow(s.pubkey.g, x), s.work, p);
    ReducedFactor(Pow(s.pubkey.h, x), s.work, p);
    ModIsCong(s.solution.a * x, p - 1);
    ModIsCong(s.solution.b * x, p - 1);
    ModIsCong(s.solution.a + x, p - 1);
    ModIsCong(s.solution.b + x, p - 1);
  }

  lemma ReducedFactor(x: int, y: int, m: int)
    requires m > 0
    ensures Cong(((x % m) * y) % m, x * y, m)
  {
    ModIsCong(x, m);
    CongMul(x % m, x, y, y, m);
    ModIsCong((x % m) * y, m);
  }

  /** A walk starts from the first two draws for the range n = (p - 1) / 2, with the nonce 1. */
  lemma StartIs(o: Oracle, key: PublicKey, seed: nat)
    requires UsableKey(key)
    ensures var s, n := FromPubKey(o, key, seed), (key.p - 1) / 2;
            && s.nonce == 1 && s.solution.n == n && s.solution.a < n && s.solution.b < n
            && Cong(s.solution.a, o.draw(n, seed, 0), n) && Cong(s.solution.b, o.draw(n, seed, 1), n)
            && Cong(s.work, Pow(key.g, s.solution.a) * Pow(key.h, s.solution.b), key.p)
  {
    hide Pow, Derive;
    var n := (key.p - 1) / 2;
    ModIsCong(o.draw(n, seed, 0), n);
    ModIsCong(o.draw(n, seed, 1), n);
    DeriveIsProduct(key, NewRandom(o, n, seed));
  }

  // ---------- determinism ----------

  lemma {:induction false} IterAdd(job: Job, s: State, i: nat, k: nat)
    requires Ready(s)
    ensures Iter(job, s, i + k) == Iter(job, Iter(job, s, i), k)
  {
    hide Step;
    if k != 0 { IterAdd(job, s, i, k - 1); }
  }

  lemma StepAbsorbs(job: Job, s: State, t: State)
    requires Ready(s) && Ready(t) && s.pubkey == t.pubkey && s.work == t.work
    ensures Step(job, s).work == Step(job, t).work
    ensures s.solution == t.solution ==> Step(job, s).solution == Step(job, t).solution
  {
    hide FuncF, FuncG, FuncH;
  }

  /** Equal works stay equal for ever; equal works and solutions stay equal too. */
  lemma {:induction false} EqualWorksAbsorb(job: Job, s: State, t: State, k: nat)
    requires Ready(s) && Ready(t) && s.pubkey == t.pubkey && s.work == t.work
    ensures Iter(job, s, k).work == Iter(job, t, k).work
    ensures s.solution == t.solution ==> Iter(job, s, k).solution == Iter(job, t, k).solution
  {
    hide Step;
    if k != 0 {
      EqualWorksAbsorb(job, s, t, k - 1);
      StepAbsorbs(job, Iter(job, s, k - 1), Iter(job, t, k - 1));
    }
  }
}
