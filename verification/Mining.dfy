/** Building a seal from the keychain of the parent seal, and verifying a seal: the path of a block
    from the miner to the verifier through the U256 encodings. */
module Mining {
  import opened Wrappers
  import opened Bytes
  import opened Constants
  import opened Walk
  import opened Verifier
  import opened Floyd
  import opened Polling
  import opened Solver
  import opened Parallel
  import opened ParallelSafety
  import Retarget
  import DifficultyPallet

  const KEYS: nat := MAX_DIFFICULTY - MIN_DIFFICULTY
  const GRAIN: nat := 10000

  // ---------- raw forms ----------

  datatype RawPublicKey = RawPublicKey(p: u256, g: u256, h: u256, bitLength: nat)
  datatype RawSolution = RawSolution(a: u256, b: u256, n: u256)
  datatype KeySeed = Seed128(small: u128) | Seed256(large: u256)

  datatype Seal = Seal(difficulty: nat, pubkey: RawPublicKey, seeds: seq<KeySeed>,
                       solutions: (RawSolution, RawSolution), nonce: u256)

  /** Every part has at most 32 digits. */
  predicate Fits(s: Solution) {
    |ToDigits(s.a)| <= 32 && |ToDigits(s.b)| <= 32 && |ToDigits(s.n)| <= 32
  }

  predicate KeyFits(key: PublicKey) {
    |ToDigits(key.p)| <= 32 && |ToDigits(key.g)| <= 32 && |ToDigits(key.h)| <= 32
  }

  /** `Solution::to_u256`. */
  function ToU256(s: Solution): RawSolution
    requires Fits(s)
  {
    RawSolution(BigintU256(s.a), BigintU256(s.b), BigintU256(s.n))
  }

  /** `Solution::from_u256`. */
  function FromU256(r: RawSolution): Solution {
    Solution(U256Bigint(r.a), U256Bigint(r.b), U256Bigint(r.n))
  }

  function ToRaw(key: PublicKey): RawPublicKey
    requires KeyFits(key)
  {
    RawPublicKey(BigintU256(key.p), BigintU256(key.g), BigintU256(key.h), key.bitLength)
  }

  function FromRaw(raw: RawPublicKey): PublicKey {
    PublicKey(U256Bigint(raw.p), U256Bigint(raw.g), U256Bigint(raw.h), raw.bitLength)
  }

  /** Solutions of states on the walk fit, field by field, and so do the nonces the walk leaves. */
  lemma WalkFits(s: State)
    requires OnWalk(s)
    ensures Fits(s.solution) && FromU256(ToU256(s.solution)) == s.solution
    ensures var r := ToU256(s.solution); r.a == s.solution.a && r.b == s.solution.b && r.n == s.solution.n
    ensures |ToDigits(s.work)| <= 32 && U256Bigint(BigintU256(s.work)) == s.work
  {
    U256RoundTrip(s.solution.a);
    U256RoundTrip(s.solution.b);
    U256RoundTrip(s.solution.n);
    U256RoundTrip(s.work);
  }

  lemma KeyRoundTrip(key: PublicKey)
    requires PrimeKey(key)
    ensures KeyFits(key) && FromRaw(ToRaw(key)) == key
    ensures var raw := ToRaw(key);
            raw.p == key.p && raw.g == key.g && raw.h == key.h && raw.bitLength == key.bitLength
  {
    U256RoundTrip(key.p);
    U256RoundTrip(key.g);
    U256RoundTrip(key.h);
  }

  // ---------- the keychain ----------

  /** Key generation from a bit length and a seed, and the seed a key yields for the next block. */
  datatype KeyMaker = KeyMaker(generate: (nat, nat) -> PublicKey, yieldSeed: PublicKey -> nat)

  /** What the miner relies on: keys are prime keys of the requested length, their seeds fit. */
  ghost predicate GoodMaker(maker: KeyMaker) {
    forall bits: nat, seed: nat | MIN_DIFFICULTY <= bits < MAX_DIFFICULTY ::
      var key := maker.generate(bits, seed);
      PrimeKey(key) && key.bitLength == bits && |ToDigits(maker.yieldSeed(key))| <= 32
  }

  function SeedValue(seed: KeySeed): nat {
    match seed
    case Seed128(value) => U128Bigint(value)
    case Seed256(value) => U256Bigint(value)
  }

  /** `yield_pub_keys`: the key at index i has bit length i + 48. */
  function YieldPubKeys(maker: KeyMaker, seeds: seq<KeySeed>): (keys: seq<PublicKey>)
    ensures |keys| == |seeds|
  {
    seq(|seeds|, i requires 0 <= i < |seeds| => maker.generate(i + MIN_DIFFICULTY, SeedValue(seeds[i])))
  }

  /** The seed a key passes on: in 16 bytes for keys below 128 bits, in 32 from there on. */
  function NextSeed(maker: KeyMaker, keys: seq<PublicKey>, i: nat): KeySeed
    requires i < |keys| && |ToDigits(maker.yieldSeed(keys[i]))| <= 32
  {
    if i < 128 - MIN_DIFFICULTY then Seed128(BigintU128(maker.yieldSeed(keys[i])))
    else Seed256(BigintU256(maker.yieldSeed(keys[i])))
  }

  /** What a good maker gives at each place of the keychain. */
  lemma KeychainLayout(maker: KeyMaker, seeds: seq<KeySeed>, i: nat)
    requires GoodMaker(maker) && |seeds| == KEYS && i < KEYS
    ensures var keys := YieldPubKeys(maker, seeds);
            && PrimeKey(keys[i]) && keys[i].bitLength == i + MIN_DIFFICULTY
            && |ToDigits(maker.yieldSeed(keys[i]))| <= 32
  {
  }

  /** What a key at index i hands down of the number y it yields: keys below 128 bits have 16 bytes for
      it, in which a larger number becomes 0. */
  function HandedDown(i: nat, y: nat): nat {
    if i + 48 >= 128 || y < TWO_128 then y else 0
  }

  /** The next block's keychain is made from the yielded seeds: key i is generated for its bit length
      from what key i of this block hands down. */
  lemma SeedPassedOn(maker: KeyMaker, keys: seq<PublicKey>, seeds: seq<KeySeed>, i: nat)
    requires i < |keys| == |seeds| && |ToDigits(maker.yieldSeed(keys[i]))| <= 32
    requires seeds[i] == NextSeed(maker, keys, i)
    ensures YieldPubKeys(maker, seeds)[i] == maker.generate(i + 48, HandedDown(i, maker.yieldSeed(keys[i])))
  {
    U256RoundTrip(maker.yieldSeed(keys[i]));
  }

  /** The key at index i of a keychain is generated for the bit length i + 48 from the number its seed
      holds. */
  lemma KeychainFrom(maker: KeyMaker, seeds: seq<KeySeed>, i: nat)
    requires i < |seeds|
    ensures YieldPubKeys(maker, seeds)[i]
            == maker.generate(i + 48, match seeds[i] case Seed128(v) => v case Seed256(v) => v)
  {
  }

  /** From the first retarget on, the difficulty in force selects a key of that bit length from the
      keychain, except at the top of its range, for which the keychain has no key. */
  lemma KeyForDifficulty(maker: KeyMaker, seeds: seq<KeySeed>, history: seq<Retarget.Stamp>,
                         blockTime: Retarget.u64, initial: nat)
    requires GoodMaker(maker) && |seeds| == KEYS && initial >= 1 && |history| >= DIFFICULTY_ADJUST_WINDOW
    ensures var d := DifficultyPallet.PlainDifficulty(history, blockTime, initial);
            && MIN_DIFFICULTY <= d
            && (d - MIN_DIFFICULTY < KEYS <==> d != MAX_DIFFICULTY)
            && (d != MAX_DIFFICULTY ==> YieldPubKeys(maker, seeds)[d - MIN_DIFFICULTY].bitLength == d)
  {
    DifficultyPallet.PlainDrift(history, blockTime, initial, |history|, |history|);
    assert history[..|history|] == history;
  }

  // ---------- verification ----------

  /** `TREXAlgo::verify`, on the decoded seal; a seal that cannot be decoded is rejected. */
  predicate TrexVerify(oracle: Oracle, preHash: nat, decoded: Option<Seal>, difficulty: nat)
    requires decoded.Some? ==> UsableKey(FromRaw(decoded.value.pubkey))
  {
    match decoded
    case None => false
    case Some(seal) =>
      if seal.difficulty != difficulty then false
      else if seal.difficulty != seal.pubkey.bitLength then false
      else
        Verify(Job(oracle, difficulty, preHash), FromRaw(seal.pubkey),
               (FromU256(seal.solutions.0), FromU256(seal.solutions.1)), seal.nonce)
  }

  /** What a seal must be to pass, from its raw fields: its difficulty is the one required and the bit
      length of its key, and its solutions solve the header under its nonce. Nothing undecodable passes. */
  lemma SealAcceptedIff(oracle: Oracle, preHash: nat, seal: Seal, difficulty: nat)
    requires UsableKey(FromRaw(seal.pubkey))
    ensures UsableKey(PublicKey(seal.pubkey.p, seal.pubkey.g, seal.pubkey.h, seal.pubkey.bitLength))
    ensures TrexVerify(oracle, preHash, Some(seal), difficulty)
            <==> && seal.difficulty == difficulty && seal.pubkey.bitLength == difficulty
                 && Verify(Job(oracle, difficulty, preHash),
                           PublicKey(seal.pubkey.p, seal.pubkey.g, seal.pubkey.h, seal.pubkey.bitLength),
                           (Solution(seal.solutions.0.a, seal.solutions.0.b, seal.solutions.0.n),
                            Solution(seal.solutions.1.a, seal.solutions.1.b, seal.solutions.1.n)),
                           seal.nonce)
    ensures !TrexVerify(oracle, preHash, None, difficulty)
  {
    hide Verify;
  }

  /** So a seal passes at one difficulty only, and its key has that many bits. */
  lemma OneDifficulty(oracle: Oracle, preHash: nat, seal: Seal, d: nat, e: nat)
    requires UsableKey(FromRaw(seal.pubkey)) && TrexVerify(oracle, preHash, Some(seal), d)
    ensures FromRaw(seal.pubkey).bitLength == d
    ensures TrexVerify(oracle, preHash, Some(seal), e) ==> d == e
  {
    hide Verify;
  }

  /** The seal built from a solved key. */
  function SealOf(difficulty: nat, key: PublicKey, seeds: seq<KeySeed>, solutions: Solutions, nonce: u256): Seal
    requires KeyFits(key) && Fits(solutions.0) && Fits(solutions.1)
  {
    Seal(difficulty, ToRaw(key), seeds, (ToU256(solutions.0), ToU256(solutions.1)), nonce)
  }

  /** The encodings lose nothing: a seal is accepted exactly when the solutions it was built from
      are, provided the key has the bit length of the difficulty. */
  lemma SealVerifies(job: Job, key: PublicKey, seeds: seq<KeySeed>, solutions: Solutions, nonce: u256)
    requires PrimeKey(key) && Fits(solutions.0) && Fits(solutions.1)
    ensures KeyFits(key) && UsableKey(FromRaw(ToRaw(key)))
    ensures TrexVerify(job.oracle, job.preHash,
                       Some(SealOf(job.difficulty, key, seeds, solutions, nonce)), job.difficulty)
            <==> key.bitLength == job.difficulty && Verify(job, key, solutions, nonce)
  {
    hide Verify;
    KeyRoundTrip(key);
    assert FromU256(ToU256(solutions.0)) == solutions.0 && FromU256(ToU256(solutions.1)) == solutions.1;
    assert Job(job.oracle, job.difficulty, job.preHash) == job;
  }

  /** Both solutions of a successful search fit. */
  lemma OutcomeFits(job: Job, s: State)
    requires SoundKey(s.pubkey) && OnWalk(s) && Outcome(job, s).Some?
    ensures Fits(Outcome(job, s).value.0) && Fits(Outcome(job, s).value.1)
  {
    hide Verify, Step, Distinguished;
    var t, u := OutcomeShape(job, s);
    FinalStatesOnWalk(job, s, PhaseTwoEnd(job, s).value);
    WalkFits(t);
    WalkFits(u);
  }

  // ---------- mining ----------

  /** `Seal::try_cpu_mining` with one worker: whatever the parent seal, the seed and the schedule of
      the flag, a seal that is built is accepted for the header it was mined for, and holds a collision.
      The key is the one the parent's seed for this difficulty generates, and the keychain of the next
      block is generated from what this block's keys hand down. */
  method TryCpuMining(maker: KeyMaker, parent: Seal, compute: Compute, miningSeed: u256, found: SharedFlag)
    returns (r: Option<Seal>)
    requires GoodMaker(maker) && |parent.seeds| == KEYS
    requires MIN_DIFFICULTY <= compute.job.difficulty < MAX_DIFFICULTY
    modifies compute, found
    ensures r.Some? ==>
              && UsableKey(FromRaw(r.value.pubkey))
              && TrexVerify(compute.job.oracle, compute.job.preHash, r, compute.job.difficulty)
              && Collide(FromRaw(r.value.pubkey), FromU256(r.value.solutions.0), FromU256(r.value.solutions.1))
    ensures r.Some? ==>
              && FromRaw(r.value.pubkey) == YieldPubKeys(maker, parent.seeds)[compute.job.difficulty - 48]
              && FromRaw(r.value.pubkey)
                 == maker.generate(compute.job.difficulty,
                                   match parent.seeds[compute.job.difficulty - 48]
                                   case Seed128(v) => v case Seed256(v) => v)
              && |r.value.seeds| == KEYS
              && forall i | 0 <= i < KEYS ::
                   YieldPubKeys(maker, r.value.seeds)[i]
                   == maker.generate(i + 48, HandedDown(i, maker.yieldSeed(YieldPubKeys(maker, parent.seeds)[i])))
    ensures r.Some? ==> found.raised
    ensures var key := YieldPubKeys(maker, parent.seeds)[compute.job.difficulty - 48];
            && UsableKey(key)
            && var start := FromPubKey(compute.job.oracle, key, miningSeed);
            && (r.Some? ==>
                  && Outcome(compute.job, start)
                     == Some((FromU256(r.value.solutions.0), FromU256(r.value.solutions.1)))
                  && r.value.nonce == FinalNonce(compute.job, start))
            && (Undisturbed(found.env) && !old(found.raised) ==>
                  && (r.Some? <==> Outcome(compute.job, start).Some?)
                  && found.loads == old(found.loads) + Down(PollCount(compute.job, start, 10000)))
  {
    hide Verify, FromPubKey, Outcome, FinalNonce, YieldPubKeys, GoodMaker, Undisturbed, Cancelled, PollCount, Down;
    hide PrimeKey, NextSeed, SealOf, FromRaw, FromU256, TrexVerify, Collide, HandedDown;
    var job := compute.job;
    var keychain := YieldPubKeys(maker, parent.seeds);
    var key := keychain[job.difficulty - MIN_DIFFICULTY];
    var newSeeds := new KeySeed[KEYS](_ => Seed128(1));
    for idx := 0 to |keychain|
      modifies newSeeds
      invariant forall i | 0 <= i < idx ::
                  |ToDigits(maker.yieldSeed(keychain[i]))| <= 32 && newSeeds[i] == NextSeed(maker, keychain, i)
    {
      KeychainLayout(maker, parent.seeds, idx);
      newSeeds[idx] := NextSeed(maker, keychain, idx);
    }
    KeychainLayout(maker, parent.seeds, job.difficulty - MIN_DIFFICULTY);
    KeychainFrom(maker, parent.seeds, job.difficulty - MIN_DIFFICULTY);
    PrimeKeyIsSound(key);
    var seed := U256Bigint(miningSeed);
    var solutions := SolveDist(key, compute, seed, GRAIN, found);
    if solutions.None? {
      return None;
    }
    SearchFits(job, key, seed);
    SealVerifies(job, key, newSeeds[..], solutions.value, compute.nonce);
    SealParts(job.difficulty, key, newSeeds[..], solutions.value, compute.nonce);
    AllPassedOn(maker, keychain, newSeeds[..]);
    return Some(SealOf(job.difficulty, key, newSeeds[..], solutions.value, compute.nonce));
  }

  lemma AllPassedOn(maker: KeyMaker, keys: seq<PublicKey>, seeds: seq<KeySeed>)
    requires |keys| == |seeds|
    requires forall i | 0 <= i < |keys| ::
               |ToDigits(maker.yieldSeed(keys[i]))| <= 32 && seeds[i] == NextSeed(maker, keys, i)
    ensures forall i | 0 <= i < |keys| ::
              YieldPubKeys(maker, seeds)[i] == maker.generate(i + 48, HandedDown(i, maker.yieldSeed(keys[i])))
  {
    hide YieldPubKeys, NextSeed, HandedDown;
    forall i | 0 <= i < |keys|
      ensures YieldPubKeys(maker, seeds)[i] == maker.generate(i + 48, HandedDown(i, maker.yieldSeed(keys[i])))
    {
      SeedPassedOn(maker, keys, seeds, i);
    }
  }

  lemma SearchFits(job: Job, key: PublicKey, seed: nat)
    requires SoundKey(key)
    ensures var r := Outcome(job, FromPubKey(job.oracle, key, seed));
            r.Some? ==> Fits(r.value.0) && Fits(r.value.1)
  {
    StartOnWalk(job.oracle, key, seed);
    if Outcome(job, FromPubKey(job.oracle, key, seed)).Some? {
      OutcomeFits(job, FromPubKey(job.oracle, key, seed));
    }
  }

  lemma SealParts(difficulty: nat, key: PublicKey, seeds: seq<KeySeed>, solutions: Solutions, nonce: u256)
    requires PrimeKey(key) && KeyFits(key) && Fits(solutions.0) && Fits(solutions.1)
    ensures var seal := SealOf(difficulty, key, seeds, solutions, nonce);
            && FromRaw(seal.pubkey) == key && seal.pubkey == ToRaw(key) && seal.seeds == seeds
            && UsableKey(FromRaw(seal.pubkey)) && seal.nonce == nonce
            && FromU256(seal.solutions.0) == solutions.0 && FromU256(seal.solutions.1) == solutions.1
  {
    KeyRoundTrip(key);
  }

  /** The seal built after a parallel search is accepted exactly when the nonce and the pair come
      from claims of the same work; with a single claimant it always is. */
  lemma ParallelSeal(c: Config, run: seq<System>, es: seq<Event>, seeds: seq<KeySeed>)
    requires PrimeKey(c.key) && c.key.bitLength == c.job.difficulty
    requires Reachable(c, run, es) && AllDone(run[|es|]) && run[|es|].cells.pair.Some?
    ensures var s, g := run[|es|], run[|es|].cells;
            && g.nonceBy.Some? && g.pairBy.Some? && g.nonceBy.value < |s.workers| && g.pairBy.value < |s.workers|
            && g.nonce < TWO_256 && Fits(g.pair.value.0) && Fits(g.pair.value.1)
            && KeyFits(c.key) && UsableKey(FromRaw(ToRaw(c.key)))
            && var accepted := TrexVerify(c.job.oracle, c.job.preHash,
                                          Some(SealOf(c.job.difficulty, c.key, seeds, g.pair.value, g.nonce)),
                                          c.job.difficulty);
               && (accepted <==> s.workers[g.nonceBy.value].state.work == s.workers[g.pairBy.value].state.work)
               && (|g.claimants| == 1 ==> accepted)
  {
    hide Verify, TrexVerify, SealOf, Init, Next, Enabled, Stepped, Distinguished;
    var s := run[|es|];
    RunInv(c, run, es, |es|);
    var w := s.workers[s.cells.pairBy.value];
    assert WorkerInv(c, s.cells, w);
    WalkFits(w.state);
    WalkFits(State(w.mate.value, 0, w.state.work, c.key));
    CoherenceIff(c, run, es, |es|);
    SealVerifies(c.job, c.key, seeds, s.cells.pair.value, s.cells.nonce);
    if |s.cells.claimants| == 1 { SingleClaimantAccepted(c, run, es, |es|); }
  }
}
