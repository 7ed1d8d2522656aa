# A verified model of the TREX proof of work

TREX mines a block by looking for two different representations g^a h^b of one element of the
group of an ElGamal public key. A walk driven by the hash of the block header moves over triples
(work, a, b). Floyd's cycle finding, or a map of distinguished points shared by several workers,
finds a collision of the walk; the collision is the proof of work, and a linear congruence turns it
into the private key. Two pallets steer the chain around it: one retargets the difficulty, which is
the bit length of the next key, from the last 60 timestamps, and one pays a reward that follows a
schedule of block numbers.

The model follows this in Dafny:

- `NumberTheory.dfy`, `Orbits.dfy`: congruences, extended Euclid, modular inverses, Euclid's lemma,
  Fermat's little theorem, the pigeonhole principle, rho-shaped orbits.
- `Bytes.dfy`, `Congruence.dfy`: the helpers of `utils.rs`.
- `Walk.dfy`, `Threshold.dfy`, `Verifier.dfy`: the step of the walk and its invariant, the
  distinguished-point threshold, `derive`, `verify` and `key_gen`.
- `Floyd.dfy`, `Polling.dfy`, `Solver.dfy`: what the search computes, the stop flag, and the two
  single-worker searches as loops over a header they update in place.
- `Parallel.dfy`, `ParallelSafety.dfy`, `ParallelCompleteness.dfy`, `ParallelRace.dfy`: the parallel
  search as a state machine with one transition per atomic step, the properties of all its runs, what
  it can miss, and the runs that go wrong.
- `Mining.dfy`: the keychain, building a seal, verifying a seal.
- `Constants.dfy`, `Retarget.dfy`, `DifficultyPallet.dfy`: the retarget arithmetic and the pallet
  object with its buffer.
- `RewardsPallet.dfy`: the rewards pallet object and its schedule over a run.

blake3 enters as total functions of its inputs: of (difficulty, pre-hash, nonce) for the header, of a
digit string for a point. The random generator is a total function of (range, seed, draw) whose value
is reduced into the range. Key generation is a function of (bit length, seed) about which only this is
assumed, where it is needed at all: the modulus is prime and below 2^256, g and h are nonzero residues,
the bit length is the requested one, and the seed a key yields fits a U256. The flag may be changed by
the rest of the node before every load.

Where the code departs from what its names or comments suggest, the model follows the code, and the
exact extent of the departure is stated:

- The fallback of the congruence solver divides `a2 - a2`, so it always answers 0. `SolverCorrectIff`
  says when an answer is a solution, `SolvableIff` when there is one, `SolverFallbackWrong` gives an
  input on which they differ, and `KeyGenOutcome` says what this means for the recovered key.
- The flag is tested and raised in two steps under a shared read lock, and the nonce and the result
  are written under separate locks. `CoherenceIff` says exactly when nonce and pair fit together,
  `MixedSealRejected` gives, for every key, a complete run in which they do not.
- The lookup and the insertion of a point are separate steps too. `MissedIff` says exactly when a search
  that ends without success has missed a collision because of it.
- The `else` that restarts a worker under the read guard belongs to the lookup of a key that has just
  been found; `RestartUnderGuardIsDead` shows that it never runs.
- The retarget admits difficulty 224, the keychain ends at 223: `TopDifficultyReached`,
  `KeyForDifficulty`.
- The verifier compares solutions as they are spelled, with n and with unreduced exponents, and does not
  ask for more than one distinguished point. `AcceptedIff` says exactly what it accepts. `OnePointAccepted`
  and `HalfShiftAccepted` are pairs that need no search. What separates pairs that are worth a key is
  the residue modulo (p - 1) / 2: `RecoveryBoundary`, and for pairs from a search `OutcomeRecovers` and
  `PublishedRecovers`. The searches exclude spellings modulo p - 1, not pairs that agree modulo (p - 1) / 2.
- `key_gen` trusts the n of the second solution. `RecoveryModulusIff` says exactly which n are good,
  `AcceptedWithWrongKey` is an accepted collision with a bad one.
- `on_initialize` of the rewards pallet removes applied changes from copies of the map. `CleanIff` says
  exactly when the stored map is as it was meant to be, `AnnouncementsRepeat` and `EventsOutnumber`
  which events are deposited again because of it, `PruningPaysTheSame` that removing the changes would
  alter no reward and no payment. The repository's own test `curve_works` expects the map to be empty at
  the end; the code does not do that.
- The target block time is documented in milliseconds but used in seconds; the model uses seconds.

## Model

| member | source | states |
|---|---|---|
| NumberTheory.Fermat | consensus/trex-pow/src/lib.rs:166-175 | a^(p-1) = 1 (mod p) for every prime p and every a it does not divide: why exponents of a generated key may be reduced modulo p - 1 |
| NumberTheory.Invert | consensus/trex-pow/src/utils.rs:64-66 | an inverse exists exactly for coprime arguments, lies in [0, m), and is an inverse |
| Bytes.DigitCount | consensus/trex-pow/src/utils.rs:31-34 | a number has at most k little-endian byte digits exactly when it is below 256^k, zero having none |
| Bytes.U256RoundTrip | consensus/trex-pow/src/utils.rs:31-41 | exactly the integers below 2^256 convert to U256, and they come back unchanged |
| Bytes.U256RoundTripBack | consensus/trex-pow/src/utils.rs:31-41 | every U256 survives the conversion to an integer and back |
| Congruence.SolverNone | consensus/trex-pow/src/utils.rs:53-84 | no answer exactly when b1 = b2 (mod n); in particular the inversion of the fallback never fails |
| Congruence.SolverInvertible | consensus/trex-pow/src/utils.rs:64-69 | with b1 - b2 invertible, the answer is the unique k in [0, n) with k(b1 - b2) = a2 - a1 (mod n) |
| Congruence.SolverFallback | consensus/trex-pow/src/utils.rs:70-82 | otherwise the answer is 0 |
| Congruence.SolverCorrectIff | consensus/trex-pow/src/utils.rs:53-84 | an answer solves the congruence exactly when b1 - b2 is invertible or a1 = a2 (mod n) |
| Congruence.SolvableIff | consensus/trex-pow/src/utils.rs:53-84 | the congruence has a solution exactly when gcd(b1 - b2, n) divides a2 - a1 |
| Congruence.SolverFallbackWrong | consensus/trex-pow/src/utils.rs:71-78 | an input with a solution on which the fallback answers a non-solution |
| Congruence.PrimeModulusInvertible | consensus/trex-pow/src/utils.rs:70-82 | for a prime modulus the fallback is dead code |
| Walk.PrimeKeyIsSound | consensus/trex-pow/src/lib.rs:166-175 | generated keys satisfy g^(p-1) = h^(p-1) = 1 (mod p) |
| Walk.StepCases | consensus/trex-pow/src/algorithm.rs:19-78 | what a step does in each case of the header hash of (difficulty, pre-hash, work) modulo p: the work to the power x and both exponents times x; or the work times g^x and a plus x; or the work times h^x and b plus x; modulo p and p - 1; the work becomes the nonce |
| Walk.StartIs | consensus/trex-pow/src/lib.rs:134-175 | a walk starts at g^a h^b for the first two draws a and b of the generator for the range n = (p - 1) / 2, with the nonce 1 |
| Walk.StepKeepsWalk | consensus/trex-pow/src/algorithm.rs:19-78 | every step, in all three cases of the hash, keeps work = g^a h^b mod p, 0 <= a, b < p - 1 and n = (p - 1) / 2 |
| Walk.WalkInvariant | consensus/trex-pow/src/algorithm.rs:62-79 | the same from every seed and after any number of steps |
| Walk.EqualWorksAbsorb | consensus/trex-pow/src/algorithm.rs:62-79 | walks with equal works keep equal works for ever, and with equal solutions equal solutions |
| Verifier.PointHashInput | consensus/trex-pow/src/hash.rs:37-42 | the point hash digests the shortest digits of the sum of the fifths of nonce, work, p, g and h, and nothing else |
| Threshold.EvenThreshold | consensus/trex-pow/src/algorithm.rs:335-342 | for every even bit length from 16 to 526 a hash passes exactly when its top bit_length / 2 - 8 bits are zero |
| Threshold.OddThreshold | consensus/trex-pow/src/algorithm.rs:335-342 | for every odd bit length from 19 to 527 exactly when three times the hash is below 2^(257 - shift) |
| Threshold.OverlongThreshold | consensus/trex-pow/src/algorithm.rs:335-342 | from 528 on the bits are shifted out of the word: every hash passes, except that at 529 only 0 and 1 do |
| Threshold.HashDiffIncreasing | consensus/trex-pow/src/algorithm.rs:335-342 | the factor is strictly increasing over all bit lengths from 16 to 527 at which it is defined |
| Threshold.PassesShorter | consensus/trex-pow/src/algorithm.rs:335-342 | a hash passing at a bit length up to 527 passes at every smaller one |
| Verifier.VerifyCollision | consensus/trex-pow/src/lib.rs:192-233 | a collision presented under the nonce of a distinguished state of the same key is accepted exactly when that state has the work of the collision |
| Verifier.AcceptedIff | consensus/trex-pow/src/lib.rs:192-233 | for every seal of a sound key: accepted exactly when a distinguished point is one header-hash step from the nonce and the pair either collides (two different representations of one element modulo p - 1, whether or not a search reached them) or agrees modulo p - 1 and is only spelled differently; comparing the exponents modulo p - 1 tells these two kinds apart |
| Verifier.CollideIff | consensus/trex-pow/src/lib.rs:181-203 | two solutions collide exactly when they stand for one element and differ modulo p - 1 |
| Verifier.OnePointAccepted | consensus/trex-pow/src/lib.rs:192-203 | a single distinguished point is accepted, paired with any other spelling of its solution |
| Verifier.OtherSpellings | consensus/trex-pow/src/lib.rs:192-203 | such spellings exist for every solution: another n, or an exponent plus a multiple of p - 1 |
| Verifier.HalfShiftAccepted | consensus/trex-pow/src/lib.rs:192-233 | and beyond spellings: for every prime key a single distinguished point is accepted with its solution shifted by (p - 1) / 2 in one or both exponents, a pair that collides and from which key_gen recovers nothing |
| Verifier.RecoveryBoundary | consensus/trex-pow/src/lib.rs:235-260 | with (p - 1) / 2 prime, two solutions of one element that carry it as n yield the private key exactly when they do not agree modulo (p - 1) / 2 in both exponents; if they agree, nothing |
| Verifier.AcceptedRightIff | consensus/trex-pow/src/lib.rs:192-260 | so an accepted pair is worth a key exactly if its exponents differ modulo (p - 1) / 2 |
| Verifier.CollisionCongruence | consensus/trex-pow/src/lib.rs:235-243 | a collision fixes the discrete logarithm of h by the congruence given to the solver, modulo the order of g |
| Verifier.KeyRecovery | consensus/trex-pow/src/lib.rs:235-260 | for every n with g^(2n) = 1 (mod p), so for n = (p - 1) / 2 and g of order n or 2n: from an invertible collision key_gen returns the private key, of the same p, g and bit length, with g^x = h (mod p); the choice between x and x + n is right |
| Verifier.RecoveryModulusIff | consensus/trex-pow/src/lib.rs:235-260 | these n are the only ones: a modulus n > 1 yields right keys for every invertible collision exactly when g^(2n) = 1 (mod p) |
| Verifier.KeyGenOutcome | consensus/trex-pow/src/lib.rs:235-260 | for every collision, whatever n > 0 it carries: no key exactly when b1 = b2 (mod n); a key from the fallback is right exactly when h is 1 or g^n; a key from the invertible branch is right if g^(2n) = 1 (mod p); the exponent is below 2n, and from n on only if the one n smaller is wrong |
| Verifier.AcceptedPairRecovery | consensus/trex-pow/src/lib.rs:192-260 | the same for every accepted pair; and if it carries n = (p - 1) / 2, as pairs from the walk do, every key from the invertible branch is right, every key at all if n is prime, and without a key the solutions agree modulo n |
| Verifier.AcceptedWithWrongKey | consensus/trex-pow/src/lib.rs:192-260 | an accepted collision that carries another n and yields a wrong key |
| Orbits.FloydMeeting | consensus/trex-pow/src/algorithm.rs:115-131 | i and 2i steps of an orbit meet for some i between 1 and tail + cycle |
| Floyd.WorksAreOrbit | consensus/trex-pow/src/algorithm.rs:62-79 | the works of a walk are the orbit of one function on [0, p) |
| Floyd.FloydMeetsWithinP | consensus/trex-pow/src/algorithm.rs:115-131 | the slow and the fast walk meet within p iterations |
| Floyd.PhaseOneMeets | consensus/trex-pow/src/algorithm.rs:115-131 | with r the floor square root of p: if tail + cycle <= 8 r, phase one ends at equal works within tail + cycle iterations |
| Floyd.PhaseOneExhausted | consensus/trex-pow/src/algorithm.rs:115-131 | if the walks do not meet within 8 r iterations, phase one makes exactly these |
| Floyd.OutcomeIs | consensus/trex-pow/src/algorithm.rs:110-151 | outcome and final nonce of a search from the two walks alone: i the first meeting or 8 r, j the first distinguished point after it or 8 r; which two solutions are returned, in which order, and when none is |
| Floyd.MeetingDecides | consensus/trex-pow/src/algorithm.rs:132-150 | after a meeting the works are equal at the first distinguished point, and the search succeeds exactly when the solutions differ there |
| Floyd.OutcomeAccepted | consensus/trex-pow/src/algorithm.rs:110-151 | a pair found by the search collides, is never two spellings, and is accepted by the verifier with the nonce the search leaves in the header |
| Floyd.OutcomeRecovers | consensus/trex-pow/src/lib.rs:235-260 | with (p - 1) / 2 prime, key_gen returns the private key for the found pair, exactly unless its exponents agree modulo (p - 1) / 2, when it returns nothing |
| Polling.PollsCount | consensus/trex-pow/src/algorithm.rs:172-181 | the flag is read in every iteration whose number is a positive multiple of the grain, and in every iteration if the grain is 0 |
| Solver.PollCountIs | consensus/trex-pow/src/algorithm.rs:160-227 | an uncancelled search makes the polls of i iterations and then of j, and one more at the distinguished point; none in phase two if it was given up |
| Solver.Transit | consensus/trex-pow/src/algorithm.rs:62-79 | the step, on a header updated in place |
| Solver.Solve | consensus/trex-pow/src/algorithm.rs:110-151 | the two loops compute exactly the outcome and the final nonce described by first meeting and first distinguished point; a found pair is a collision and accepted |
| Solver.FindMeeting | consensus/trex-pow/src/algorithm.rs:160-190 | the first loop of the cancellable search, with the number of polls made |
| Solver.AwaitPoint | consensus/trex-pow/src/algorithm.rs:191-227 | the second loop, with its polls and the last look at the flag before a pair is returned |
| Solver.SolveDist | consensus/trex-pow/src/algorithm.rs:153-228 | for every grain and every behaviour of the flag: either all polls (a fixed number) found the flag down and result and nonce are those of solve, or one found it up and nothing is returned; success raises the flag; undisturbed it is solve, in result, nonce and polls |
| Parallel.NextInv | consensus/trex-pow/src/algorithm.rs:255-323 | every atomic step of any worker, and every block import, keeps the protocol invariant |
| ParallelSafety.EntriesSound | consensus/trex-pow/src/algorithm.rs:300-303 | in every interleaving every map entry represents its key |
| ParallelSafety.WriteOnce | consensus/trex-pow/src/algorithm.rs:300-303 | entries are never changed or removed, the flag is never lowered during a search |
| ParallelSafety.MapFrozen | consensus/trex-pow/src/algorithm.rs:265-303 | while a worker holds the read guard nothing changes the map |
| ParallelSafety.PublishedIsCollision | consensus/trex-pow/src/algorithm.rs:265-288 | a published pair is two solutions of one work that differ modulo p - 1 and carry n = (p - 1) / 2, and the flag is up |
| ParallelSafety.PublishedRecovers | consensus/trex-pow/src/lib.rs:235-260 | the same key recovery for every published pair |
| ParallelSafety.CoherenceIff | consensus/trex-pow/src/algorithm.rs:265-288 | nonce and published pair are accepted together exactly when their last writers claimed the same work |
| ParallelSafety.SingleClaimantAccepted | consensus/trex-pow/src/algorithm.rs:329-332 | with exactly one worker past the found-check, what is published is accepted |
| ParallelSafety.ClaimsArePublished | consensus/trex-pow/src/algorithm.rs:276-288 | when all workers have stopped, a pair is present exactly if some worker passed the found-check; otherwise the nonce cell holds 1 |
| ParallelSafety.RestartUnderGuardIsDead | consensus/trex-pow/src/algorithm.rs:267-294 | the restart under the read guard never runs |
| ParallelSafety.StepsBounded | consensus/trex-pow/src/algorithm.rs:256-323 | the steps a worker has made and the measure of what it has left never exceed its budget |
| ParallelSafety.WorkerTermination | consensus/trex-pow/src/algorithm.rs:256-323 | with r the floor square root of p, every worker makes at most a fixed number of steps, is done when it has made them, and makes at most 88 r transits |
| ParallelSafety.WorkerPosition | consensus/trex-pow/src/algorithm.rs:254-323 | in every interleaving a worker in its pass j stands m steps along the walk from seed + (10 cpu mod 256) + j, m being the transits of this pass, every pass before having had 8 r |
| ParallelSafety.NeighboursOverlap | consensus/trex-pow/src/algorithm.rs:254-323 | the last pass of a worker retraces the first pass of the next one, for the first 25 workers |
| ParallelSafety.GivenUpAfter | consensus/trex-pow/src/algorithm.rs:315-323 | a worker that has stopped with the flag down has made exactly 88 r transits |
| ParallelSafety.WorkerPolls | consensus/trex-pow/src/algorithm.rs:305-313 | an iteration ends a worker exactly if the number of completed ones is a positive multiple of the grain (or the grain is 0) and the flag is up |
| ParallelSafety.LateClaims | consensus/trex-pow/src/algorithm.rs:272-276 | once the flag is up, only workers that had found it down before still claim |
| ParallelSafety.NoDeadlock | consensus/trex-pow/src/algorithm.rs:267-303 | some worker can move exactly as long as not all are done, so a run that cannot be extended has ended |
| ParallelRace.RaceMixes | consensus/trex-pow/src/algorithm.rs:273-287 | from any state with two workers before the found-check, the nonce of one can end up with the pair of the other |
| ParallelRace.MixedSealRejected | consensus/trex-pow/src/algorithm.rs:265-288 | for every prime key with p >= 11 and g other than 1 there are an oracle and a complete run with two claimants whose published collision the verifier rejects |
| ParallelRace.LateInsertLoses | consensus/trex-pow/src/algorithm.rs:265-303 | two workers that look up one work before either enters it lose the collision |
| ParallelCompleteness.FlagIff | consensus/trex-pow/src/algorithm.rs:273-277 | the flag is up exactly after an import or a claim |
| ParallelCompleteness.MissedIff | consensus/trex-pow/src/algorithm.rs:255-323 | in every run that ends with all workers done and the flag down, one work was reached with two solutions exactly if an insertion came late |
| Mining.WalkFits | consensus/trex-pow/src/lib.rs:147-161 | solutions and nonces of every state on the walk survive the U256 encodings |
| Mining.SeedPassedOn | consensus/trex-pow/src/lib.rs:79-90 | key i of the next keychain is generated for i + 48 bits from the number key i yields now, or from 0 if that does not fit the 16 bytes of keys below 128 bits |
| Mining.KeyForDifficulty | consensus/trex-pow/src/lib.rs:78-80 | after a retarget the difficulty is an index into the keychain unless it is 224 |
| Mining.SealAcceptedIff | consensus/trex-pow/src/lib.rs:349-390 | for every seal, from its raw fields: accepted exactly when its difficulty is the required one and the bit length of its key, and its solutions are accepted for the header of that difficulty and pre-hash; nothing undecodable is |
| Mining.OneDifficulty | consensus/trex-pow/src/lib.rs:361-374 | a seal passes at one difficulty only, and its key has that many bits |
| Mining.SealVerifies | consensus/trex-pow/src/lib.rs:349-390 | a seal built from a solved key is accepted for its header exactly when the key has the bit length of the difficulty and the solutions are accepted |
| Mining.TryCpuMining | consensus/trex-pow/src/lib.rs:64-115 | for every parent seal, seed and flag schedule and every difficulty 48 <= d < 224, a seal built by one worker is accepted for its header, holds the outcome and the final nonce of the search from the mining seed for the key of the parent's keychain at d - 48, and its seeds generate the next keychain from what this one yields; undisturbed, it is built exactly when that search succeeds, with the polls of grain 10000 |
| Mining.ParallelSeal | consensus/trex-pow/src/lib.rs:92-109 | the seal built after a parallel search is accepted exactly when the last writers claimed the same work, and always with a single claimant |
| Retarget.ClampMonotone | pallets/difficulty/src/lib.rs:20-23 | the verdict never rises as the window takes longer |
| Retarget.HourThresholds | pallets/difficulty/src/lib.rs:141-150 | with a target of 3600 s: raise exactly up to 3027 s, lower exactly from 4282 s on |
| Retarget.ClampOfRatio | pallets/difficulty/src/lib.rs:20-23 | for any target, only the ratio of target and measured time matters, and exchanging them reverses the verdict |
| DifficultyPallet.VerdictIs | pallets/difficulty/src/lib.rs:100-141 | for any target block time: sixty times it against the whole seconds from stamp to stamp, at least one |
| Retarget.WindowBounds | pallets/difficulty/src/lib.rs:122-135 | E / 1000 - 59 < m <= E / 1000 for a window of non-decreasing timestamps |
| Retarget.RaisedForEverySplit | pallets/difficulty/src/lib.rs:122-150 | for timestamps any gap up to 3000 ms apart: raised however the elapsed time is split over the window, exactly below 3028000 ms |
| Retarget.KeptForEverySplit | pallets/difficulty/src/lib.rs:122-150 | kept however it is split, exactly from 3085942 to 4281999 ms |
| Retarget.LoweredForEverySplit | pallets/difficulty/src/lib.rs:122-150 | lowered however it is split, exactly from 4339942 ms on |
| Retarget.AdjustedBounds | pallets/difficulty/src/lib.rs:144-158 | the result is in [48, 224], moves by at most one, and moves with the verdict except at the ends |
| DifficultyPallet.PlainDrift | pallets/difficulty/src/lib.rs:97-176 | over any history the difficulty stays in range after the first window and moves by at most one per window |
| DifficultyPallet.SteadyCourse | pallets/difficulty/src/lib.rs:97-176 | over any history whose windows all get one verdict, the difficulty moves a step per window to the end of its range |
| DifficultyPallet.CourseOfTime | pallets/difficulty/src/lib.rs:97-176 | windows all below 3028000 ms drive the difficulty to min(initial + windows, 224), all from 4339942 ms on to max(initial - windows, 48), all in 3085942..4281999 ms keep it |
| DifficultyPallet.TopDifficultyReached | pallets/difficulty/src/lib.rs:144-158 | a chain at the runtime's minimum period reaches 224 and stays |
| DifficultyPallet.Pallet.OnTimestampSet | pallets/difficulty/src/lib.rs:97-176 | buffer and pointer refine the plain history (the panic is unreachable); at a retarget the buffer is the last 60 stamps in order, all recorded with the difficulty in force, which is adjusted by their verdict |
| DifficultyPallet.Pallet.GetAvgBlocktime | pallets/difficulty/src/lib.rs:181-198 | a sixtieth of the same window sum; right after a retarget, of the last window; in between, for timestamps that do not fall, of the seconds of the open window and of what is left of the one before, the seam counting as nothing and empty slots as the target |
| DifficultyPallet.SeamSumIs | pallets/difficulty/src/lib.rs:181-198 | that sum, from the buffer, for every history |
| RewardsPallet.ChangeIsLastVisited | pallets/rewards/src/lib.rs:147-156 | applying the changes of a range in key order leaves that of the greatest key |
| RewardsPallet.FromIterHolds | pallets/rewards/src/lib.rs:181 | of several changes for one block the last one given counts |
| RewardsPallet.PayableIff | pallets/rewards/src/lib.rs:183-186 | a schedule is too low exactly if its base reward or the counting change of some block is below the minimum balance |
| RewardsPallet.Pallet.OnInitialize | pallets/rewards/src/lib.rs:126-164 | the loops have the effect of one lookup; the author in the digest is stored; the stored map is unchanged; the events announce every change visited |
| RewardsPallet.ChangesAnnounced | pallets/rewards/src/lib.rs:147-156 | a block begun announces the reward of every change up to it, in block order, after the events there were |
| RewardsPallet.Pallet.SetSchedule | pallets/rewards/src/lib.rs:174-195 | the error cases, without effect, and the effect of an accepted schedule |
| RewardsPallet.Pallet.OnFinalize | pallets/rewards/src/lib.rs:116-123 | the author is paid the stored reward and forgotten |
| RewardsPallet.RewardIsDue | pallets/rewards/src/lib.rs:116-195 | over every run with rising blocks the stored reward is the one due under the latest accepted schedule |
| RewardsPallet.RewardAfterInitialize | pallets/rewards/src/lib.rs:144-156 | after on_initialize(now): the change at the greatest key <= now of the latest schedule, else its base reward |
| RewardsPallet.DepositsAreDue | pallets/rewards/src/lib.rs:116-123 | every deposit of a run is the reward due |
| RewardsPallet.PaymentsAreMade | pallets/rewards/src/lib.rs:116-142 | over every rising run, from the calls alone: the stored author is the one last named in the open block, and the deposits are exactly one per block ended with an author, to that author, of the reward due |
| RewardsPallet.AuthorOfIff | pallets/rewards/src/lib.rs:127-142 | that author is the digest of the last call that names or forgets one |
| RewardsPallet.PruningPaysTheSame | pallets/rewards/src/lib.rs:158-160 | over every rising run, removing applied changes alters no reward, author or payment, and leaves exactly the changes not yet due |
| RewardsPallet.CleanIff | pallets/rewards/src/lib.rs:158-160 | over every rising run that ends by beginning block now: the stored map holds no change up to now exactly when the latest schedule holds none |
| RewardsPallet.AnnouncementsRepeat | pallets/rewards/src/lib.rs:144-161 | every block announces again all changes already announced under the schedule, and then the fresh ones, which alone would be announced with pruning |
| RewardsPallet.EventsOutnumber | pallets/rewards/src/lib.rs:144-161 | over every rising run the events outnumber those with pruning by the repetitions, and are the same exactly when there is none |
| RewardsPallet.NeverPruned | pallets/rewards/src/lib.rs:158-160 | a run on which both show: the change stays in the stored map and is announced twice |

## Left out

- TryCpuMining: models the single-worker branch (no or at most one CPU); for more CPUs the search is the state machine, and ParallelSeal is about the seal built from its end state.
- SolveDist: the two loops of the source's one function are the methods FindMeeting and AwaitPoint.
- Parallel.NextInv: the workers are a state machine on values, one transition per atomic step, not threads over a heap; the flag is accessed with `Ordering::Relaxed` (consensus/trex-pow/src/algorithm.rs:273-277), while the model interleaves whole steps in one sequentially consistent order; a poisoned lock and a panicking thread are not modelled.
- WorkerTermination: counts steps in any interleaving; it does not assume or prove a fair scheduler.
- MixedSealRejected: the oracle of the run hashes every header to 1 and every point to 0; nothing is claimed about how likely such a run is under blake3.
- TopDifficultyReached: the minimum period is enforced by `pallet_timestamp`, which is not part of this model; the retarget lemmas hold for every gap up to it.
- HashDiffIncreasing: bit lengths below 16, and 17, where an unsigned subtraction of the source underflows, are outside the model; from 528 on the factor is no longer increasing (OverlongThreshold).
- OnTimestampSet: a difficulty of 0, or of 2^128 - 1 and more, before a retarget is outside the model, because the source's arithmetic overflows there.
- ClampMonotone: the rounding error of the f32 logarithm is not modelled; the sign of round(2 log2(T / m)) is taken exactly, as T^4 >= 2 m^4 or m^4 >= 2 T^4.
- Verify: keys with p < 3 or p >= 2^256 are outside the model; the source panics on p < 3 and cannot encode p >= 2^256.
- LocalSeed: the product of bytes wraps as in a release build; a debug build panics from 27 CPUs on.
- The internals of blake3, of the random generator, of `rug` and `U256` arithmetic, and of ElGamal key generation.
- `bigint_h256` and `get_local_seed`, which nothing in the mining path uses.
- The fixed-difficulty algorithm `MinTREXAlgo`, which is the same verification without the two difficulty tests.
- SCALE decoding: a seal is given decoded or as undecodable.
- The node service around mining, telemetry, RPC, genesis wiring, weights, and the template pallets.
- Expected running times and probabilities of finding a collision.
