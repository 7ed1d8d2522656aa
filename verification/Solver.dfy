/** The single-worker search, in place: Floyd's cycle finding followed by the walk to the next
    distinguished point, plain (`solve`) and with a shared stop flag (`solve_dist`). */
module Solver {
  import opened Wrappers
  import opened Bytes
  import opened Walk
  import opened Verifier
  import opened Floyd
  import opened Polling

  /** The header under work (`Blake3Compute`): only its nonce changes. */
  class Compute {
    const job: Job
    var nonce: u256

    constructor (job: Job, nonce: u256)
      ensures this.job == job && this.nonce == nonce
    {
      this.job := job;
      this.nonce := nonce;
    }

    method SetNonce(value: nat)
      requires |ToDigits(value)| <= 32
      modifies this
      ensures nonce == value
    {
      nonce := BigintU256(value);
    }

    function HashInteger(): nat
      reads this
    {
      Walk.HashInteger(job, nonce)
    }
  }

  /** `transit`: the work becomes the nonce of the header, whose hash drives the step. */
  method Transit(s: State, compute: Compute) returns (t: State)
    requires Ready(s)
    modifies compute
    ensures t == Step(compute.job, s)
    ensures compute.nonce == t.nonce == s.work
  {
    U256RoundTrip(s.work);
    compute.SetNonce(s.work);
    var x := compute.HashInteger() % s.pubkey.p;
    t := State(
      Solution(FuncG(s.pubkey, s.solution.a, x), FuncH(s.pubkey, s.solution.b, x), s.solution.n),
      s.work,
      FuncF(s.pubkey, x, s.work),
      s.pubkey);
  }

  lemma IterNext(job: Job, s: State, i: nat)
    requires Ready(s)
    ensures Iter(job, s, 0) == s && Iter(job, s, i + 1) == Step(job, Iter(job, s, i))
  {
    hide Step;
  }

  lemma IterTwo(job: Job, s: State, i: nat)
    requires Ready(s)
    ensures Iter(job, s, 0) == s && Iter(job, s, i + 1) == Step(job, Iter(job, s, i))
    ensures Iter(job, s, 2 * (i + 1)) == Step(job, Step(job, Iter(job, s, 2 * i)))
  {
    hide Step, Iter;
    IterNext(job, s, i);
    IterNext(job, s, 2 * i);
    IterNext(job, s, 2 * i + 1);
  }

  /** `solve`. */
  method Solve(key: PublicKey, compute: Compute, seed: nat) returns (r: Option<Solutions>)
    requires UsableKey(key)
    modifies compute
    ensures r == Outcome(compute.job, FromPubKey(compute.job.oracle, key, seed))
    ensures compute.nonce == FinalNonce(compute.job, FromPubKey(compute.job.oracle, key, seed))
    ensures SoundKey(key) && r.Some? ==>
              Verify(compute.job, key, r.value, compute.nonce) && Collide(key, r.value.0, r.value.1)
  {
    hide Step, Iter, Distinguished, Verify, Collide, SoundKey, FromPubKey, OnWalk;
    hide Outcome, FinalNonce, Trivial, PhaseOneEnd;
    var job := compute.job;
    var start := FromPubKey(job.oracle, key, seed);
    StartOnWalk(job.oracle, key, seed);
    Acceptance(job, start);
    var state1, state2 := start, start;
    var compute2 := new Compute(job, compute.nonce);
    var n := SearchLength(key.p);
    var i := 0;
    IterTwo(job, start, 0);
    while i < n
      invariant 0 <= i <= n
      invariant state1 == Iter(job, start, i) && state2 == Iter(job, start, 2 * i)
      invariant forall l | 1 <= l <= i :: !Meets(job, start, l)
      invariant i > 0 ==> compute.nonce == state1.nonce
    {
      IterTwo(job, start, i);
      state1 := Transit(state1, compute);
      state2 := Transit(state2, compute2);
      state2 := Transit(state2, compute2);
      if state1.work == state2.work {
        PhaseOneIs(job, start, i + 1);
        if state1.solution != state2.solution {
          break;
        }
        return None;
      }
      i := i + 1;
    }
    if i == n { PhaseOneIs(job, start, n); }
    ghost var base1, base2 := state1, state2;
    i := 0;
    IterNext(job, base1, 0);
    IterNext(job, base2, 0);
    while i < n
      invariant 0 <= i <= n
      invariant state1 == Iter(job, base1, i) && state2 == Iter(job, base2, i)
      invariant forall l | 1 <= l <= i :: !Distinguished(job.oracle, Iter(job, base1, l))
      invariant compute.nonce == state1.nonce
    {
      IterNext(job, base1, i);
      IterNext(job, base2, i);
      state1 := Transit(state1, compute);
      state2 := Transit(state2, compute2);
      if Distinguished(job.oracle, state1) {
        PhaseTwoIs(job, start, base1, base2, i + 1);
        if state1.work == state2.work && state1.solution != state2.solution {
          return Some((state1.solution, state2.solution));
        }
        return None;
      }
      i := i + 1;
    }
    PhaseTwoIs(job, start, base1, base2, n);
    return None;
  }

  // ---------- the cancellable search ----------

  /** How often an uncancelled phase two reads the flag: at its polls, and once more at the
      distinguished point that ends it. */
  function PhaseTwoPolls(job: Job, s: State, grain: nat): nat
    requires Ready(s)
  {
    match PhaseTwoEnd(job, s)
    case None => Polls(SearchLength(s.pubkey.p), grain)
    case Some(k) => Polls(k, grain) + 1
  }

  /** How often an uncancelled search reads the flag. */
  function PollCount(job: Job, s: State, grain: nat): nat
    requires Ready(s)
  {
    Polls(PhaseOneEnd(job, s), grain) + if Trivial(job, s) then 0 else PhaseTwoPolls(job, s, grain)
  }

  /** Phase two over after j iterations has made their polls, and one more at a distinguished point. */
  lemma PollsAtEnd(job: Job, start: State, base: State, j: nat, grain: nat)
    requires Ready(start) && base == Iter(job, start, PhaseOneEnd(job, start))
    requires 1 <= j <= SearchLength(start.pubkey.p)
    requires forall l | 1 <= l < j :: !Distinguished(job.oracle, Iter(job, base, l))
    requires j < SearchLength(start.pubkey.p) ==> Distinguished(job.oracle, Iter(job, base, j))
    ensures PhaseTwoPolls(job, start, grain)
            == Polls(j, grain) + if Distinguished(job.oracle, Iter(job, base, j)) then 1 else 0
  {
    hide Distinguished, Iter, PhaseOneEnd, Polls, FirstPoint;
    FirstPointIs(job, base, j, SearchLength(start.pubkey.p));
  }

  /** That is: once in every polling iteration of either phase, and once more at the distinguished point
      that ends the search. A search given up after phase one makes the polls of phase one. */
  lemma PollCountIs(job: Job, s: State, grain: nat, r: nat, i: nat, j: nat)
    requires Ready(s) && r * r <= s.pubkey.p < (r + 1) * (r + 1)
    requires EndsPhaseOne(job, s, r, i) && EndsPhaseTwo(job, s, r, i, j)
    ensures var t, u := Iter(job, s, i), Iter(job, s, 2 * i);
            PollCount(job, s, grain)
            == |PollingIterations(i, grain)|
               + if t.work == u.work && t.solution == u.solution then 0
                 else |PollingIterations(j, grain)| + if Distinguished(job.oracle, Iter(job, s, i + j)) then 1 else 0
  {
    hide Step, Distinguished, Iter, PhaseOneEnd, Polls, PhaseTwoPolls;
    SearchLengthIs(s.pubkey.p, r);
    PhaseOneIs(job, s, i);
    PollsCount(i, grain);
    PollsCount(j, grain);
    var t, u := Iter(job, s, i), Iter(job, s, 2 * i);
    if !(t.work == u.work && t.solution == u.solution) {
      forall l: nat | 1 <= l <= j ensures Iter(job, t, l) == Iter(job, s, i + l) { IterRenamed(job, s, t, i, l); }
      PollsAtEnd(job, s, t, j, grain);
    }
  }

  /** The flag was read k < polls times and found down, then read once more and found up. */
  ghost predicate Cancelled(before: seq<bool>, loads: seq<bool>, polls: nat) {
    exists k: nat :: k < polls && loads == before + Down(k) + [true]
  }

  lemma CancelledAt(before: seq<bool>, k: nat, polls: nat)
    requires k < polls
    ensures Cancelled(before, before + Down(k) + [true], polls)
  {
  }

  datatype Verdict = Dropped | GivenUp | Proceed

  /** The first loop of `solve_dist`. */
  method FindMeeting(job: Job, start: State, compute: Compute, compute2: Compute, grain: nat, flag: SharedFlag)
    returns (verdict: Verdict, state1: State, state2: State)
    requires Ready(start) && compute.job == compute2.job == job && compute != compute2
    modifies compute, compute2, flag
    ensures verdict.Dropped? ==>
              Cancelled(old(flag.loads), flag.loads, Polls(PhaseOneEnd(job, start), grain))
    ensures !verdict.Dropped? ==>
              && state1 == Iter(job, start, PhaseOneEnd(job, start))
              && state2 == Iter(job, start, 2 * PhaseOneEnd(job, start))
              && compute.nonce == state1.nonce
              && flag.loads == old(flag.loads) + Down(Polls(PhaseOneEnd(job, start), grain))
              && (verdict.GivenUp? <==> Trivial(job, start))
    ensures Undisturbed(flag.env) && !old(flag.raised) ==> !verdict.Dropped? && !flag.raised
  {
    hide Step, Iter, Distinguished, Outcome, FinalNonce, PhaseOneEnd, Trivial, Polls, CounterAt;
    hide Down, Cancelled;
    DownMore(flag.loads, 0);
    assert Polls(0, grain) == 0 && CounterAt(0, grain) == 0 by { Start(grain); }
    IterTwo(job, start, 0);
    state1, state2 := start, start;
    var n := SearchLength(start.pubkey.p);
    var i, counter := 0, 0;
    while i < n
      invariant 0 <= i <= n
      invariant state1 == Iter(job, start, i) && state2 == Iter(job, start, 2 * i)
      invariant forall l | 1 <= l <= i :: !Meets(job, start, l)
      invariant i > 0 ==> compute.nonce == state1.nonce
      invariant counter == CounterAt(i, grain)
      invariant flag.loads == old(flag.loads) + Down(Polls(i, grain))
      invariant Undisturbed(flag.env) && !old(flag.raised) ==> !flag.raised
    {
      IterTwo(job, start, i);
      PollStep(i, grain);
      ghost var k := Polls(i, grain);
      state1 := Transit(state1, compute);
      state2 := Transit(state2, compute2);
      state2 := Transit(state2, compute2);
      if counter >= grain {
        var found := flag.Load();
        if found {
          NotYetMet(job, start, i, grain);
          CancelledAt(old(flag.loads), k, Polls(PhaseOneEnd(job, start), grain));
          return Dropped, state1, state2;
        }
        DownMore(old(flag.loads), k);
        counter := 0;
      }
      if state1.work == state2.work {
        PhaseOneIs(job, start, i + 1);
        return if state1.solution != state2.solution then Proceed else GivenUp, state1, state2;
      }
      i := i + 1;
      counter := counter + 1;
    }
    PhaseOneIs(job, start, n);
    return Proceed, state1, state2;
  }

  lemma Start(grain: nat)
    ensures Polls(0, grain) == 0 && CounterAt(0, grain) == 0
  {
  }

  /** Iteration i + 1 is still one of phase one, so its poll is among those counted. */
  lemma NotYetMet(job: Job, start: State, i: nat, grain: nat)
    requires Ready(start) && i < SearchLength(start.pubkey.p) && CounterAt(i, grain) >= grain
    requires forall l | 1 <= l <= i :: !Meets(job, start, l)
    ensures Polls(i, grain) < Polls(PhaseOneEnd(job, start), grain)
  {
    PollStep(i, grain);
    PollsMonotone(i + 1, PhaseOneEnd(job, start), grain);
  }

  /** Likewise for phase two. */
  lemma NotYetDistinguished(job: Job, start: State, i: nat, grain: nat)
    requires Ready(start) && i < SearchLength(start.pubkey.p) && CounterAt(i, grain) >= grain
    requires forall l | 1 <= l <= i ::
               !Distinguished(job.oracle, Iter(job, Iter(job, start, PhaseOneEnd(job, start)), l))
    ensures Polls(i, grain) < PhaseTwoPolls(job, start, grain)
  {
    hide Distinguished, Iter, PhaseOneEnd, Polls, CounterAt;
    PollStep(i, grain);
    PollsMonotone(i + 1, if PhaseTwoEnd(job, start).Some? then PhaseTwoEnd(job, start).value
                         else SearchLength(start.pubkey.p), grain);
  }

  /** The second loop of `solve_dist`. */
  method AwaitPoint(job: Job, start: State, base1: State, base2: State,
                    compute: Compute, compute2: Compute, grain: nat, flag: SharedFlag)
    returns (dropped: bool, r: Option<Solutions>)
    requires Ready(start) && !Trivial(job, start)
    requires compute.job == compute2.job == job && compute != compute2 && compute.nonce == base1.nonce
    requires base1 == Iter(job, start, PhaseOneEnd(job, start))
    requires base2 == Iter(job, start, 2 * PhaseOneEnd(job, start))
    modifies compute, compute2, flag
    ensures dropped ==> r == None
                        && Cancelled(old(flag.loads), flag.loads, PhaseTwoPolls(job, start, grain))
    ensures !dropped ==>
              && r == Outcome(job, start) && compute.nonce == FinalNonce(job, start)
              && flag.loads == old(flag.loads) + Down(PhaseTwoPolls(job, start, grain))
    ensures r.Some? ==> flag.raised
    ensures Undisturbed(flag.env) && !old(flag.raised) ==> !dropped
  {
    hide Step, Iter, Distinguished, Outcome, FinalNonce, PhaseOneEnd, PhaseTwoPolls, Trivial, Polls, CounterAt;
    hide Down, Cancelled;
    DownMore(flag.loads, 0);
    assert Polls(0, grain) == 0 && CounterAt(0, grain) == 0 by { Start(grain); }
    IterNext(job, base1, 0);
    IterNext(job, base2, 0);
    var state1, state2 := base1, base2;
    var n := SearchLength(start.pubkey.p);
    var i, counter := 0, 0;
    while i < n
      invariant 0 <= i <= n
      invariant state1 == Iter(job, base1, i) && state2 == Iter(job, base2, i)
      invariant forall l | 1 <= l <= i :: !Distinguished(job.oracle, Iter(job, base1, l))
      invariant compute.nonce == state1.nonce
      invariant counter == CounterAt(i, grain)
      invariant flag.loads == old(flag.loads) + Down(Polls(i, grain))
      invariant Undisturbed(flag.env) && !old(flag.raised) ==> !flag.raised
    {
      PollStep(i, grain);
      IterNext(job, base1, i);
      IterNext(job, base2, i);
      ghost var k := Polls(i, grain);
      state1 := Transit(state1, compute);
      state2 := Transit(state2, compute2);
      if counter >= grain {
        var found := flag.Load();
        if found {
          NotYetDistinguished(job, start, i, grain);
          CancelledAt(old(flag.loads), k, PhaseTwoPolls(job, start, grain));
          return true, None;
        }
        DownMore(old(flag.loads), k);
        counter := 0;
      }
      if Distinguished(job.oracle, state1) {
        PhaseTwoIs(job, start, base1, base2, i + 1);
        PollsAtEnd(job, start, base1, i + 1, grain);
        DownMore(old(flag.loads), Polls(i + 1, grain));
        var found := flag.Load();
        if found {
          CancelledAt(old(flag.loads), Polls(i + 1, grain), PhaseTwoPolls(job, start, grain));
          return true, None;
        }
        if state1.work == state2.work && state1.solution != state2.solution {
          flag.Store(true);
          return false, Some((state1.solution, state2.solution));
        }
        return false, None;
      }
      i := i + 1;
      counter := counter + 1;
    }
    PhaseTwoIs(job, start, base1, base2, n);
    PollsAtEnd(job, start, base1, n, grain);
    return false, None;
  }

  /** `solve_dist`: either every poll found the flag down, and this is `solve`; or one found it up,
      and the search was dropped there. */
  method SolveDist(key: PublicKey, compute: Compute, seed: nat, grain: nat, flag: SharedFlag)
    returns (r: Option<Solutions>)
    requires UsableKey(key)
    modifies compute, flag
    ensures var start := FromPubKey(compute.job.oracle, key, seed);
            var polls := PollCount(compute.job, start, grain);
            || (&& r == Outcome(compute.job, start) && compute.nonce == FinalNonce(compute.job, start)
                && flag.loads == old(flag.loads) + Down(polls))
            || (r == None && Cancelled(old(flag.loads), flag.loads, polls))
    ensures r.Some? ==> flag.raised
    ensures Undisturbed(flag.env) && !old(flag.raised) ==>
              var start := FromPubKey(compute.job.oracle, key, seed);
              && r == Outcome(compute.job, start) && compute.nonce == FinalNonce(compute.job, start)
              && flag.loads == old(flag.loads) + Down(PollCount(compute.job, start, grain))
    ensures SoundKey(key) && r.Some? ==>
              Verify(compute.job, key, r.value, compute.nonce) && Collide(key, r.value.0, r.value.1)
  {
    hide Step, Distinguished, Verify, Collide, SoundKey, FromPubKey, OnWalk;
    hide Outcome, FinalNonce, PhaseOneEnd, Trivial, PhaseTwoPolls;
    var job := compute.job;
    var start := FromPubKey(job.oracle, key, seed);
    StartOnWalk(job.oracle, key, seed);
    Acceptance(job, start);
    var compute2 := new Compute(job, compute.nonce);
    var verdict, state1, state2 := FindMeeting(job, start, compute, compute2, grain, flag);
    ghost var polls1 := Polls(PhaseOneEnd(job, start), grain);
    match verdict {
      case Dropped =>
        r := None;
      case GivenUp =>
        PhaseOneIsTrivial(job, start);
        r := None;
      case Proceed =>
        ghost var between := flag.loads;
        var dropped;
        dropped, r := AwaitPoint(job, start, state1, state2, compute, compute2, grain, flag);
        LoadsAdd(old(flag.loads), between, flag.loads, polls1, PhaseTwoPolls(job, start, grain));
    }
  }

  lemma PhaseOneIsTrivial(job: Job, s: State)
    requires Ready(s) && Trivial(job, s)
    ensures Outcome(job, s) == None && FinalNonce(job, s) == Iter(job, s, PhaseOneEnd(job, s)).nonce
  {
    PhaseOneIs(job, s, PhaseOneEnd(job, s));
  }

  /** The loads of the two phases add up. */
  lemma LoadsAdd(before: seq<bool>, between: seq<bool>, after: seq<bool>, k: nat, l: nat)
    requires between == before + Down(k)
    ensures after == between + Down(l) ==> after == before + Down(k + l)
    ensures Cancelled(between, after, l) ==> Cancelled(before, after, k + l)
  {
    DownSum(k, l);
    if m: nat :| m < l && after == between + Down(m) + [true] {
      DownSum(k, m);
      assert after == before + Down(k + m) + [true];
    }
  }

  /** A pair found from an initial state is an accepted collision, for a sound key. */
  lemma Acceptance(job: Job, s: State)
    requires Ready(s)
    ensures SoundKey(s.pubkey) && OnWalk(s) && Outcome(job, s).Some?
            ==> FinalNonce(job, s) < TWO_256
                && Verify(job, s.pubkey, Outcome(job, s).value, FinalNonce(job, s))
                && Collide(s.pubkey, Outcome(job, s).value.0, Outcome(job, s).value.1)
  {
    hide Collide, Verify, OnWalk, Outcome, FinalNonce;
    if SoundKey(s.pubkey) && OnWalk(s) && Outcome(job, s).Some? { OutcomeAccepted(job, s); }
  }
}
