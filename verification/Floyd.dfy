/** Floyd's cycle finding on the walk: when the slow and the fast walk meet, and what the two
    phases of the single-worker search amount to. */
module Floyd {
  import opened Wrappers
  import opened NumberTheory
  import opened Bytes
  import opened Walk
  import opened Verifier
  import opened Orbits

  const SEARCH_LEN_FACTOR: nat := 8

  /** The bound of either phase. */
  function SearchLength(p: nat): (n: nat)
    ensures p > 0 ==> n >= SEARCH_LEN_FACTOR
  {
    Isqrt(p) * SEARCH_LEN_FACTOR
  }

  /** After i iterations the slow walk (i steps) and the fast walk (2i steps) have equal works. */
  predicate Meets(job: Job, s: State, i: nat)
    requires Ready(s)
  {
    Iter(job, s, i).work == Iter(job, s, 2 * i).work
  }

  // ---------- the two walks do meet ----------

  /** The next work depends on the current work alone. */
  function NextWork(job: Job, key: PublicKey): (f: nat -> nat)
    requires UsableKey(key)
    ensures forall y: nat :: f(y) < key.p
  {
    (y: nat) => if y < key.p then FuncF(key, HashInteger(job, y) % key.p, y) else 0
  }

  /** So the works form one orbit. */
  lemma {:induction false} WorksAreOrbit(job: Job, s: State, i: nat)
    requires Ready(s)
    ensures Iter(job, s, i).work == Orbit(NextWork(job, s.pubkey), s.work, i)
  {
    if i != 0 {
      WorksAreOrbit(job, s, i - 1);
      StepIsStepped(job, Iter(job, s, i - 1));
    }
  }

  /** The works below p repeat: a tail and a cycle of together at most p steps. */
  lemma WorksRepeat(job: Job, s: State) returns (tail: nat, cycle: nat)
    requires Ready(s)
    ensures cycle >= 1 && tail + cycle <= s.pubkey.p
    ensures Iter(job, s, tail).work == Iter(job, s, tail + cycle).work
  {
    hide Step, FuncF;
    tail, cycle := RhoShape(NextWork(job, s.pubkey), s.work, s.pubkey.p);
    WorksAreOrbit(job, s, tail);
    WorksAreOrbit(job, s, tail + cycle);
  }

  /** Whatever tail and cycle the works have, the walks meet within tail + cycle iterations. */
  lemma FloydMeets(job: Job, s: State, tail: nat, cycle: nat) returns (i: nat)
    requires Ready(s) && cycle >= 1 && Iter(job, s, tail).work == Iter(job, s, tail + cycle).work
    ensures 1 <= i <= tail + cycle && Meets(job, s, i)
  {
    hide Step, FuncF;
    WorksAreOrbit(job, s, tail);
    WorksAreOrbit(job, s, tail + cycle);
    i := FloydMeeting(NextWork(job, s.pubkey), s.work, tail, cycle);
    WorksAreOrbit(job, s, i);
    WorksAreOrbit(job, s, 2 * i);
  }

  /** The walks meet within p iterations. */
  lemma FloydMeetsWithinP(job: Job, s: State)
    requires Ready(s)
    ensures exists i: nat :: 1 <= i <= s.pubkey.p && Meets(job, s, i)
  {
    var tail, cycle := WorksRepeat(job, s);
    var i := FloydMeets(job, s, tail, cycle);
  }

  // ---------- what the search computes ----------

  /** The least k in i .. n at which the walks meet; n when there is none. */
  function FirstMeeting(job: Job, s: State, i: nat, n: nat): (k: nat)
    requires Ready(s) && i <= n
    ensures i <= k <= n
    ensures forall l | i <= l < k :: !Meets(job, s, l)
    ensures k < n ==> Meets(job, s, k)
    decreases n - i
  {
    if i == n || Meets(job, s, i) then i else FirstMeeting(job, s, i + 1, n)
  }

  /** The least k in i .. n for which k steps from s lead to a distinguished point. */
  function FirstPoint(job: Job, s: State, i: nat, n: nat): (k: Option<nat>)
    requires Ready(s) && i <= n + 1
    ensures k.Some? ==> i <= k.value <= n && Distinguished(job.oracle, Iter(job, s, k.value))
    ensures forall l | i <= l < (if k.Some? then k.value else n + 1) ::
              !Distinguished(job.oracle, Iter(job, s, l))
    decreases n + 1 - i
  {
    if i == n + 1 then None
    else if Distinguished(job.oracle, Iter(job, s, i)) then Some(i)
    else FirstPoint(job, s, i + 1, n)
  }

  /** Phase one ends after this many iterations. */
  function PhaseOneEnd(job: Job, s: State): (k: nat)
    requires Ready(s)
    ensures 1 <= k <= SearchLength(s.pubkey.p)
  {
    FirstMeeting(job, s, 1, SearchLength(s.pubkey.p))
  }

  /** Phase one ends in a meeting of two equal states, and the search is given up. */
  predicate Trivial(job: Job, s: State)
    requires Ready(s)
  {
    var k := PhaseOneEnd(job, s);
    Meets(job, s, k) && Iter(job, s, k).solution == Iter(job, s, 2 * k).solution
  }

  /** The distinguished point that ends phase two, counted in iterations of phase two. */
  function PhaseTwoEnd(job: Job, s: State): (k: Option<nat>)
    requires Ready(s)
    ensures k.Some? ==> 1 <= k.value <= SearchLength(s.pubkey.p)
  {
    FirstPoint(job, Iter(job, s, PhaseOneEnd(job, s)), 1, SearchLength(s.pubkey.p))
  }

  /** The two states compared at the distinguished point. */
  function FinalStates(job: Job, s: State, k: nat): (State, State)
    requires Ready(s)
  {
    (Iter(job, Iter(job, s, PhaseOneEnd(job, s)), k), Iter(job, Iter(job, s, 2 * PhaseOneEnd(job, s)), k))
  }

  /** The steps taken by the slow walk. */
  function StepsTaken(job: Job, s: State): (k: nat)
    requires Ready(s)
  {
    PhaseOneEnd(job, s)
    + (if Trivial(job, s) then 0
       else match PhaseTwoEnd(job, s)
            case None => SearchLength(s.pubkey.p)
            case Some(k) => k)
  }

  /** The nonce the search leaves in the header. */
  function FinalNonce(job: Job, s: State): nat
    requires Ready(s)
  {
    Iter(job, s, StepsTaken(job, s)).nonce
  }

  /** The pair found by the search, if any. */
  function Outcome(job: Job, s: State): (r: Option<Solutions>)
    requires Ready(s)
  {
    if Trivial(job, s) || PhaseTwoEnd(job, s).None? then None
    else
      var (t, u) := FinalStates(job, s, PhaseTwoEnd(job, s).value);
      if t.work == u.work && t.solution != u.solution then Some((t.solution, u.solution)) else None
  }

  lemma IterRenamed(job: Job, s: State, t: State, k: nat, j: nat)
    requires Ready(s) && t == Iter(job, s, k)
    ensures Iter(job, s, k + j) == Iter(job, t, j)
  {
    hide Step;
    IterAdd(job, s, k, j);
  }

  /** The first distinguished point is at j, or there is none up to the bound j. */
  lemma FirstPointIs(job: Job, t: State, j: nat, n: nat)
    requires Ready(t) && 1 <= j <= n
    requires forall l | 1 <= l < j :: !Distinguished(job.oracle, Iter(job, t, l))
    requires j < n ==> Distinguished(job.oracle, Iter(job, t, j))
    ensures FirstPoint(job, t, 1, n) == if Distinguished(job.oracle, Iter(job, t, j)) then Some(j) else None
  {
    hide Distinguished, Step, Iter;
  }

  /** Phase one is over after k iterations: the walks met for the first time, or k is the bound.
      If they met in equal states, so is the search. */
  lemma PhaseOneIs(job: Job, s: State, k: nat)
    requires Ready(s) && 1 <= k <= SearchLength(s.pubkey.p)
    requires forall l | 1 <= l < k :: !Meets(job, s, l)
    requires k < SearchLength(s.pubkey.p) ==> Meets(job, s, k)
    ensures PhaseOneEnd(job, s) == k
    ensures Trivial(job, s) <==> Meets(job, s, k) && Iter(job, s, k).solution == Iter(job, s, 2 * k).solution
    ensures Trivial(job, s) ==> Outcome(job, s) == None && FinalNonce(job, s) == Iter(job, s, k).nonce
  {
    hide Meets, Step, Iter;
  }

  /** Phase two is over after j iterations from (t, u), at a distinguished point or at the bound. */
  lemma PhaseTwoIs(job: Job, s: State, t: State, u: State, j: nat)
    requires Ready(s) && !Trivial(job, s) && 1 <= j <= SearchLength(s.pubkey.p)
    requires t == Iter(job, s, PhaseOneEnd(job, s)) && u == Iter(job, s, 2 * PhaseOneEnd(job, s))
    requires forall l | 1 <= l < j :: !Distinguished(job.oracle, Iter(job, t, l))
    requires j < SearchLength(s.pubkey.p) ==> Distinguished(job.oracle, Iter(job, t, j))
    ensures var v, w := Iter(job, t, j), Iter(job, u, j);
            Outcome(job, s) == if Distinguished(job.oracle, v) && v.work == w.work && v.solution != w.solution
                               then Some((v.solution, w.solution)) else None
    ensures FinalNonce(job, s) == Iter(job, t, j).nonce
  {
    hide Distinguished, Step, Iter, PhaseOneEnd, Trivial, FirstPoint;
    FirstPointIs(job, t, j, SearchLength(s.pubkey.p));
    IterRenamed(job, s, t, PhaseOneEnd(job, s), j);
  }

  /** The bound of a phase is eight times the floor square root of p. */
  lemma SearchLengthIs(p: nat, r: nat)
    requires r * r <= p < (r + 1) * (r + 1)
    ensures SearchLength(p) == 8 * r
  {
    var q := Isqrt(p);
    if q < r { SquaresApart(q, r); } else if r < q { SquaresApart(r, q); }
  }

  lemma SquaresApart(q: nat, r: nat)
    requires q < r
    ensures (q + 1) * (q + 1) <= r * r
  {
    var d := r - q - 1;
    assert r * r == (q + 1) * (q + 1) + 2 * (d * (q + 1)) + d * d by { assert r == (q + 1) + d; }
    assert d * (q + 1) >= 0 && d * d >= 0;
  }

  /** If the tail and the cycle fit the bound, phase one ends in a meeting, not by exhaustion. */
  lemma PhaseOneMeets(job: Job, s: State, r: nat, tail: nat, cycle: nat)
    requires Ready(s) && cycle >= 1 && Iter(job, s, tail).work == Iter(job, s, tail + cycle).work
    requires r * r <= s.pubkey.p < (r + 1) * (r + 1) && tail + cycle <= 8 * r
    ensures var k := PhaseOneEnd(job, s);
            1 <= k <= tail + cycle && Iter(job, s, k).work == Iter(job, s, 2 * k).work
  {
    hide Step, Distinguished, Iter;
    SearchLengthIs(s.pubkey.p, r);
    var i := FloydMeets(job, s, tail, cycle);
  }

  /** Without a meeting within the bound, phase one runs for all of it. */
  lemma PhaseOneExhausted(job: Job, s: State, r: nat)
    requires Ready(s) && r * r <= s.pubkey.p < (r + 1) * (r + 1)
    requires forall l: nat | 1 <= l <= 8 * r :: Iter(job, s, l).work != Iter(job, s, 2 * l).work
    ensures PhaseOneEnd(job, s) == 8 * r
  {
    hide Step, Distinguished, Iter;
    SearchLengthIs(s.pubkey.p, r);
  }

  /** Iteration i ends phase one: it is the first in which the walks meet, or the last there is. */
  predicate EndsPhaseOne(job: Job, s: State, r: nat, i: nat)
    requires Ready(s)
  {
    && 1 <= i <= 8 * r
    && (forall l: nat | 1 <= l < i :: Iter(job, s, l).work != Iter(job, s, 2 * l).work)
    && (i < 8 * r ==> Iter(job, s, i).work == Iter(job, s, 2 * i).work)
  }

  /** Iteration j ends phase two after i iterations of phase one: it is the first that takes the slow
      walk to a distinguished point, or the last there is. */
  predicate EndsPhaseTwo(job: Job, s: State, r: nat, i: nat, j: nat)
    requires Ready(s)
  {
    && 1 <= j <= 8 * r
    && (forall l: nat | i < l < i + j :: !Distinguished(job.oracle, Iter(job, s, l)))
    && (j < 8 * r ==> Distinguished(job.oracle, Iter(job, s, i + j)))
  }

  /** What the search computes, from the two walks alone. If they first meet in one and the same state,
      nothing. Otherwise the two solutions, the slow walk's first, that are compared after i and j
      iterations, provided the point is distinguished, the works agree and the solutions differ. The
      nonce is that of the slow walk where it stopped. */
  lemma OutcomeIs(job: Job, s: State, r: nat, i: nat, j: nat)
    requires Ready(s) && r * r <= s.pubkey.p < (r + 1) * (r + 1)
    requires EndsPhaseOne(job, s, r, i) && EndsPhaseTwo(job, s, r, i, j)
    ensures var t, u := Iter(job, s, i), Iter(job, s, 2 * i);
            var v, w := Iter(job, s, i + j), Iter(job, s, 2 * i + j);
            if t.work == u.work && t.solution == u.solution then
              Outcome(job, s) == None && FinalNonce(job, s) == t.nonce
            else
              && Outcome(job, s) == (if Distinguished(job.oracle, v) && v.work == w.work && v.solution != w.solution
                                     then Some((v.solution, w.solution)) else None)
              && FinalNonce(job, s) == v.nonce
  {
    hide Step, Distinguished, Iter, PhaseOneEnd, Outcome, FinalNonce;
    SearchLengthIs(s.pubkey.p, r);
    PhaseOneIs(job, s, i);
    var t, u := Iter(job, s, i), Iter(job, s, 2 * i);
    if !(t.work == u.work && t.solution == u.solution) {
      forall l: nat | 1 <= l <= j ensures Iter(job, t, l) == Iter(job, s, i + l) { IterRenamed(job, s, t, i, l); }
      IterRenamed(job, s, u, 2 * i, j);
      PhaseTwoIs(job, s, t, u, j);
    }
  }

  /** After a meeting the works stay equal through phase two, so the first distinguished point
      alone decides: the search succeeds exactly when the solutions still differ there. */
  lemma MeetingDecides(job: Job, s: State)
    requires Ready(s) && Meets(job, s, PhaseOneEnd(job, s)) && PhaseTwoEnd(job, s).Some?
    ensures var (t, u) := FinalStates(job, s, PhaseTwoEnd(job, s).value);
            && t.work == u.work
            && (Outcome(job, s).Some? <==> t.solution != u.solution)
  {
    var k, j := PhaseOneEnd(job, s), PhaseTwoEnd(job, s).value;
    EqualWorksAbsorb(job, Iter(job, s, k), Iter(job, s, 2 * k), j);
  }

  /** The compared states are both on the walk, and the slow one is its state after all steps. */
  lemma FinalStatesOnWalk(job: Job, s: State, j: nat)
    requires SoundKey(s.pubkey) && OnWalk(s) && j >= 1
    ensures var (t, u) := FinalStates(job, s, j);
            OnWalk(t) && OnWalk(u) && Stepped(job, t)
  {
    var k := PhaseOneEnd(job, s);
    IterKeepsWalk(job, s, k);
    IterKeepsWalk(job, s, 2 * k);
    IterKeepsWalk(job, Iter(job, s, k), j);
    IterKeepsWalk(job, Iter(job, s, 2 * k), j);
    StepIsStepped(job, Iter(job, Iter(job, s, k), j - 1));
  }

  lemma CollisionAccepted(job: Job, t: State, u: State)
    requires UsableKey(t.pubkey) && t.pubkey == u.pubkey && Stepped(job, t)
    requires Distinguished(job.oracle, t)
    requires OnWalk(t) && OnWalk(u) && t.work == u.work && t.solution != u.solution
    ensures Verify(job, t.pubkey, (t.solution, u.solution), t.nonce)
    ensures Collide(t.pubkey, t.solution, u.solution)
  {
    hide Collide, SameExponents, Derive;
    VerifyCollision(job, t, t, u);
    WalkPairCollides(t, u);
  }

  /** What a successful search has in hand. */
  lemma OutcomeShape(job: Job, s: State) returns (t: State, u: State)
    requires Ready(s) && Outcome(job, s).Some?
    ensures PhaseTwoEnd(job, s).Some? && (t, u) == FinalStates(job, s, PhaseTwoEnd(job, s).value)
    ensures Outcome(job, s) == Some((t.solution, u.solution)) && t.work == u.work && t.solution != u.solution
    ensures t.pubkey == u.pubkey == s.pubkey
    ensures Distinguished(job.oracle, t)
    ensures FinalNonce(job, s) == t.nonce
  {
    hide Step, Distinguished;
    var j := PhaseTwoEnd(job, s).value;
    var p := FinalStates(job, s, j);
    t, u := p.0, p.1;
    IterAdd(job, s, PhaseOneEnd(job, s), j);
    assert StepsTaken(job, s) == PhaseOneEnd(job, s) + j;
  }

  /** A pair found by the search is a collision, not two spellings of one solution, and the verifier
      accepts it with the nonce the search leaves behind. */
  lemma OutcomeAccepted(job: Job, s: State)
    requires SoundKey(s.pubkey) && OnWalk(s) && Outcome(job, s).Some?
    ensures FinalNonce(job, s) < TWO_256
    ensures Verify(job, s.pubkey, Outcome(job, s).value, FinalNonce(job, s))
    ensures Collide(s.pubkey, Outcome(job, s).value.0, Outcome(job, s).value.1)
  {
    hide Collide, Verify;
    var t, u := OutcomeShape(job, s);
    FinalStatesOnWalk(job, s, PhaseTwoEnd(job, s).value);
    CollisionAccepted(job, t, u);
  }

  /** What a successful search is for: with (p - 1) / 2 prime, the found pair yields the private key,
      unless its exponents agree modulo (p - 1) / 2. */
  lemma OutcomeRecovers(job: Job, s: State, z: nat)
    requires SoundKey(s.pubkey) && OnWalk(s) && Outcome(job, s).Some?
    requires RecoverableKey(s.pubkey, z) && IsPrime((s.pubkey.p - 1) / 2)
    ensures KeyUnlessAgree(s.pubkey, Outcome(job, s).value)
  {
    hide Verify, Distinguished, Step, RecoverableKey, KeyUnlessAgree, Derive, IsPrime;
    var t, u := OutcomeShape(job, s);
    FinalStatesOnWalk(job, s, PhaseTwoEnd(job, s).value);
    RecoveryBoundary(s.pubkey, (t.solution, u.solution), z);
  }
}
