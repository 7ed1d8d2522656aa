/** What every interleaving of the parallel search guarantees: sound and write-once map entries,
    genuine published collisions, the exact condition under which the nonce and the pair fit
    together, and termination of every worker. */
module ParallelSafety {
  import opened NumberTheory
  import opened Bytes
  import opened Walk
  import opened Verifier
  import opened Floyd
  import opened Parallel
  import opened Polling

  ghost predicate Reachable(c: Config, run: seq<System>, es: seq<Event>) {
    SoundKey(c.key) && IsRun(c, run, es) && run[0] == Init(c)
  }

  // ---------- safety ----------

  /** Every entry of the map is a representation of its key. */
  lemma EntriesSound(c: Config, run: seq<System>, es: seq<Event>, k: nat, work: nat)
    requires Reachable(c, run, es) && k <= |es| && work in run[k].cells.collisions
    ensures Derive(c.key, run[k].cells.collisions[work]) == work
  {
    RunInv(c, run, es, k);
  }

  /** Entries are never changed or removed, and the flag is never lowered. */
  lemma {:induction false} WriteOnce(c: Config, run: seq<System>, es: seq<Event>, k: nat, l: nat, work: nat)
    requires IsRun(c, run, es) && k <= l <= |es|
    ensures run[k].cells.flag ==> run[l].cells.flag
    ensures work in run[k].cells.collisions ==>
              work in run[l].cells.collisions
              && run[l].cells.collisions[work] == run[k].cells.collisions[work]
  {
    hide Act;
    if k < l {
      WriteOnce(c, run, es, k, l - 1, work);
      if es[l - 1].Run? {
        var s, cpu := run[l - 1], es[l - 1].cpu;
        ActMonotone(c, s.cells, cpu, s.workers[cpu]);
      }
    }
  }

  /** While a worker is between finding its work in the map and leaving the critical section, no step of
      any worker and no import changes the map. */
  lemma MapFrozen(c: Config, s: System, e: Event, v: nat)
    requires AllUsable(c, s) && Enabled(s, e) && v < |s.workers|
    requires s.workers[v].pc in {Get, CheckFlag, RaiseFlag, PutNonce, PutPair}
    ensures Next(c, s, e).cells.collisions == s.cells.collisions
  {
    hide Step, FromPubKey, Distinguished;
    assert s.workers[v] in s.workers;
  }

  /** A published pair is a collision, two different solutions deriving the same work, and the flag is
      up. */
  lemma PublishedIsCollision(c: Config, run: seq<System>, es: seq<Event>, k: nat)
    requires Reachable(c, run, es) && k <= |es| && run[k].cells.pair.Some?
    ensures var (s, t) := run[k].cells.pair.value;
            && run[k].cells.flag && s != t && Derive(c.key, s) == Derive(c.key, t) && Collide(c.key, s, t)
            && s.n == t.n == (c.key.p - 1) / 2
  {
    hide Collide;
    RunInv(c, run, es, k);
    var v := run[k].workers[run[k].cells.pairBy.value];
    assert WorkerInv(c, run[k].cells, v);
    WalkPairCollides(v.state, State(v.mate.value, 0, v.state.work, c.key));
  }

  /** With (p - 1) / 2 prime, a published pair yields the private key, unless its exponents agree modulo
      (p - 1) / 2. */
  lemma PublishedRecovers(c: Config, run: seq<System>, es: seq<Event>, k: nat, z: nat)
    requires Reachable(c, run, es) && k <= |es| && run[k].cells.pair.Some?
    requires RecoverableKey(c.key, z) && IsPrime((c.key.p - 1) / 2)
    ensures KeyUnlessAgree(c.key, run[k].cells.pair.value)
  {
    hide KeyUnlessAgree, Derive, IsPrime, RecoverableKey, Init, Next, Enabled, Collide;
    PublishedIsCollision(c, run, es, k);
    RecoveryBoundary(c.key, run[k].cells.pair.value, z);
  }

  /** The nonce cell and the published pair fit together, so that the verifier accepts them, exactly
      when the last writer of the one and the last writer of the other claimed the same work. */
  lemma CoherenceIff(c: Config, run: seq<System>, es: seq<Event>, k: nat)
    requires Reachable(c, run, es) && k <= |es| && run[k].cells.pair.Some?
    ensures var s := run[k];
            && s.cells.nonceBy.Some? && s.cells.pairBy.Some?
            && s.cells.nonceBy.value < |s.workers| && s.cells.pairBy.value < |s.workers|
            && s.cells.nonce < TWO_256
            && (Verify(c.job, c.key, s.cells.pair.value, s.cells.nonce)
                <==> s.workers[s.cells.nonceBy.value].state.work == s.workers[s.cells.pairBy.value].state.work)
  {
    RunInv(c, run, es, k);
    var s := run[k];
    var at, w := s.workers[s.cells.nonceBy.value], s.workers[s.cells.pairBy.value];
    assert WorkerInv(c, s.cells, at) && WorkerInv(c, s.cells, w);
    VerifyCollision(c.job, at.state, w.state, State(w.mate.value, 0, w.state.work, c.key));
  }

  /** With a single claimant whatever is published is accepted. */
  lemma SingleClaimantAccepted(c: Config, run: seq<System>, es: seq<Event>, k: nat)
    requires Reachable(c, run, es) && k <= |es|
    requires run[k].cells.pair.Some? && |run[k].cells.claimants| == 1
    ensures run[k].cells.nonce < TWO_256
    ensures Verify(c.job, c.key, run[k].cells.pair.value, run[k].cells.nonce)
  {
    RunInv(c, run, es, k);
    CoherenceIff(c, run, es, k);
    var g := run[k].cells;
    var v, w := g.nonceBy.value, g.pairBy.value;
    assert g.claimants - {v} == {} by { assert |g.claimants - {v}| == 0; }
    assert w in g.claimants;
  }

  /** Once all workers have stopped, a claim has been published, and only a claim; without one the nonce
      cell still holds 1. */
  lemma ClaimsArePublished(c: Config, run: seq<System>, es: seq<Event>, k: nat)
    requires Reachable(c, run, es) && k <= |es| && AllDone(run[k])
    ensures run[k].cells.pair.Some? <==> run[k].cells.claimants != {}
    ensures run[k].cells.claimants == {} ==> run[k].cells.nonce == 1
  {
    RunInv(c, run, es, k);
    var s := run[k];
    if v :| v in s.cells.claimants { assert s.workers[v] in s.workers; }
  }

  /** The branch that restarts a search under the read guard never runs. */
  lemma RestartUnderGuardIsDead(c: Config, run: seq<System>, es: seq<Event>, k: nat, w: Worker)
    requires Reachable(c, run, es) && k <= |es| && w in run[k].workers && w.pc.Get?
    ensures w.state.work in run[k].cells.collisions
  {
    RunInv(c, run, es, k);
  }

  // ---------- termination ----------

  function Rank(pc: Pc): nat {
    match pc
    case Walking => 9
    case Look => 8
    case Get => 7
    case CheckFlag => 6
    case RaiseFlag => 5
    case PutNonce => 4
    case PutPair => 3
    case Insert => 2
    case Poll => 1
    case Done => 0
  }

  /** What is left to do: first the tries, then the iterations, then the steps of an iteration. */
  function Left(n: nat, w: Worker): nat
    requires w.j <= MAX_TRY && w.i <= n
  {
    if w.pc.Done? then 0 else ((MAX_TRY - w.j) * (n + 1) + (n - w.i)) * 10 + Rank(w.pc)
  }

  /** The measure of a worker that has not started. */
  function Budget(n: nat): nat {
    (MAX_TRY * (n + 1) + n) * 10 + 9
  }

  /** Steps of the walk taken, from the position in the loops. */
  predicate TransitsCounted(n: nat, w: Worker) {
    && w.transits <= (w.j + 1) * n
    && (!w.pc.Done? ==> w.transits == w.j * n + w.i + if w.pc.Walking? then 0 else 1)
  }

  lemma WalkDecreases(c: Config, w: Worker)
    requires Usable(c, w) && w.pc.Walking? && w.j <= MAX_TRY && w.i <= Bound(c) && TransitsCounted(Bound(c), w)
    ensures var n, v := Bound(c), Walked(c, w);
            v.j <= MAX_TRY && v.i <= n && Left(n, v) < Left(n, w) && TransitsCounted(n, v)
  {
    hide Step, FromPubKey, Distinguished, SearchLength;
    var n := Bound(c);
    NextPass(w.j, n);
    if w.i >= n && w.j < MAX_TRY { NextPass(w.j + 1, n); }
  }

  lemma PollDecreases(w: Worker, flag: bool, grain: nat, n: nat)
    requires w.pc.Poll? && w.j <= MAX_TRY && w.i < n && TransitsCounted(n, w)
    ensures var v := Polled(w, flag, grain);
            v.j <= MAX_TRY && v.i <= n && Left(n, v) < Left(n, w) && TransitsCounted(n, v)
  {
    NextPass(w.j, n);
  }

  lemma NextPass(j: nat, n: nat)
    requires j <= MAX_TRY
    ensures (j + 1) * n == j * n + n
    ensures j < MAX_TRY ==> (MAX_TRY - j) * (n + 1) == (MAX_TRY - (j + 1)) * (n + 1) + (n + 1)
    ensures (MAX_TRY - j) * (n + 1) >= 0
  {
  }

  /** Every step of a worker uses up some of what is left, and counts its transits. */
  lemma ActDecreases(c: Config, g: Cells, cpu: nat, w: Worker)
    requires WorkerInv(c, g, w) && !w.pc.Done? && TransitsCounted(Bound(c), w)
    ensures var n, v := Bound(c), Act(c, g, cpu, w).1;
            v.j <= MAX_TRY && v.i <= n && Left(n, v) < Left(n, w) && TransitsCounted(n, v)
  {
    hide OnWalk, Step, FromPubKey, Distinguished, Stepped, Walked, Polled, Left, TransitsCounted;
    if w.pc.Walking? {
      WalkDecreases(c, w);
    } else if w.pc.Poll? {
      PollDecreases(w, g.flag, c.grain, Bound(c));
    } else {
      SamePosition(w, Act(c, g, cpu, w).1, Bound(c));
    }
  }

  /** Within an iteration the position stays and the rank falls. */
  lemma SamePosition(w: Worker, v: Worker, n: nat)
    requires w.j == v.j <= MAX_TRY && w.i == v.i < n && w.transits == v.transits
    requires !w.pc.Walking? && !v.pc.Walking? && Rank(v.pc) < Rank(w.pc) && TransitsCounted(n, w)
    ensures Left(n, v) < Left(n, w) && TransitsCounted(n, v)
  {
    NextPass(w.j, n);
  }

  /** The steps of one worker in a run. */
  function StepsOf(cpu: nat, es: seq<Event>): nat {
    if es == [] then 0 else StepsOf(cpu, es[..|es| - 1]) + if es[|es| - 1] == Run(cpu) then 1 else 0
  }

  lemma NextWorker(c: Config, s: System, e: Event, cpu: nat)
    requires AllUsable(c, s) && Enabled(s, e) && cpu < |s.workers|
    ensures var w := s.workers[cpu];
            Next(c, s, e).workers[cpu] == if e == Run(cpu) then Act(c, s.cells, cpu, w).1 else w
    ensures e == Run(cpu) ==> !s.workers[cpu].pc.Done?
  {
    hide Act;
  }

  lemma StepsSnoc(cpu: nat, es: seq<Event>, k: nat)
    requires 0 < k <= |es|
    ensures StepsOf(cpu, es[..k]) == StepsOf(cpu, es[..k - 1]) + if es[k - 1] == Run(cpu) then 1 else 0
  {
    assert es[..k][..k - 1] == es[..k - 1];
  }

  /** In every interleaving: a worker's steps and what it has left never exceed its budget, and its
      transits follow its position. */
  lemma {:induction false} StepsBounded(c: Config, run: seq<System>, es: seq<Event>, k: nat, cpu: nat)
    requires Reachable(c, run, es) && k <= |es| && cpu < c.cpus
    ensures |run[k].workers| == c.cpus
    ensures var w := run[k].workers[cpu];
            && w.j <= MAX_TRY && w.i <= Bound(c)
            && StepsOf(cpu, es[..k]) + Left(Bound(c), w) <= Budget(Bound(c))
            && TransitsCounted(Bound(c), w)
  {
    hide Act, Left, TransitsCounted, Next, Enabled, StepsOf, Budget, CellsInv, HistoryInv, SoundKey;
    if k == 0 {
      InitialLeft(c, cpu);
    } else {
      StepsBounded(c, run, es, k - 1, cpu);
      RunInv(c, run, es, k - 1);
      StepsSnoc(cpu, es, k);
      var s := run[k - 1];
      assert s.workers[cpu] in s.workers;
      NextWorker(c, s, es[k - 1], cpu);
      if es[k - 1] == Run(cpu) {
        ActDecreases(c, s.cells, cpu, s.workers[cpu]);
      }
    }
  }

  lemma InitialLeft(c: Config, cpu: nat)
    requires UsableKey(c.key) && cpu < c.cpus
    ensures var w := Init(c).workers[cpu];
            w.j == 0 && w.i == 0 && Left(Bound(c), w) == Budget(Bound(c)) && TransitsCounted(Bound(c), w)
    ensures StepsOf(cpu, []) == 0
  {
  }

  /** Every worker stops. With r the floor square root of p, it makes at most Budget steps and at most 11
      passes of 8 r transits, and one that has made Budget steps is done. */
  lemma WorkerTermination(c: Config, run: seq<System>, es: seq<Event>, cpu: nat, r: nat)
    requires Reachable(c, run, es) && cpu < c.cpus && r * r <= c.key.p < (r + 1) * (r + 1)
    ensures |run[|es|].workers| == c.cpus
    ensures var w := run[|es|].workers[cpu];
            && StepsOf(cpu, es) <= Budget(8 * r)
            && (StepsOf(cpu, es) == Budget(8 * r) ==> w.pc.Done?)
            && w.transits <= 88 * r
  {
    hide Left, StepsOf, Budget, SoundKey, Next, Enabled;
    SearchLengthIs(c.key.p, r);
    StepsBounded(c, run, es, |es|, cpu);
    assert es[..|es|] == es;
    var w := run[|es|].workers[cpu];
    PassBound(w.j, Bound(c));
    if Left(Bound(c), w) == 0 { NothingLeft(w, Bound(c)); }
  }

  lemma NothingLeft(w: Worker, n: nat)
    requires w.j <= MAX_TRY && w.i <= n && Left(n, w) == 0
    ensures w.pc.Done?
  {
    NextPass(w.j, n);
  }

  lemma PassBound(j: nat, n: nat)
    requires j <= MAX_TRY
    ensures (j + 1) * n <= (MAX_TRY + 1) * n
  {
    assert (MAX_TRY + 1) * n == (j + 1) * n + (MAX_TRY - j) * n;
  }

  // ---------- where a worker stands ----------

  /** Completed iterations: a transit is counted before its iteration is over. */
  function Completed(w: Worker): int {
    w.transits - if w.pc.Walking? then 0 else 1
  }

  /** In its pass j a worker walks from the start of the seed plus the offset of its number plus j, and
      has made the transits of this pass. Its counter is that of its completed iterations. */
  predicate AtPosition(c: Config, cpu: nat, w: Worker)
    requires UsableKey(c.key)
  {
    && w.seed == c.seed + (10 * cpu) % 256 && w.transits >= w.j * Bound(c)
    && w.state == Iter(c.job, FromPubKey(c.job.oracle, c.key, w.seed + w.j), w.transits - w.j * Bound(c))
    && (!w.pc.Done? ==> Completed(w) >= 0 && w.counter == CounterAt(Completed(w), c.grain))
  }

  lemma WalkPosition(c: Config, cpu: nat, w: Worker)
    requires Usable(c, w) && w.pc.Walking? && w.j <= MAX_TRY && w.i <= Bound(c)
    requires TransitsCounted(Bound(c), w) && AtPosition(c, cpu, w)
    ensures AtPosition(c, cpu, Walked(c, w))
  {
    hide Step, FromPubKey, Distinguished, SearchLength, CounterAt;
    NextPass(w.j, Bound(c));
  }

  lemma ActPosition(c: Config, g: Cells, cpu: nat, w: Worker)
    requires WorkerInv(c, g, w) && !w.pc.Done?
    requires TransitsCounted(Bound(c), w) && AtPosition(c, cpu, w)
    ensures AtPosition(c, cpu, Act(c, g, cpu, w).1)
  {
    hide Iter, OnWalk, Step, FromPubKey, Distinguished, Stepped, Walked, TransitsCounted, SearchLength, CounterAt;
    if w.pc.Walking? {
      WalkPosition(c, cpu, w);
    } else if w.pc.Poll? {
      PollStep(Completed(w), c.grain);
    }
  }

  lemma StartPosition(c: Config, cpu: nat)
    requires UsableKey(c.key) && cpu < c.cpus
    ensures AtPosition(c, cpu, Init(c).workers[cpu])
  {
    hide FromPubKey, SearchLength;
    assert 0 * Bound(c) == 0;
  }

  lemma {:induction false} Positions(c: Config, run: seq<System>, es: seq<Event>, k: nat, cpu: nat)
    requires Reachable(c, run, es) && k <= |es| && cpu < c.cpus
    ensures |run[k].workers| == c.cpus && AtPosition(c, cpu, run[k].workers[cpu])
  {
    hide Act, TransitsCounted, Next, Enabled, Budget, Left, StepsOf, CellsInv, HistoryInv, AtPosition;
    StepsBounded(c, run, es, k, cpu);
    if k == 0 {
      StartPosition(c, cpu);
    } else {
      Positions(c, run, es, k - 1, cpu);
      StepsBounded(c, run, es, k - 1, cpu);
      RunInv(c, run, es, k - 1);
      var s := run[k - 1];
      assert s.workers[cpu] in s.workers;
      NextWorker(c, s, es[k - 1], cpu);
      if es[k - 1] == Run(cpu) {
        ActPosition(c, s.cells, cpu, s.workers[cpu]);
      }
    }
  }

  /** In every interleaving, after any number of events: a worker in its pass j has come m steps along
      the walk from the seed of the search plus its offset plus j, where m counts the transits of this
      pass, all passes before having had 8 r of them. */
  lemma WorkerPosition(c: Config, run: seq<System>, es: seq<Event>, k: nat, cpu: nat, r: nat)
    requires Reachable(c, run, es) && k <= |es| && cpu < c.cpus && r * r <= c.key.p < (r + 1) * (r + 1)
    ensures |run[k].workers| == c.cpus
    ensures var w := run[k].workers[cpu];
            var m := w.transits - w.j * (8 * r);
            && w.j <= 10 && 0 <= m <= 8 * r
            && w.state == Iter(c.job, FromPubKey(c.job.oracle, c.key, c.seed + (10 * cpu) % 256 + w.j), m)
  {
    hide Iter, FromPubKey, Next, Enabled, StepsOf, Left, Budget, CounterAt;
    SearchLengthIs(c.key.p, r);
    Positions(c, run, es, k, cpu);
    StepsBounded(c, run, es, k, cpu);
    NextPass(run[k].workers[cpu].j, 8 * r);
  }

  /** The seeds of neighbouring workers overlap: worker cpu in its last pass retraces the first pass of
      worker cpu + 1, as long as the offset does not wrap. */
  lemma NeighboursOverlap(c: Config, run: seq<System>, es: seq<Event>, k: nat, l: nat, cpu: nat, r: nat)
    requires Reachable(c, run, es) && k <= |es| && l <= |es| && cpu + 1 < c.cpus && cpu < 25
    requires r * r <= c.key.p < (r + 1) * (r + 1)
    ensures |run[k].workers| == c.cpus && |run[l].workers| == c.cpus
    ensures var v, w := run[k].workers[cpu], run[l].workers[cpu + 1];
            v.j == 10 && w.j == 0 && v.transits == 80 * r + w.transits ==> v.state == w.state
  {
    hide Iter, FromPubKey, IsRun, Init, SoundKey;
    WorkerPosition(c, run, es, k, cpu, r);
    WorkerPosition(c, run, es, l, cpu + 1, r);
  }

  /** At the end of an iteration a worker reads the flag if it has completed a positive multiple of the
      grain of iterations (or the grain is 0), and stops exactly if it then finds the flag up. */
  lemma WorkerPolls(c: Config, run: seq<System>, es: seq<Event>, k: nat, cpu: nat)
    requires Reachable(c, run, es) && k < |es| && cpu < c.cpus && es[k] == Run(cpu)
    requires cpu < |run[k].workers| && run[k].workers[cpu].pc.Poll?
    ensures cpu < |run[k + 1].workers|
    ensures var w, v := run[k].workers[cpu], run[k + 1].workers[cpu];
            && w.transits > 0
            && (v.pc.Done? <==> PollsIn(w.transits - 1, c.grain) && run[k].cells.flag)
            && (!v.pc.Done? ==> v.pc.Walking? && v.i == w.i + 1 && v.state == w.state)
  {
    hide Iter, FromPubKey, CounterAt, Init;
    Positions(c, run, es, k, cpu);
    CounterPolls(run[k].workers[cpu].transits - 1, c.grain);
  }

  predicate GivesUpLast(c: Config, g: Cells, w: Worker) {
    w.pc.Done? && !g.flag ==> w.transits == 11 * Bound(c)
  }

  lemma {:induction false} GivesUp(c: Config, run: seq<System>, es: seq<Event>, k: nat, cpu: nat)
    requires Reachable(c, run, es) && k <= |es| && cpu < c.cpus
    ensures |run[k].workers| == c.cpus && GivesUpLast(c, run[k].cells, run[k].workers[cpu])
  {
    hide Act, Next, Enabled, Budget, Left, StepsOf, TransitsCounted, WorkerInv, CellsInv, HistoryInv, Init, GivesUpLast;
    StepsBounded(c, run, es, k, cpu);
    if k == 0 {
      WalkingAtStart(c, cpu);
    } else {
      GivesUp(c, run, es, k - 1, cpu);
      StepsBounded(c, run, es, k - 1, cpu);
      RunInv(c, run, es, k - 1);
      var s := run[k - 1];
      assert s.workers[cpu] in s.workers;
      LastEvent(c, s, es[k - 1], cpu);
    }
  }

  lemma LastEvent(c: Config, s: System, e: Event, cpu: nat)
    requires AllUsable(c, s) && Enabled(s, e) && cpu < |s.workers|
    requires WorkerInv(c, s.cells, s.workers[cpu]) && TransitsCounted(Bound(c), s.workers[cpu])
    requires GivesUpLast(c, s.cells, s.workers[cpu])
    ensures GivesUpLast(c, Next(c, s, e).cells, Next(c, s, e).workers[cpu])
  {
    hide Act, WorkerInv, TransitsCounted, SearchLength;
    NextWorker(c, s, e, cpu);
    if e.Run? {
      ActMonotone(c, s.cells, e.cpu, s.workers[e.cpu]);
      if e.cpu == cpu && !s.cells.flag { LastStep(c, s.cells, cpu, s.workers[cpu]); }
    }
  }

  lemma WalkingAtStart(c: Config, cpu: nat)
    requires UsableKey(c.key) && cpu < c.cpus
    ensures GivesUpLast(c, Init(c).cells, Init(c).workers[cpu])
  {
  }

  lemma LastStep(c: Config, g: Cells, cpu: nat, w: Worker)
    requires WorkerInv(c, g, w) && !w.pc.Done? && !g.flag && TransitsCounted(Bound(c), w)
    ensures var v := Act(c, g, cpu, w).1; v.pc.Done? ==> v.transits == 11 * Bound(c)
  {
    hide OnWalk, Step, FromPubKey, Distinguished, Stepped, SearchLength;
    NextPass(w.j, Bound(c));
  }

  /** A worker that has stopped with the flag down has made all of its 11 passes. */
  lemma GivenUpAfter(c: Config, run: seq<System>, es: seq<Event>, k: nat, cpu: nat, r: nat)
    requires Reachable(c, run, es) && k <= |es| && cpu < c.cpus && r * r <= c.key.p < (r + 1) * (r + 1)
    ensures |run[k].workers| == c.cpus
    ensures run[k].workers[cpu].pc.Done? && !run[k].cells.flag ==> run[k].workers[cpu].transits == 88 * r
  {
    SearchLengthIs(c.key.p, r);
    GivesUp(c, run, es, k, cpu);
  }

  /** Once the flag is up, only workers that had read it before still claim. */
  lemma {:induction false} LateClaims(c: Config, run: seq<System>, es: seq<Event>, k: nat, l: nat, v: nat)
    requires IsRun(c, run, es) && k <= l <= |es| && run[k].cells.flag
    ensures |run[l].workers| == |run[k].workers|
    ensures v in run[l].cells.claimants ==>
              v in run[k].cells.claimants || (v < |run[k].workers| && run[k].workers[v].pc.RaiseFlag?)
    ensures v < |run[l].workers| && run[l].workers[v].pc.RaiseFlag? ==> run[k].workers[v].pc.RaiseFlag?
  {
    hide Act;
    if k < l {
      LateClaims(c, run, es, k, l - 1, v);
      WriteOnce(c, run, es, k, l - 1, 0);
      var s, e := run[l - 1], es[l - 1];
      if e.Run? { ClaimBy(c, s.cells, e.cpu, s.workers[e.cpu]); }
    }
  }

  lemma ClaimBy(c: Config, g: Cells, cpu: nat, w: Worker)
    requires Usable(c, w)
    ensures var (h, v) := Act(c, g, cpu, w);
            && h.claimants == g.claimants + (if w.pc.RaiseFlag? then {cpu} else {})
            && (g.flag ==> !v.pc.RaiseFlag?)
  {
    hide Step, FromPubKey, Distinguished;
  }

  /** A run can be extended by a step of some worker exactly as long as not all workers are done: no
      interleaving is stuck. */
  lemma NoDeadlock(s: System)
    ensures (exists cpu: nat :: Enabled(s, Run(cpu))) <==> !AllDone(s)
  {
    if w :| w in s.workers && !w.pc.Done? {
      if v :| v in s.workers && HoldsGuard(v) {
        var cpu :| 0 <= cpu < |s.workers| && s.workers[cpu] == v;
        assert Enabled(s, Run(cpu));
      } else {
        var cpu :| 0 <= cpu < |s.workers| && s.workers[cpu] == w;
        assert Enabled(s, Run(cpu));
      }
    }
  }
}
