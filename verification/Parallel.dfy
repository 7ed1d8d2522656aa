/** The parallel search as a state machine: every worker advances by atomic steps, interleaved in
    any order with each other and with block imports that raise the stop flag. A worker that has
    found its work in the collision map keeps the read guard until it leaves the critical section,
    so nothing is inserted meanwhile; the flag, the nonce cell and the result cell are written by
    separate steps. */
module Parallel {
  import opened Wrappers
  import opened Walk
  import opened Verifier
  import opened Floyd

  const MAX_TRY: nat := 10

  datatype Config = Config(job: Job, key: PublicKey, seed: nat, grain: nat, cpus: nat)

  /** The next step of a worker. From `Get` to `PutPair` it holds the read guard of the map. */
  datatype Pc = Walking | Look | Get | CheckFlag | RaiseFlag | PutNonce | PutPair | Insert | Poll | Done

  /** The locals of a worker; `mate` is the solution it found in the map, `transits` counts steps. */
  datatype Worker = Worker(seed: nat, state: State, i: nat, j: nat, counter: nat, pc: Pc,
                           mate: Option<Solution>, transits: nat)

  /** The shared cells. The last three only record history: which workers passed the check of the
      flag, and which wrote the nonce cell and the result cell last. */
  datatype Cells = Cells(collisions: map<nat, Solution>, flag: bool, nonce: nat, pair: Option<Solutions>,
                         claimants: set<nat>, nonceBy: Option<nat>, pairBy: Option<nat>)

  datatype System = System(cells: Cells, workers: seq<Worker>)

  datatype Event = Import | Run(cpu: nat)

  // ---------- steps ----------

  function Bound(c: Config): nat {
    SearchLength(c.key.p)
  }

  /** The offset is a product of bytes, which wraps. */
  function LocalSeed(c: Config, cpu: nat): nat {
    c.seed + (MAX_TRY * cpu) % 256
  }

  predicate Usable(c: Config, w: Worker) {
    UsableKey(c.key) && Ready(w.state) && w.state.pubkey == c.key
  }

  function Restarted(c: Config, w: Worker): (v: Worker)
    requires Usable(c, w)
    ensures Usable(c, v)
  {
    w.(j := w.j + 1, state := FromPubKey(c.job.oracle, c.key, w.seed + w.j + 1), i := 0)
  }

  /** The worker has found its work in the map with a different solution. */
  predicate HasMate(w: Worker) {
    w.pc.CheckFlag? || w.pc.RaiseFlag? || w.pc.PutNonce? || w.pc.PutPair?
  }

  /** Top of the loops: take a step, start again from the next seed, or give up. */
  function Walked(c: Config, w: Worker): (v: Worker)
    requires Usable(c, w)
    ensures Usable(c, v) && (!HasMate(w) ==> !HasMate(v))
  {
    if w.i < Bound(c) then
      var t := Step(c.job, w.state);
      w.(state := t, transits := w.transits + 1, pc := if Distinguished(c.job.oracle, t) then Look else Poll)
    else if w.j < MAX_TRY then Restarted(c, w)
    else w.(pc := Done)
  }

  /** End of an iteration, with the occasional poll of the flag. */
  function Polled(w: Worker, flag: bool, grain: nat): (v: Worker)
    ensures !HasMate(v) && v.state == w.state
  {
    if w.counter >= grain && flag then w.(pc := Done)
    else w.(i := w.i + 1, counter := (if w.counter >= grain then 0 else w.counter) + 1, pc := Walking)
  }

  /** One atomic step of a worker. */
  function Act(c: Config, g: Cells, cpu: nat, w: Worker): (r: (Cells, Worker))
    requires Usable(c, w)
    ensures Usable(c, r.1)
  {
    match w.pc
    case Walking => (g, Walked(c, w))
    case Look => (g, w.(pc := if w.state.work in g.collisions then Get else Insert))
    case Get =>
      if w.state.work in g.collisions then
        var mate := g.collisions[w.state.work];
        (g, if w.state.solution != mate then w.(mate := Some(mate), pc := CheckFlag) else w.(pc := Poll))
      else
        (g, Restarted(c, w).(pc := Poll))
    case CheckFlag => (g, w.(pc := if g.flag then Done else RaiseFlag))
    case RaiseFlag => (g.(flag := true, claimants := g.claimants + {cpu}), w.(pc := PutNonce))
    case PutNonce => (g.(nonce := w.state.nonce, nonceBy := Some(cpu)), w.(pc := PutPair))
    case PutPair =>
      (if w.mate.Some? then g.(pair := Some((w.state.solution, w.mate.value)), pairBy := Some(cpu)) else g,
       w.(pc := Done))
    case Insert =>
      (if w.state.work in g.collisions then g
       else g.(collisions := g.collisions[w.state.work := w.state.solution]),
       w.(pc := Poll))
    case Poll => (g, Polled(w, g.flag, c.grain))
    case Done => (g, w)
  }

  predicate HoldsGuard(w: Worker) {
    w.pc.Get? || w.pc.CheckFlag? || w.pc.RaiseFlag? || w.pc.PutNonce? || w.pc.PutPair?
  }

  predicate Enabled(s: System, e: Event) {
    match e
    case Import => true
    case Run(cpu) =>
      && cpu < |s.workers| && !s.workers[cpu].pc.Done?
      && (s.workers[cpu].pc.Insert? ==> forall v | v in s.workers :: !HoldsGuard(v))
  }

  predicate AllUsable(c: Config, s: System) {
    forall w | w in s.workers :: Usable(c, w)
  }

  function Next(c: Config, s: System, e: Event): (t: System)
    requires AllUsable(c, s) && Enabled(s, e)
    ensures AllUsable(c, t) && |t.workers| == |s.workers|
  {
    match e
    case Import => s.(cells := s.cells.(flag := true))
    case Run(cpu) =>
      var (g, w) := Act(c, s.cells, cpu, s.workers[cpu]);
      System(g, s.workers[cpu := w])
  }

  function Init(c: Config): (s: System)
    requires UsableKey(c.key)
    ensures AllUsable(c, s) && |s.workers| == c.cpus
  {
    System(
      Cells(map[], false, 1, None, {}, None, None),
      seq(c.cpus, cpu requires 0 <= cpu < c.cpus =>
        Worker(LocalSeed(c, cpu), FromPubKey(c.job.oracle, c.key, LocalSeed(c, cpu)), 0, 0, 0, Walking, None, 0)))
  }

  /** The states run[0], run[1], ... are those passed through when es[0], es[1], ... happen. */
  ghost predicate IsRun(c: Config, run: seq<System>, es: seq<Event>) {
    && |run| == |es| + 1
    && forall i | 0 <= i < |es| ::
         AllUsable(c, run[i]) && Enabled(run[i], es[i]) && run[i + 1] == Next(c, run[i], es[i])
  }

  predicate AllDone(s: System) {
    forall w | w in s.workers :: w.pc.Done?
  }

  // ---------- the invariant ----------

  /** The solution stands for the work. */
  predicate Entry(key: PublicKey, work: nat, solution: Solution) {
    OnWalk(State(solution, 0, work, key))
  }

  /** The worker is at a distinguished point it has just reached. */
  predicate AtPoint(w: Worker) {
    w.pc.Look? || w.pc.Insert? || HoldsGuard(w)
  }

  /** Two different solutions of one work. */
  predicate Collision(c: Config, w: Worker) {
    w.mate.Some? && w.mate.value != w.state.solution && Entry(c.key, w.state.work, w.mate.value)
  }

  /** The nonce and the work of the state are a header hash step apart, at a distinguished point. */
  predicate Point(c: Config, w: Worker)
    requires Usable(c, w)
  {
    Stepped(c.job, w.state) && Distinguished(c.job.oracle, w.state)
  }

  predicate WorkerInv(c: Config, g: Cells, w: Worker) {
    && Usable(c, w) && OnWalk(w.state)
    && w.j <= MAX_TRY && w.i <= Bound(c)
    && (!w.pc.Walking? && !w.pc.Done? ==> w.i < Bound(c))
    && (AtPoint(w) ==> Point(c, w))
    && (HoldsGuard(w) ==> w.state.work in g.collisions)
    && (HasMate(w) ==> Collision(c, w))
    && (w.pc.PutNonce? || w.pc.PutPair? ==> g.flag)
  }

  predicate CellsInv(c: Config, g: Cells) {
    && (forall work | work in g.collisions :: Entry(c.key, work, g.collisions[work]))
    && (g.pair.Some? <==> g.pairBy.Some?)
    && (g.nonceBy.Some? ==> g.flag)
    && (g.pairBy.Some? ==> g.nonceBy.Some?)
  }

  predicate Publishing(w: Worker) {
    w.pc.PutNonce? || w.pc.PutPair?
  }

  /** The claimants are the workers that publish, and those that have. */
  predicate ClaimantsInv(s: System) {
    && (forall v | v in s.cells.claimants :: v < |s.workers|)
    && (forall v | 0 <= v < |s.workers| && Publishing(s.workers[v]) :: v in s.cells.claimants)
    && (forall v | v in s.cells.claimants ::
          Publishing(s.workers[v]) || (s.workers[v].pc.Done? && s.cells.pair.Some?))
  }

  /** The nonce is that of a claimant at its point, and is there before any pair is put. */
  predicate NonceInv(c: Config, s: System) {
    && (forall v | 0 <= v < |s.workers| && s.workers[v].pc.PutPair? :: s.cells.nonceBy.Some?)
    && (s.cells.nonceBy.None? ==> s.cells.nonce == 1)
    && (s.cells.nonceBy.Some? ==>
          var v := s.cells.nonceBy.value;
          && v in s.cells.claimants && v < |s.workers|
          && (s.workers[v].pc.PutPair? || s.workers[v].pc.Done?)
          && Usable(c, s.workers[v]) && Point(c, s.workers[v])
          && s.cells.nonce == s.workers[v].state.nonce)
  }

  /** The pair is that of a claimant that has stopped. */
  predicate PairInv(c: Config, s: System) {
    s.cells.pairBy.Some? ==>
      var v := s.cells.pairBy.value;
      && v in s.cells.claimants && v < |s.workers|
      && s.workers[v].pc.Done? && Collision(c, s.workers[v])
      && s.cells.pair == Some((s.workers[v].state.solution, s.workers[v].mate.value))
  }

  /** Who wrote what: claimants have not moved since they claimed. */
  predicate HistoryInv(c: Config, s: System) {
    ClaimantsInv(s) && NonceInv(c, s) && PairInv(c, s)
  }

  predicate Inv(c: Config, s: System) {
    && (forall w | w in s.workers :: WorkerInv(c, s.cells, w))
    && CellsInv(c, s.cells)
    && HistoryInv(c, s)
  }

  lemma InitInv(c: Config)
    requires SoundKey(c.key)
    ensures Inv(c, Init(c))
  {
    var s := Init(c);
    forall w | w in s.workers ensures WorkerInv(c, s.cells, w) {
      StartOnWalk(c.job.oracle, c.key, w.seed);
    }
  }

  lemma WalkedInv(c: Config, g: Cells, w: Worker)
    requires SoundKey(c.key) && WorkerInv(c, g, w) && w.pc.Walking?
    ensures WorkerInv(c, g, Walked(c, w))
  {
    hide Step, OnWalk, FromPubKey, Distinguished, Stepped;
    if w.i < Bound(c) {
      StepKeepsWalk(c.job, w.state);
      StepIsStepped(c.job, w.state);
    } else if w.j < MAX_TRY {
      StartOnWalk(c.job.oracle, c.key, w.seed + w.j + 1);
    }
  }

  /** The acting worker and the cells. */
  lemma ActInv(c: Config, g: Cells, cpu: nat, w: Worker)
    requires SoundKey(c.key) && WorkerInv(c, g, w) && CellsInv(c, g)
    requires w.pc.PutPair? ==> g.nonceBy.Some?
    ensures var (h, v) := Act(c, g, cpu, w); WorkerInv(c, h, v) && CellsInv(c, h)
  {
    hide Step, FromPubKey, Distinguished, Stepped, SoundKey, Derive;
    if w.pc.Walking? { WalkedInv(c, g, w); }
  }

  /** What a step leaves alone: entries are never changed, the flag never goes down. */
  lemma ActMonotone(c: Config, g: Cells, cpu: nat, w: Worker)
    requires Usable(c, w)
    ensures var h := Act(c, g, cpu, w).0;
            && (g.flag ==> h.flag)
            && forall work | work in g.collisions ::
                 work in h.collisions && h.collisions[work] == g.collisions[work]
  {
  }

  lemma OtherInv(c: Config, g: Cells, h: Cells, w: Worker)
    requires WorkerInv(c, g, w) && (g.flag ==> h.flag)
    requires forall work | work in g.collisions :: work in h.collisions
    ensures WorkerInv(c, h, w)
  {
  }

  predicate SameHistory(g: Cells, h: Cells) {
    && g.claimants == h.claimants && g.nonce == h.nonce && g.nonceBy == h.nonceBy
    && g.pair == h.pair && g.pairBy == h.pairBy
  }

  /** A step other than the three that publish leaves the history alone, and is not a claimant's. */
  lemma QuietStep(c: Config, s: System, cpu: nat, h: Cells, w: Worker)
    requires HistoryInv(c, s) && cpu < |s.workers| && !Publishing(s.workers[cpu]) && !s.workers[cpu].pc.Done?
    requires SameHistory(s.cells, h) && !Publishing(w)
    ensures HistoryInv(c, System(h, s.workers[cpu := w]))
  {
    hide Collision, Usable, Point;
    assert cpu !in s.cells.claimants;
  }

  lemma ClaimStep(c: Config, s: System, cpu: nat, h: Cells, w: Worker)
    requires HistoryInv(c, s) && cpu < |s.workers| && s.workers[cpu].pc.RaiseFlag?
    requires h == s.cells.(flag := true, claimants := s.cells.claimants + {cpu})
    requires w == s.workers[cpu].(pc := PutNonce)
    ensures HistoryInv(c, System(h, s.workers[cpu := w]))
  {
    hide Collision, Usable, Point;
    assert cpu !in s.cells.claimants;
  }

  lemma NonceStep(c: Config, s: System, cpu: nat, h: Cells, w: Worker)
    requires HistoryInv(c, s) && cpu < |s.workers| && s.workers[cpu].pc.PutNonce?
    requires Usable(c, s.workers[cpu]) && Point(c, s.workers[cpu])
    requires h == s.cells.(nonce := s.workers[cpu].state.nonce, nonceBy := Some(cpu))
    requires w == s.workers[cpu].(pc := PutPair)
    ensures HistoryInv(c, System(h, s.workers[cpu := w]))
  {
    hide Collision, Distinguished, Stepped;
  }

  lemma PairStep(c: Config, s: System, cpu: nat, h: Cells, w: Worker)
    requires HistoryInv(c, s) && cpu < |s.workers| && s.workers[cpu].pc.PutPair?
    requires Collision(c, s.workers[cpu])
    requires h == s.cells.(pair := Some((s.workers[cpu].state.solution, s.workers[cpu].mate.value)),
                           pairBy := Some(cpu))
    requires w == s.workers[cpu].(pc := Done)
    ensures HistoryInv(c, System(h, s.workers[cpu := w]))
  {
    hide Entry, Distinguished, Stepped;
  }

  lemma HistoryStep(c: Config, s: System, cpu: nat)
    requires Inv(c, s) && Enabled(s, Run(cpu))
    ensures HistoryInv(c, Next(c, s, Run(cpu)))
  {
    hide HistoryInv, Step, FromPubKey, Distinguished, Stepped, OnWalk, Entry, Point;
    var w := s.workers[cpu];
    assert WorkerInv(c, s.cells, w);
    var (h, v) := Act(c, s.cells, cpu, w);
    match w.pc {
      case RaiseFlag => ClaimStep(c, s, cpu, h, v);
      case PutNonce => NonceStep(c, s, cpu, h, v);
      case PutPair => PairStep(c, s, cpu, h, v);
      case _ => QuietStep(c, s, cpu, h, v);
    }
  }

  lemma NextInv(c: Config, s: System, e: Event)
    requires SoundKey(c.key) && Inv(c, s) && Enabled(s, e)
    ensures Inv(c, Next(c, s, e))
  {
    hide OnWalk, SoundKey, Act;
    var t := Next(c, s, e);
    match e {
      case Import =>
        forall w | w in t.workers ensures WorkerInv(c, t.cells, w) { OtherInv(c, s.cells, t.cells, w); }
      case Run(cpu) =>
        ActInv(c, s.cells, cpu, s.workers[cpu]);
        ActMonotone(c, s.cells, cpu, s.workers[cpu]);
        HistoryStep(c, s, cpu);
        forall k | 0 <= k < |t.workers| ensures WorkerInv(c, t.cells, t.workers[k]) {
          if k != cpu { OtherInv(c, s.cells, t.cells, s.workers[k]); }
        }
    }
  }

  /** The invariant holds in every state of every interleaving. */
  lemma {:induction false} RunInv(c: Config, run: seq<System>, es: seq<Event>, k: nat)
    requires SoundKey(c.key) && IsRun(c, run, es) && k <= |es| && run[0] == Init(c)
    ensures AllUsable(c, run[k]) && Inv(c, run[k])
  {
    hide Next, Enabled, SoundKey, Inv, Init;
    if k == 0 {
      InitInv(c);
    } else {
      RunInv(c, run, es, k - 1);
      NextInv(c, run[k - 1], es[k - 1]);
    }
  }
}
