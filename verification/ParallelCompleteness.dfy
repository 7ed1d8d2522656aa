/** What a parallel search that ends without success has missed: a distinguished work reached with two
    different solutions goes unnoticed exactly if one of them was entered in the map too late. */
module ParallelCompleteness {
  import opened Walk
  import opened Verifier
  import opened Parallel
  import opened ParallelSafety

  /** The step enters a work that is in the map already, with another solution. */
  predicate Late(s: System, e: Event) {
    && e.Run? && e.cpu < |s.workers| && s.workers[e.cpu].pc.Insert?
    && var at := s.workers[e.cpu].state;
    && at.work in s.cells.collisions && s.cells.collisions[at.work] != at.solution
  }

  ghost predicate LateInsertion(run: seq<System>, es: seq<Event>)
    requires |run| == |es| + 1
  {
    exists k: nat :: k < |es| && Late(run[k], es[k])
  }

  /** In state k of the run a worker has just reached the distinguished point at. */
  predicate Reaches(run: seq<System>, k: nat, cpu: nat, at: State) {
    && k < |run| && cpu < |run[k].workers|
    && run[k].workers[cpu].pc.Look? && run[k].workers[cpu].state == at
  }

  /** By state k some worker has reached such a point. */
  ghost predicate Reached(run: seq<System>, k: nat, work: nat, solution: Solution) {
    exists l: nat, cpu: nat, at: State ::
      l <= k && Reaches(run, l, cpu, at) && at.work == work && at.solution == solution
  }

  /** One work was reached with two solutions. */
  ghost predicate Missed(run: seq<System>) {
    exists k: nat, work: nat, s: Solution, t: Solution :: Reached(run, k, work, s) && Reached(run, k, work, t) && s != t
  }

  /** The flag is down as long as nothing was imported and nobody has claimed. */
  lemma {:induction false} FlagIff(c: Config, run: seq<System>, es: seq<Event>, k: nat)
    requires Reachable(c, run, es) && k <= |es|
    ensures run[k].cells.flag <==> Import in es[..k] || run[k].cells.claimants != {}
  {
    hide Act, SoundKey;
    if k > 0 {
      FlagIff(c, run, es, k - 1);
      assert es[..k] == es[..k - 1] + [es[k - 1]];
      if es[k - 1].Run? {
        FlagStep(c, run[k - 1].cells, es[k - 1].cpu, run[k - 1].workers[es[k - 1].cpu]);
      }
    }
  }

  lemma FlagStep(c: Config, g: Cells, cpu: nat, w: Worker)
    requires Usable(c, w)
    ensures var h := Act(c, g, cpu, w).0;
            if w.pc.RaiseFlag? then h.flag && h.claimants != {} else h.flag == g.flag && h.claimants == g.claimants
  {
    hide Step, FromPubKey, Distinguished;
    if w.pc.RaiseFlag? { assert cpu in Act(c, g, cpu, w).0.claimants; }
  }

  // ---------- in time, every point is recorded ----------

  predicate Recorded(g: Cells, at: State) {
    at.work in g.collisions && g.collisions[at.work] == at.solution
  }

  /** The worker has still to look up or enter the point. */
  predicate Pending(w: Worker, at: State) {
    w.state == at && (w.pc.Look? || w.pc.Get? || w.pc.CheckFlag? || w.pc.RaiseFlag? || w.pc.Insert?)
  }

  /** Unless it comes late, a step that leaves the flag down leaves the point pending or recorded. */
  lemma PointStep(c: Config, s: System, e: Event, cpu: nat, at: State)
    requires Inv(c, s) && AllUsable(c, s) && Enabled(s, e) && cpu < |s.workers|
    requires Pending(s.workers[cpu], at) || Recorded(s.cells, at)
    requires !Late(s, e) && !Next(c, s, e).cells.flag
    ensures var t := Next(c, s, e);
            |t.workers| == |s.workers| && (Pending(t.workers[cpu], at) || Recorded(t.cells, at))
  {
    hide Step, FromPubKey, OnWalk, Walked, Polled, HistoryInv, CellsInv;
    if e.Run? {
      ActMonotone(c, s.cells, e.cpu, s.workers[e.cpu]);
      assert WorkerInv(c, s.cells, s.workers[cpu]);
    }
  }

  /** So with the flag down throughout and no late insertion every point reached gets recorded. */
  lemma {:induction false} PointKept(c: Config, run: seq<System>, es: seq<Event>, l: nat, k: nat, cpu: nat, at: State)
    requires Reachable(c, run, es) && l <= k <= |es| && Reaches(run, l, cpu, at)
    requires !run[k].cells.flag && !LateInsertion(run, es)
    ensures cpu < |run[k].workers| && (Pending(run[k].workers[cpu], at) || Recorded(run[k].cells, at))
  {
    hide Next, Enabled, Inv, Init, SoundKey, Late, Recorded;
    if l < k {
      assert !run[k - 1].cells.flag by { WriteOnce(c, run, es, k - 1, k, 0); }
      PointKept(c, run, es, l, k - 1, cpu, at);
      RunInv(c, run, es, k - 1);
      PointStep(c, run[k - 1], es[k - 1], cpu, at);
    }
  }

  lemma PointRecorded(c: Config, run: seq<System>, es: seq<Event>, work: nat, solution: Solution)
    requires Reachable(c, run, es) && AllDone(run[|es|]) && !run[|es|].cells.flag && !LateInsertion(run, es)
    requires Reached(run, |es|, work, solution)
    ensures work in run[|es|].cells.collisions && run[|es|].cells.collisions[work] == solution
  {
    hide Init, SoundKey, Next, Enabled, LateInsertion;
    var l: nat, cpu: nat, at: State :|
      l <= |es| && Reaches(run, l, cpu, at) && at.work == work && at.solution == solution;
    PointKept(c, run, es, l, |es|, cpu, at);
    assert run[|es|].workers[cpu] in run[|es|].workers;
  }

  // ---------- what is in the map was reached ----------

  lemma StillReached(run: seq<System>, k: nat, l: nat, work: nat, solution: Solution)
    requires k <= l && Reached(run, k, work, solution)
    ensures Reached(run, l, work, solution)
  {
  }

  /** A worker about to look up or to insert has reached its point. */
  lemma {:induction false} InsertReached(c: Config, run: seq<System>, es: seq<Event>, k: nat, cpu: nat)
    requires UsableKey(c.key) && IsRun(c, run, es) && run[0] == Init(c)
    requires k <= |es| && cpu < |run[k].workers|
    requires run[k].workers[cpu].pc.Look? || run[k].workers[cpu].pc.Insert?
    ensures Reached(run, k, run[k].workers[cpu].state.work, run[k].workers[cpu].state.solution)
  {
    hide Reached, Act, Init;
    var w := run[k].workers[cpu];
    if w.pc.Look? {
      ReachedNow(run, k, cpu);
    } else if k == 0 {
      NoInsertAtStart(c, cpu);
    } else {
      var s, e := run[k - 1], es[k - 1];
      if e == Run(cpu) {
        BeforeInsert(c, s.cells, cpu, s.workers[cpu]);
        ReachedNow(run, k - 1, cpu);
      } else {
        InsertReached(c, run, es, k - 1, cpu);
      }
      StillReached(run, k - 1, k, w.state.work, w.state.solution);
    }
  }

  lemma ReachedNow(run: seq<System>, k: nat, cpu: nat)
    requires k < |run| && cpu < |run[k].workers| && run[k].workers[cpu].pc.Look?
    ensures Reached(run, k, run[k].workers[cpu].state.work, run[k].workers[cpu].state.solution)
  {
    assert Reaches(run, k, cpu, run[k].workers[cpu].state);
  }

  lemma NoInsertAtStart(c: Config, cpu: nat)
    requires UsableKey(c.key) && cpu < c.cpus
    ensures !Init(c).workers[cpu].pc.Insert?
  {
  }

  lemma BeforeInsert(c: Config, g: Cells, cpu: nat, w: Worker)
    requires Usable(c, w) && !w.pc.Done? && Act(c, g, cpu, w).1.pc.Insert?
    ensures w.pc.Look? && Act(c, g, cpu, w).1.state == w.state
  {
    hide Step, FromPubKey, Distinguished;
  }

  /** Every entry of the map is a point reached. */
  lemma {:induction false} EntryReached(c: Config, run: seq<System>, es: seq<Event>, k: nat, work: nat)
    requires UsableKey(c.key) && IsRun(c, run, es) && run[0] == Init(c)
    requires k <= |es| && work in run[k].cells.collisions
    ensures Reached(run, k, work, run[k].cells.collisions[work])
  {
    hide Reached, Act;
    if k > 0 {
      var s, e := run[k - 1], es[k - 1];
      if work in s.cells.collisions {
        EntryReached(c, run, es, k - 1, work);
        WriteOnce(c, run, es, k - 1, k, work);
        StillReached(run, k - 1, k, work, s.cells.collisions[work]);
      } else {
        NewEntry(c, s.cells, e.cpu, s.workers[e.cpu], work);
        InsertReached(c, run, es, k - 1, e.cpu);
        StillReached(run, k - 1, k, work, s.workers[e.cpu].state.solution);
      }
    }
  }

  lemma NewEntry(c: Config, g: Cells, cpu: nat, w: Worker, work: nat)
    requires Usable(c, w) && work !in g.collisions && work in Act(c, g, cpu, w).0.collisions
    ensures w.pc.Insert? && w.state.work == work && Act(c, g, cpu, w).0.collisions[work] == w.state.solution
  {
    hide Step, FromPubKey, Distinguished;
  }

  /** A search in which all workers have stopped and the flag was never raised, by a claim or by an
      import, has missed a collision exactly if an insertion came late. */
  lemma MissedIff(c: Config, run: seq<System>, es: seq<Event>)
    requires Reachable(c, run, es) && AllDone(run[|es|]) && !run[|es|].cells.flag
    ensures Missed(run) <==> LateInsertion(run, es)
  {
    hide Reached, Init, SoundKey, Next, Enabled, Late;
    if LateInsertion(run, es) {
      var k: nat :| k < |es| && Late(run[k], es[k]);
      LateMisses(c, run, es, k);
    } else if Missed(run) {
      var k: nat, work: nat, s: Solution, t: Solution :| Reached(run, k, work, s) && Reached(run, k, work, t) && s != t;
      ReachedInRun(run, k, |es|, work, s);
      ReachedInRun(run, k, |es|, work, t);
      PointRecorded(c, run, es, work, s);
      PointRecorded(c, run, es, work, t);
    }
  }

  lemma ReachedInRun(run: seq<System>, k: nat, last: nat, work: nat, solution: Solution)
    requires |run| == last + 1 && Reached(run, k, work, solution)
    ensures Reached(run, last, work, solution)
  {
  }

  lemma LateMisses(c: Config, run: seq<System>, es: seq<Event>, k: nat)
    requires Reachable(c, run, es) && k < |es| && Late(run[k], es[k])
    ensures Missed(run)
  {
    hide Reached, Init, Next, Enabled;
    var cpu := es[k].cpu;
    var at := run[k].workers[cpu].state;
    InsertReached(c, run, es, k, cpu);
    EntryReached(c, run, es, k, at.work);
  }
}
