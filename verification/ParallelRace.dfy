/** The check of the flag and the raising of the flag are two steps, so two workers can both pass the
    check. If their works differ, the nonce of one may be published with the pair of the other, and
    the verifier rejects the result. */
module ParallelRace {
  import opened Wrappers
  import opened NumberTheory
  import opened Bytes
  import opened Threshold
  import opened Walk
  import opened Verifier
  import opened Parallel
  import opened ParallelSafety

  /** Some sequence of events leads from s to t. */
  ghost predicate Leads(c: Config, s: System, t: System) {
    exists run: seq<System>, es: seq<Event> :: IsRun(c, run, es) && run[0] == s && run[|es|] == t
  }

  lemma LeadsNext(c: Config, r: System, s: System, e: Event)
    requires Leads(c, r, s) && AllUsable(c, s) && Enabled(s, e)
    ensures Leads(c, r, Next(c, s, e))
  {
    var run: seq<System>, es: seq<Event> :| IsRun(c, run, es) && run[0] == r && run[|es|] == s;
    var run2, es2 := run + [Next(c, s, e)], es + [e];
    assert IsRun(c, run2, es2) by {
      hide Next, Enabled, AllUsable;
      forall i | 0 <= i < |es2|
        ensures AllUsable(c, run2[i]) && Enabled(run2[i], es2[i]) && run2[i + 1] == Next(c, run2[i], es2[i])
      {
        if i < |es| { assert run2[i] == run[i] && run2[i + 1] == run[i + 1] && es2[i] == es[i]; }
      }
    }
    assert run2[0] == r && run2[|es2|] == Next(c, s, e);
  }

  lemma LeadsSelf(c: Config, s: System)
    ensures Leads(c, s, s)
  {
    assert IsRun(c, [s], []) && [s][0] == s;
  }

  /** Both workers stand before the check of the flag, which is down, with different works. */
  predicate Racing(c: Config, s: System, v: nat, w: nat) {
    && AllUsable(c, s) && !s.cells.flag
    && v < |s.workers| && w < |s.workers| && v != w
    && s.workers[v].pc.CheckFlag? && s.workers[w].pc.CheckFlag?
    && s.workers[v].mate.Some? && s.workers[w].mate.Some?
    && s.workers[v].state.work != s.workers[w].state.work
  }

  /** From any such state the workers may interleave so that the nonce of w is left with the pair
      of v. */
  lemma RaceMixes(c: Config, r: System, s: System, v: nat, w: nat) returns (t: System)
    requires Leads(c, r, s) && Racing(c, s, v, w)
    ensures Leads(c, r, t) && AllUsable(c, t) && |t.workers| == |s.workers| && t.cells.flag
    ensures t.cells.nonce == s.workers[w].state.nonce && t.cells.claimants == s.cells.claimants + {v, w}
    ensures t.cells.pair == Some((s.workers[v].state.solution, s.workers[v].mate.value))
    ensures t.workers == s.workers[v := s.workers[v].(pc := Done)][w := s.workers[w].(pc := Done)]
    ensures t.cells.nonceBy == Some(w) && t.cells.pairBy == Some(v)
  {
    hide Walked, Polled, Restarted, IsRun;
    var s1 := Claim(c, r, s, v, w);
    LeadsNext(c, r, s1, Run(v));
    var s2 := Next(c, s1, Run(v));
    LeadsNext(c, r, s2, Run(w));
    var s3 := Next(c, s2, Run(w));
    LeadsNext(c, r, s3, Run(w));
    var s4 := Next(c, s3, Run(w));
    LeadsNext(c, r, s4, Run(v));
    t := Next(c, s4, Run(v));
  }

  /** Both pass the check before either raises the flag. */
  lemma Claim(c: Config, r: System, s: System, v: nat, w: nat) returns (t: System)
    requires Leads(c, r, s) && Racing(c, s, v, w)
    ensures Leads(c, r, t) && AllUsable(c, t)
    ensures t.cells == s.cells.(flag := true, claimants := s.cells.claimants + {v, w})
    ensures t.workers == s.workers[v := s.workers[v].(pc := PutNonce)][w := s.workers[w].(pc := PutNonce)]
  {
    hide Walked, Polled, Restarted, IsRun;
    LeadsNext(c, r, s, Run(v));
    var s1 := Next(c, s, Run(v));
    LeadsNext(c, r, s1, Run(w));
    var s2 := Next(c, s1, Run(w));
    LeadsNext(c, r, s2, Run(v));
    var s3 := Next(c, s2, Run(v));
    LeadsNext(c, r, s3, Run(w));
    t := Next(c, s3, Run(w));
    assert s.cells.claimants + {v} + {w} == s.cells.claimants + {v, w};
  }

  /** A step of the walk to a new distinguished point, which is entered in the map. */
  lemma NewPoint(c: Config, r: System, s: System, cpu: nat, a: State) returns (t: System)
    requires Leads(c, r, s) && AllUsable(c, s) && cpu < |s.workers|
    requires var w := s.workers[cpu];
             w.pc.Walking? && w.i < Bound(c) && w.counter < c.grain && Ready(w.state) && a == Step(c.job, w.state)
    requires Distinguished(c.job.oracle, a) && a.work !in s.cells.collisions
    requires forall w | w in s.workers :: w.pc.Walking?
    ensures Leads(c, r, t) && AllUsable(c, t)
    ensures t.cells == s.cells.(collisions := s.cells.collisions[a.work := a.solution])
    ensures var w := s.workers[cpu];
            t.workers == s.workers[cpu := w.(state := a, i := w.i + 1, counter := w.counter + 1,
                                             transits := w.transits + 1)]
  {
    hide IsRun, Step, Distinguished, Restarted;
    LeadsNext(c, r, s, Run(cpu));
    var s1 := Next(c, s, Run(cpu));
    LeadsNext(c, r, s1, Run(cpu));
    var s2 := Next(c, s1, Run(cpu));
    LeadsNext(c, r, s2, Run(cpu));
    var s3 := Next(c, s2, Run(cpu));
    LeadsNext(c, r, s3, Run(cpu));
    t := Next(c, s3, Run(cpu));
  }

  /** A step of the walk to a distinguished point that is in the map with another solution. */
  lemma FindsMate(c: Config, r: System, s: System, cpu: nat, a: State) returns (t: System)
    requires Leads(c, r, s) && AllUsable(c, s) && cpu < |s.workers|
    requires var w := s.workers[cpu]; w.pc.Walking? && w.i < Bound(c) && Ready(w.state) && a == Step(c.job, w.state)
    requires Distinguished(c.job.oracle, a)
    requires a.work in s.cells.collisions && s.cells.collisions[a.work] != a.solution
    ensures Leads(c, r, t) && AllUsable(c, t) && t.cells == s.cells
    ensures var w := s.workers[cpu];
            t.workers == s.workers[cpu := w.(state := a, pc := CheckFlag, transits := w.transits + 1,
                                             mate := Some(s.cells.collisions[a.work]))]
  {
    hide IsRun, Step, Distinguished, Restarted;
    LeadsNext(c, r, s, Run(cpu));
    var s1 := Next(c, s, Run(cpu));
    LeadsNext(c, r, s1, Run(cpu));
    var s2 := Next(c, s1, Run(cpu));
    LeadsNext(c, r, s2, Run(cpu));
    t := Next(c, s2, Run(cpu));
  }

  // ---------- a late insertion ----------

  /** Both workers have reached one work with different solutions, and look it up before either has
      entered it. The second insertion finds the work taken and does nothing: the collision is lost. */
  lemma LateInsertLoses(c: Config, r: System, s: System, v: nat, w: nat) returns (t: System)
    requires Leads(c, r, s) && AllUsable(c, s) && v < |s.workers| && w < |s.workers| && v != w
    requires s.workers[v].pc.Look? && s.workers[w].pc.Look?
    requires s.workers[v].state.work == s.workers[w].state.work
    requires s.workers[v].state.work !in s.cells.collisions
    requires s.workers[v].state.solution != s.workers[w].state.solution
    requires forall u | u in s.workers :: !HoldsGuard(u)
    ensures Leads(c, r, t)
    ensures var a := s.workers[v].state; t.cells == s.cells.(collisions := s.cells.collisions[a.work := a.solution])
    ensures t.workers == s.workers[v := s.workers[v].(pc := Poll)][w := s.workers[w].(pc := Poll)]
  {
    hide Walked, Polled, Restarted, IsRun;
    LeadsNext(c, r, s, Run(v));
    var s1 := Next(c, s, Run(v));
    LeadsNext(c, r, s1, Run(w));
    var s2 := Next(c, s1, Run(w));
    LeadsNext(c, r, s2, Run(v));
    var s3 := Next(c, s2, Run(v));
    LeadsNext(c, r, s3, Run(w));
    t := Next(c, s3, Run(w));
  }

  // ---------- a race for every key ----------

  /** Two solutions of one element, with room for a step, from which workers can start. */
  predicate RacingPair(key: PublicKey, s: Solution, t: Solution) {
    && UsableKey(key) && s != t && Derive(key, s) == Derive(key, t)
    && var q := (key.p - 1) / 2;
    && s.n == q && t.n == q && s.a < q && s.b < q && t.a + 1 < q && t.b < q
  }

  /** There are more such solutions than elements, so two of them have one element. */
  lemma RacingPairExists(key: PublicKey) returns (s: Solution, t: Solution)
    requires UsableKey(key) && key.p >= 11
    ensures RacingPair(key, s, t)
  {
    hide Derive;
    var q := (key.p - 1) / 2;
    var f: nat -> nat := i => Derive(key, StartAt(i, q));
    var i, k := Pigeonhole(f, key.p);
    s, t := StartAt(i, q), StartAt(k, q);
    StartFits(i, q, key.p);
    StartFits(k, q, key.p);
    assert i == (q - 1) * s.b + s.a && k == (q - 1) * t.b + t.a;
  }

  function StartAt(i: nat, q: nat): Solution {
    if q > 1 then Solution(i % (q - 1), i / (q - 1), q) else Solution(0, 0, q)
  }

  lemma StartFits(i: nat, q: nat, p: nat)
    requires q >= 5 && i <= p <= 2 * q + 2
    ensures StartAt(i, q).a < q - 1 && StartAt(i, q).b < q
    ensures i == (q - 1) * StartAt(i, q).b + StartAt(i, q).a
  {
    var b := i / (q - 1);
    assert i == (q - 1) * b + i % (q - 1);
    assert b >= q ==> (q - 1) * b >= (q - 1) * q >= 4 * q;
  }

  function Ahead(s: Solution, k: nat): Solution {
    Solution(s.a + k, s.b, s.n)
  }

  function RacingDraw(s: Solution, t: Solution, seed: nat, k: nat): nat {
    if seed == 0 then (if k == 0 then s.a else s.b)
    else if k != 0 then t.b
    else if seed == 10 then t.a else t.a + 1
  }

  /** Three workers; every header hash is 1 and every point is distinguished. The first worker starts
      from s, the second from t, and the third a step beyond t. */
  function RacingConfig(key: PublicKey, s: Solution, t: Solution): Config {
    Config(
      Job(Oracle((d, h, x) => 1, digits => 0, (n, seed: nat, k: nat) => RacingDraw(s, t, seed, k)), key.bitLength, 0),
      key, 0, 2, 3)
  }

  /** Every step multiplies the work by g and adds one to a. */
  lemma RacingStep(c: Config, key: PublicKey, s: Solution, t: Solution, at: State)
    requires c == RacingConfig(key, s, t) && UsableKey(key) && at.pubkey == key && Ready(at)
    requires at.solution.a + 1 < key.p - 1
    ensures Step(c.job, at) == State(Ahead(at.solution, 1), at.work, FuncF(key, 1, at.work), key)
    ensures Distinguished(c.job.oracle, Step(c.job, at))
  {
    hide FuncF, HashDiff;
    U256RoundTrip(at.work);
    ModUnique(1, key.p, 0, 1);
    ModUnique(at.solution.a + 1, key.p - 1, 0, at.solution.a + 1);
    assert 0 * HashDiff(key.bitLength) == 0;
  }

  /** A step ahead is the next element. */
  lemma AheadDerives(key: PublicKey, s: Solution)
    requires SoundKey(key) && s.a + 1 < key.p - 1
    ensures Derive(key, Ahead(s, 1)) == FuncF(key, 1, Derive(key, s))
  {
    hide Derive, FuncF;
    GeneratorStep(key, s, 1);
    ModUnique(s.a + 1, key.p - 1, 0, s.a + 1);
  }

  lemma {:induction false} PowNonzero(x: nat, e: nat, p: nat)
    requires IsPrime(p) && !Divides(p, x)
    ensures !Divides(p, Pow(x, e))
  {
    if e == 0 {
      ModUnique(1, p, 0, 1);
    } else {
      PowNonzero(x, e - 1, p);
      if Divides(p, Pow(x, e)) { EuclidLemma(x, Pow(x, e - 1), p); }
    }
  }

  lemma DeriveNonzero(key: PublicKey, s: Solution)
    requires PrimeKey(key)
    ensures Derive(key, s) != 0
  {
    hide Pow;
    ModUnique(key.g, key.p, 0, key.g);
    ModUnique(key.h, key.p, 0, key.h);
    PowNonzero(key.g, s.a, key.p);
    PowNonzero(key.h, s.b, key.p);
    DeriveIsProduct(key, s);
    if Derive(key, s) == 0 { EuclidLemma(Pow(key.g, s.a), Pow(key.h, s.b), key.p); }
  }

  /** Unless g is 1, a step leaves the element. */
  lemma StepMoves(key: PublicKey, y: nat)
    requires PrimeKey(key) && key.g != 1 && 0 < y < key.p
    ensures FuncF(key, 1, y) != y
  {
    var p, g := key.p, key.g;
    assert Pow(g, 1) == g;
    ModUnique(g, p, 0, g);
    ModUnique(y, p, 0, y);
    if (g * y) % p == y {
      CongIffDivides(g * y, y, p);
      assert g * y - y == (g - 1) * y;
      EuclidLemma(g - 1, y, p);
      ModUnique(g - 1, p, 0, g - 1);
    }
  }

  /** The three starting states. */
  lemma RacingStarts(c: Config, key: PublicKey, s: Solution, t: Solution)
    requires RacingPair(key, s, t) && c == RacingConfig(key, s, t)
    ensures var o := c.job.oracle;
            && FromPubKey(o, key, 0) == State(s, 1, Derive(key, s), key)
            && FromPubKey(o, key, 10) == State(t, 1, Derive(key, t), key)
            && FromPubKey(o, key, 20) == State(Ahead(t, 1), 1, Derive(key, Ahead(t, 1)), key)
  {
    hide Derive, Measurable;
    var q := (key.p - 1) / 2;
    ModUnique(s.a, q, 0, s.a);
    ModUnique(s.b, q, 0, s.b);
    ModUnique(t.a, q, 0, t.a);
    ModUnique(t.a + 1, q, 0, t.a + 1);
    ModUnique(t.b, q, 0, t.b);
  }

  /** The elements the run goes through: two steps from that of s and t, the last two different. */
  lemma RacingElements(key: PublicKey, s: Solution, t: Solution) returns (y: nat, u: nat, v: nat)
    requires PrimeKey(key) && key.g != 1 && key.p >= 11 && RacingPair(key, s, t)
    ensures y == Derive(key, s) == Derive(key, t) && u == Derive(key, Ahead(t, 1))
    ensures u == FuncF(key, 1, y) && v == FuncF(key, 1, u) && u != v && y < key.p && u < key.p
  {
    hide Derive, FuncF;
    y, u := Derive(key, s), Derive(key, Ahead(t, 1));
    v := FuncF(key, 1, u);
    PrimeKeyIsSound(key);
    AheadDerives(key, t);
    DeriveNonzero(key, Ahead(t, 1));
    StepMoves(key, u);
  }

  lemma RacingInit(c: Config, key: PublicKey, s: Solution, t: Solution)
    requires RacingPair(key, s, t) && c == RacingConfig(key, s, t)
    ensures c.key == key && c.grain == 2
    ensures var x := Init(c);
            && Leads(c, x, x) && |x.workers| == 3
            && (forall k | 0 <= k < 3 :: x.workers[k].pc.Walking? && x.workers[k].i == x.workers[k].counter == 0)
            && x.workers[0].state == State(s, 1, Derive(key, s), key)
            && x.workers[1].state == State(t, 1, Derive(key, t), key)
            && x.workers[2].state == State(Ahead(t, 1), 1, Derive(key, Ahead(t, 1)), key)
  {
    hide Leads, FromPubKey, Derive;
    RacingStarts(c, key, s, t);
    LeadsSelf(c, Init(c));
    var x := Init(c);
    assert x.workers[0].seed == 0 && x.workers[1].seed == 10 && x.workers[2].seed == 20;
  }

  /** The first worker enters two points. */
  lemma RacingEntered(c: Config, key: PublicKey, s: Solution, t: Solution, y: nat, u: nat, v: nat) returns (x: System)
    requires PrimeKey(key) && key.p >= 11 && RacingPair(key, s, t) && c == RacingConfig(key, s, t)
    requires y == Derive(key, s) == Derive(key, t) && u == Derive(key, Ahead(t, 1))
    requires u == FuncF(key, 1, y) && v == FuncF(key, 1, u) && u != v && y < key.p && u < key.p
    ensures Leads(c, Init(c), x) && AllUsable(c, x) && |x.workers| == 3
    ensures x.cells == Init(c).cells.(collisions := map[u := Ahead(s, 1), v := Ahead(s, 2)])
    ensures forall k | 0 <= k < 3 :: x.workers[k].pc.Walking? && x.workers[k].i <= 2
    ensures x.workers[0].counter == 2 && x.workers[0].state.solution == Ahead(s, 2)
    ensures x.workers[1].state == State(t, 1, y, key)
    ensures x.workers[2].state == State(Ahead(t, 1), 1, u, key)
  {
    hide Leads, Step, Distinguished, Derive, FuncF, PrimeKey, Init, RacingConfig;
    RacingInit(c, key, s, t);
    CellsAtStart(c);
    var r := Init(c);
    var at := r.workers[0].state;
    RacingStep(c, key, s, t, at);
    var x1 := NewPoint(c, r, r, 0, Step(c.job, at));
    RacingStep(c, key, s, t, Step(c.job, at));
    x := NewPoint(c, r, x1, 0, Step(c.job, Step(c.job, at)));
  }

  lemma CellsAtStart(c: Config)
    requires UsableKey(c.key)
    ensures Init(c).cells == Cells(map[], false, 1, None, {}, None, None)
  {
  }

  /** The others find them, one each. */
  lemma RacingMet(c: Config, key: PublicKey, s: Solution, t: Solution, y: nat, u: nat, v: nat) returns (x: System)
    requires PrimeKey(key) && key.p >= 11 && RacingPair(key, s, t) && c == RacingConfig(key, s, t)
    requires y == Derive(key, s) == Derive(key, t) && u == Derive(key, Ahead(t, 1))
    requires u == FuncF(key, 1, y) && v == FuncF(key, 1, u) && u != v && y < key.p && u < key.p
    ensures Leads(c, Init(c), x) && Racing(c, x, 1, 2) && |x.workers| == 3 && x.cells.claimants == {}
    ensures x.workers[0].pc.Walking? && x.workers[0].i <= 2 && x.workers[0].counter == 2
    ensures x.workers[0].state.solution == Ahead(s, 2)
  {
    hide Leads, Step, Distinguished, FromPubKey, Derive, FuncF, PrimeKey;
    var r := Init(c);
    var x2 := RacingEntered(c, key, s, t, y, u, v);
    RacingStep(c, key, s, t, x2.workers[1].state);
    var x3 := FindsMate(c, r, x2, 1, Step(c.job, x2.workers[1].state));
    RacingStep(c, key, s, t, x2.workers[2].state);
    x := FindsMate(c, r, x3, 2, Step(c.job, x2.workers[2].state));
  }

  predicate Published(g: Cells, h: Cells) {
    && g.nonce == h.nonce && g.nonceBy == h.nonceBy && g.pair == h.pair && g.pairBy == h.pairBy
    && g.claimants == h.claimants
  }

  /** With the flag up the last worker walks to its next point, and stops. */
  lemma LastStops(c: Config, r: System, s: System, cpu: nat) returns (t: System)
    requires Leads(c, r, s) && AllUsable(c, s) && cpu < |s.workers| && s.cells.flag
    requires var w := s.workers[cpu]; w.pc.Walking? && w.i < Bound(c) && w.counter >= c.grain
    requires Ready(s.workers[cpu].state) && Distinguished(c.job.oracle, Step(c.job, s.workers[cpu].state))
    requires forall k | 0 <= k < |s.workers| && k != cpu :: s.workers[k].pc.Done?
    ensures Leads(c, r, t) && AllDone(t) && Published(s.cells, t.cells) && |t.workers| == |s.workers|
    ensures forall k | 0 <= k < |s.workers| && k != cpu :: t.workers[k] == s.workers[k]
  {
    hide IsRun, Step, Distinguished, Restarted;
    LeadsNext(c, r, s, Run(cpu));
    var s1 := Next(c, s, Run(cpu));
    LeadsNext(c, r, s1, Run(cpu));
    var s2 := Next(c, s1, Run(cpu));
    LeadsNext(c, r, s2, Run(cpu));
    var s3 := Next(c, s2, Run(cpu));
    LeadsNext(c, r, s3, Run(cpu));
    t := Next(c, s3, Run(cpu));
  }

  /** The second and the third claim, and leave their cells mixed. */
  lemma RacingPublished(c: Config, key: PublicKey, s: Solution, t: Solution, y: nat, u: nat, v: nat) returns (x: System)
    requires PrimeKey(key) && key.p >= 11 && RacingPair(key, s, t) && c == RacingConfig(key, s, t)
    requires y == Derive(key, s) == Derive(key, t) && u == Derive(key, Ahead(t, 1))
    requires u == FuncF(key, 1, y) && v == FuncF(key, 1, u) && u != v && y < key.p && u < key.p
    ensures Leads(c, Init(c), x) && AllDone(x) && |x.workers| == 3
    ensures x.cells.claimants == {1, 2} && x.cells.pair.Some?
    ensures x.cells.pairBy == Some(1) && x.cells.nonceBy == Some(2)
    ensures x.workers[1].state.work != x.workers[2].state.work
  {
    hide Leads, Step, Distinguished, FromPubKey, Derive, FuncF, PrimeKey, Init;
    var x1 := RacingMet(c, key, s, t, y, u, v);
    var x2 := RaceMixes(c, Init(c), x1, 1, 2);
    assert x2.workers[0] == x1.workers[0];
    assert x2.workers[0] in x2.workers;
    RacingStep(c, key, s, t, x2.workers[0].state);
    x := LastStops(c, Init(c), x2, 0);
    assert x.cells.claimants == {1, 2};
  }

  /** For every prime key (from p = 11 on, with g other than 1) there are an oracle and a run of three
      workers that ends with two claimants, a published collision, and a nonce with which the verifier
      rejects it. */
  lemma MixedSealRejected(key: PublicKey) returns (c: Config, t: System)
    requires PrimeKey(key) && key.p >= 11 && key.g != 1
    ensures c.key == key && Leads(c, Init(c), t) && AllDone(t)
    ensures |t.cells.claimants| == 2 && t.cells.pair.Some? && t.cells.nonce < TWO_256
    ensures Collide(key, t.cells.pair.value.0, t.cells.pair.value.1)
    ensures !Verify(c.job, key, t.cells.pair.value, t.cells.nonce)
  {
    hide Verify, Collide, Derive, FuncF, Step, Distinguished, RacingPair, IsPrime, SoundKey;
    var s, u := RacingPairExists(key);
    c := RacingConfig(key, s, u);
    var y, e, f := RacingElements(key, s, u);
    t := RacingPublished(c, key, s, u, y, e, f);
    PrimeKeyIsSound(key);
    RejectedIn(c, t);
  }

  /** What the coherence condition says about any state a run reaches. */
  lemma RejectedIn(c: Config, t: System)
    requires SoundKey(c.key) && Leads(c, Init(c), t) && t.cells.pair.Some?
    ensures t.cells.nonceBy.Some? && t.cells.pairBy.Some? && t.cells.nonce < TWO_256
    ensures t.cells.nonceBy.value < |t.workers| && t.cells.pairBy.value < |t.workers|
    ensures Collide(c.key, t.cells.pair.value.0, t.cells.pair.value.1)
    ensures t.workers[t.cells.nonceBy.value].state.work != t.workers[t.cells.pairBy.value].state.work
            ==> !Verify(c.job, c.key, t.cells.pair.value, t.cells.nonce)
  {
    hide Verify, Collide, Derive, Next, Enabled;
    var run: seq<System>, es: seq<Event> :| IsRun(c, run, es) && run[0] == Init(c) && run[|es|] == t;
    PublishedIsCollision(c, run, es, |es|);
    CoherenceIff(c, run, es, |es|);
  }
}
