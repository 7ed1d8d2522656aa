/** The stop flag shared by the workers and the block import, and how often a search reads it. */
module Polling {
  import opened NumberTheory

  /** An atomic flag. Between two accesses the rest of the node may change it: `env` gives the value
      found at each load from the number of the load and the value left before it. */
  class SharedFlag {
    const env: (nat, bool) -> bool
    var raised: bool
    var loads: seq<bool>

    constructor (env: (nat, bool) -> bool)
      ensures this.env == env && !raised && loads == []
    {
      this.env := env;
      raised, loads := false, [];
    }

    method Load() returns (found: bool)
      modifies this
      ensures found == raised == env(|old(loads)|, old(raised))
      ensures loads == old(loads) + [found]
    {
      found := env(|loads|, raised);
      raised, loads := found, loads + [found];
    }

    method Store(value: bool)
      modifies `raised
      ensures raised == value
    {
      raised := value;
    }
  }

  /** Nobody else raises the flag. */
  ghost predicate Undisturbed(env: (nat, bool) -> bool) {
    forall t: nat :: !env(t, false)
  }

  /** k loads that found the flag down. */
  function Down(k: nat): (s: seq<bool>)
    ensures |s| == k
  {
    seq(k, _ => false)
  }

  /** The polling counter at the start of iteration i. */
  function CounterAt(i: nat, grain: nat): nat {
    if i == 0 then 0 else if grain == 0 then 1 else (i - 1) % grain + 1
  }

  /** The polls made in the first i iterations. */
  function Polls(i: nat, grain: nat): nat {
    if i == 0 then 0 else if grain == 0 then i else (i - 1) / grain
  }

  lemma NextRemainder(x: nat, g: nat)
    requires g > 0
    ensures x % g + 1 == g ==> (x + 1) / g == x / g + 1 && (x + 1) % g == 0
    ensures x % g + 1 < g ==> (x + 1) / g == x / g && (x + 1) % g == x % g + 1
  {
    var q, r := x / g, x % g;
    assert x == q * g + r;
    if r + 1 == g {
      assert x + 1 == (q + 1) * g + 0;
      ModUnique(x + 1, g, q + 1, 0);
    } else {
      ModUnique(x + 1, g, q, r + 1);
    }
  }

  /** One more iteration polls exactly when the counter has reached the grain. */
  lemma PollStep(i: nat, grain: nat)
    ensures CounterAt(i, grain) >= grain ==>
              CounterAt(i + 1, grain) == 1 && Polls(i + 1, grain) == Polls(i, grain) + 1
    ensures CounterAt(i, grain) < grain ==>
              CounterAt(i + 1, grain) == CounterAt(i, grain) + 1 && Polls(i + 1, grain) == Polls(i, grain)
  {
    if grain > 0 {
      if i == 0 {
        ModUnique(0, grain, 0, 0);
      } else {
        ModIsCong(i - 1, grain);
        NextRemainder(i - 1, grain);
      }
    }
  }

  /** Iteration l, counted from 0, reads the flag: at every multiple of the grain but 0, and in every
      iteration if the grain is 0. */
  predicate PollsIn(l: nat, grain: nat) {
    grain == 0 || (l > 0 && l % grain == 0)
  }

  lemma CounterPolls(l: nat, grain: nat)
    ensures CounterAt(l, grain) >= grain <==> PollsIn(l, grain)
  {
    if grain > 0 && l > 0 {
      ModIsCong(l - 1, grain);
      NextRemainder(l - 1, grain);
    }
  }

  function PollingIterations(i: nat, grain: nat): set<nat> {
    set l: nat | l < i && PollsIn(l, grain)
  }

  /** The polls are those of the iterations that read the flag. */
  lemma {:induction false} PollsCount(i: nat, grain: nat)
    ensures Polls(i, grain) == |PollingIterations(i, grain)|
  {
    if i > 0 {
      PollsCount(i - 1, grain);
      PollStep(i - 1, grain);
      CounterPolls(i - 1, grain);
      var before := PollingIterations(i - 1, grain);
      assert PollingIterations(i, grain) == if PollsIn(i - 1, grain) then before + {i - 1} else before;
    }
  }

  lemma {:induction false} PollsMonotone(i: nat, k: nat, grain: nat)
    requires i <= k
    ensures Polls(i, grain) <= Polls(k, grain)
  {
    if i < k {
      PollsMonotone(i, k - 1, grain);
      PollStep(k - 1, grain);
    }
  }

  lemma DownMore(before: seq<bool>, k: nat)
    ensures before + Down(0) == before
    ensures before + Down(k) + [false] == before + Down(k + 1)
  {
    assert Down(k) + [false] == Down(k + 1);
  }

  lemma DownSum(k: nat, l: nat)
    ensures Down(k) + Down(l) == Down(k + l)
  {
  }
}
