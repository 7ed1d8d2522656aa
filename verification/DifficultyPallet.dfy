/** The difficulty pallet: a buffer of 60 slots with a write pointer, refining the plain history of
    all timestamps, and the retarget each time the buffer is full. */
module DifficultyPallet {
  import opened Wrappers
  import opened Bytes
  import opened Constants
  import opened Retarget

  /** The history cut into full windows ends with one. */
  predicate WindowFull(n: nat) {
    n > 0 && n % WINDOW == 0
  }

  function LastWindow(history: seq<Stamp>): seq<Stamp>
    requires |history| >= WINDOW
  {
    history[|history| - WINDOW..]
  }

  /** What slot k holds after the history: the youngest stamp whose position is k modulo 60. */
  function SlotAfter(history: seq<Stamp>, k: nat): Option<Stamp>
    requires k < WINDOW
  {
    var h := |history| % WINDOW;
    if k < h then Some(history[|history| - h + k])
    else if |history| >= WINDOW then Some(history[|history| - h - WINDOW + k])
    else None
  }

  /** The difficulty as the plain list of stamps determines it: adjusted once per full window. */
  function PlainDifficulty(history: seq<Stamp>, blockTime: u64, initial: nat): (d: nat)
    requires initial >= 1
    ensures d >= 1
  {
    if history == [] then initial
    else
      var d := PlainDifficulty(history[..|history| - 1], blockTime, initial);
      if WindowFull(|history|) then Adjusted(d, Verdict(LastWindow(history), blockTime)) else d
  }

  lemma PlainStep(before: seq<Stamp>, after: seq<Stamp>, blockTime: u64, initial: nat)
    requires initial >= 1 && |after| == |before| + 1 && before == after[..|before|]
    ensures WindowFull(|after|) ==> |after| >= WINDOW
    ensures var d := PlainDifficulty(before, blockTime, initial);
            PlainDifficulty(after, blockTime, initial)
            == if WindowFull(|after|) then Adjusted(d, Verdict(LastWindow(after), blockTime)) else d
  {
    hide Adjusted, Verdict;
  }

  /** A full window is one more of them. */
  lemma WindowCount(n: nat)
    requires n > 0
    ensures n / WINDOW == (n - 1) / WINDOW + if WindowFull(n) then 1 else 0
  {
  }

  /** From the first retarget on the difficulty is in range, and it moves by at most one a window. */
  lemma {:induction false} PlainDrift(history: seq<Stamp>, blockTime: u64, initial: nat, m: nat, n: nat)
    requires initial >= 1 && WINDOW <= m <= n <= |history|
    ensures var c := PlainDifficulty(history[..m], blockTime, initial);
            var d := PlainDifficulty(history[..n], blockTime, initial);
            && MIN_DIFFICULTY <= c <= MAX_DIFFICULTY && MIN_DIFFICULTY <= d <= MAX_DIFFICULTY
            && -(n / WINDOW - m / WINDOW) <= d - c <= n / WINDOW - m / WINDOW
    decreases m + n
  {
    hide PlainDifficulty, Verdict, Adjusted, WindowFull;
    var h := history[..n];
    if m < n {
      PlainDrift(history, blockTime, initial, m, n - 1);
    } else if m > WINDOW {
      PlainDrift(history, blockTime, initial, m - 1, n - 1);
    } else {
      assert WindowFull(n) by { FirstWindow(); }
    }
    PlainStep(history[..n - 1], h, blockTime, initial);
    WindowCount(n);
    AdjustedBounds(PlainDifficulty(history[..n - 1], blockTime, initial), Verdict(LastWindow(h), blockTime));
  }

  lemma FirstWindow()
    ensures WindowFull(WINDOW)
  {
  }

  /** The 60 stamps that end with the n-th. */
  function WindowTo(history: seq<Stamp>, n: nat): (window: seq<Stamp>)
    requires WINDOW <= n <= |history|
    ensures |window| == WINDOW
  {
    history[n - WINDOW..n]
  }

  /** Every window the history is cut into gets the same verdict. */
  predicate SameVerdicts(history: seq<Stamp>, blockTime: u64, verdict: int) {
    forall n | WINDOW <= n <= |history| && WindowFull(n) :: Verdict(WindowTo(history, n), blockTime) == verdict
  }

  /** k steps up, down or none, within the range. */
  function Toward(initial: nat, verdict: int, k: nat): int {
    if verdict > 0 then (if initial + k < MAX_DIFFICULTY then initial + k else MAX_DIFFICULTY)
    else if verdict < 0 then (if initial - k > MIN_DIFFICULTY then initial - k else MIN_DIFFICULTY)
    else initial
  }

  /** The difficulty then moves one step a window, up to the end of its range. */
  lemma {:induction false} SteadyCourse(history: seq<Stamp>, blockTime: u64, initial: nat, verdict: int)
    requires MIN_DIFFICULTY <= initial <= MAX_DIFFICULTY && SameVerdicts(history, blockTime, verdict)
    ensures PlainDifficulty(history, blockTime, initial) == Toward(initial, verdict, |history| / WINDOW)
  {
    hide Verdict, PlainDifficulty, WindowFull, WindowTo;
    if history == [] {
      assert PlainDifficulty(history, blockTime, initial) == initial by { NoStamps(blockTime, initial); }
    } else {
      var n := |history|;
      var before := history[..n - 1];
      forall m | WINDOW <= m <= n - 1 && WindowFull(m) ensures Verdict(WindowTo(before, m), blockTime) == verdict {
        SameWindow(history, m);
      }
      SteadyCourse(before, blockTime, initial, verdict);
      PlainStep(before, history, blockTime, initial);
      WindowCount(n);
      if WindowFull(n) { SameWindow(history, n); }
    }
  }

  lemma NoStamps(blockTime: u64, initial: nat)
    requires initial >= 1
    ensures PlainDifficulty([], blockTime, initial) == initial
  {
  }

  lemma SameWindow(history: seq<Stamp>, n: nat)
    requires WINDOW <= n <= |history|
    ensures n < |history| ==> WindowTo(history[..|history| - 1], n) == WindowTo(history, n)
    ensures n == |history| ==> LastWindow(history) == WindowTo(history, n)
  {
  }

  /** Every window of the history rises and lasts from lo up to, but not including, hi milliseconds. */
  predicate WindowsLast(history: seq<Stamp>, lo: int, hi: int) {
    forall n | WINDOW <= n <= |history| && WindowFull(n) ::
      FullWindow(WindowTo(history, n), 0) && lo <= Elapsed(WindowTo(history, n)) < hi
  }

  /** Windows that all take about the target hour keep the difficulty; faster ones drive it to the top
      of the range, slower ones to the bottom. */
  lemma CourseOfTime(history: seq<Stamp>, initial: nat, lo: int, hi: int)
    requires MIN_DIFFICULTY <= initial <= MAX_DIFFICULTY && WindowsLast(history, lo, hi)
    ensures var d, k := PlainDifficulty(history, BLOCK_TIME_SEC, initial), |history| / WINDOW;
            && (hi <= 3028000 ==> d == Toward(initial, 1, k))
            && (lo >= 4339942 ==> d == Toward(initial, -1, k))
            && (3085942 <= lo && hi <= 4282000 ==> d == initial)
  {
    hide Verdict;
    if hi <= 3028000 || lo >= 4339942 || (3085942 <= lo && hi <= 4282000) {
      var v := if hi <= 3028000 then 1 else if lo >= 4339942 then -1 else 0;
      forall n | WINDOW <= n <= |history| && WindowFull(n)
        ensures Verdict(WindowTo(history, n), BLOCK_TIME_SEC) == v
      {
        VerdictBounds(WindowTo(history, n), 0);
        VerdictIsSign(WindowTo(history, n), BLOCK_TIME_SEC);
      }
      SteadyCourse(history, BLOCK_TIME_SEC, initial, v);
    }
  }

  lemma VerdictIsSign(window: seq<Stamp>, blockTime: u64)
    ensures -1 <= Verdict(window, blockTime) <= 1
  {
  }

  /** A chain at the minimum period of the runtime, three minutes a window, climbs to the top of the
      range and stays there. */
  lemma TopDifficultyReached(history: seq<Stamp>, initial: nat)
    requires MIN_DIFFICULTY <= initial <= MAX_DIFFICULTY
    requires forall i | 0 <= i < |history| :: history[i].timestamp == MINIMUM_PERIOD * i
    ensures var d := initial + |history| / WINDOW;
            PlainDifficulty(history, BLOCK_TIME_SEC, initial) == if d < MAX_DIFFICULTY then d else MAX_DIFFICULTY
  {
    CourseOfTime(history, initial, 0, 3028000);
  }

  // ---------- the buffer between two retargets ----------

  /** The whole seconds from stamp to stamp. */
  function FloorSum(stamps: seq<Stamp>): nat {
    if |stamps| <= 1 then 0
    else FloorSum(stamps[..|stamps| - 1])
         + SaturatingSub(stamps[|stamps| - 1].timestamp, stamps[|stamps| - 2].timestamp) / 1000
  }

  /** The stamps of the open window, and those of the window before it that are still in the buffer. */
  function Young(history: seq<Stamp>): seq<Stamp> {
    history[|history| - |history| % WINDOW..]
  }

  function Old(history: seq<Stamp>): seq<Stamp> {
    if |history| < WINDOW then [] else history[|history| - WINDOW..|history| - |history| % WINDOW]
  }

  /** Which part a slot belongs to. */
  lemma SlotIs(history: seq<Stamp>, k: nat)
    requires k < WINDOW
    ensures var h, young, past := |history| % WINDOW, Young(history), Old(history);
            && |young| == h && |past| == (if |history| < WINDOW then 0 else WINDOW - h)
            && SlotAfter(history, k) == (if k < h then Some(young[k])
                                         else if |history| < WINDOW then None else Some(past[k - h]))
  {
  }

  lemma {:induction false} SpacedIsSorted(stamps: seq<Stamp>, i: nat, k: nat)
    requires Spaced(stamps, 0) && i <= k < |stamps|
    ensures stamps[i].timestamp <= stamps[k].timestamp
  {
    if i < k { SpacedIsSorted(stamps, i, k - 1); }
  }

  lemma SliceSpaced(stamps: seq<Stamp>, i: nat, k: nat)
    requires Spaced(stamps, 0) && i <= k <= |stamps|
    ensures Spaced(stamps[i..k], 0)
  {
    var part := stamps[i..k];
    forall l | 1 <= l < |part| ensures part[l - 1].timestamp <= part[l].timestamp {
      assert part[l - 1] == stamps[i + l - 1] && part[l] == stamps[i + l];
    }
  }

  lemma PartsSpaced(history: seq<Stamp>)
    requires Spaced(history, 0)
    ensures Spaced(Young(history), 0) && Spaced(Old(history), 0)
    ensures var young, past := Young(history), Old(history);
            young != [] && past != [] ==> past[0].timestamp <= young[|young| - 1].timestamp
  {
    hide Spaced;
    var n, h := |history|, |history| % WINDOW;
    assert Young(history) == history[n - h..n];
    SliceSpaced(history, n - h, n);
    if n >= WINDOW {
      SliceSpaced(history, n - WINDOW, n - h);
      SpacedIsSorted(history, n - WINDOW, n - 1);
    } else {
      assert Old(history) == history[0..0];
      SliceSpaced(history, 0, 0);
    }
  }

  /** k times the target. */
  function Targets(k: nat, blockTime: u64): nat {
    blockTime * k
  }

  lemma TargetsNext(k: nat, blockTime: u64)
    ensures Targets(k + 1, blockTime) == Targets(k, blockTime) + blockTime
    ensures k <= WINDOW ==> Targets(k, blockTime) <= 0x1_0000_0000_0000_0000 * WINDOW
    ensures Targets(0, blockTime) == 0
  {
    if k <= WINDOW { assert blockTime * WINDOW == blockTime * k + blockTime * (WINDOW - k); }
  }

  /** What the buffer adds up to: the seconds of the young stamps and of the old ones. Between the two
      lies the seam, which counts as nothing, because the buffer has the older stamp behind the younger
      one. Before the first window is full, every step into or between empty slots counts as the target. */
  function SeamSum(history: seq<Stamp>, blockTime: u64): nat {
    FloorSum(Young(history)) + FloorSum(Old(history))
    + if |history| >= WINDOW then 0
      else Targets(WINDOW - if history == [] then 1 else |history|, blockTime)
  }

  /** The share of the first m slots in it. */
  function SeamSumTo(history: seq<Stamp>, m: nat, blockTime: u64): nat
    requires 1 <= m <= WINDOW
  {
    var h := |history| % WINDOW;
    if m <= h then FloorSum(Young(history)[..m])
    else FloorSum(Young(history))
         + if |history| >= WINDOW then FloorSum(Old(history)[..m - h])
           else Targets(m - if history == [] then 1 else |history|, blockTime)
  }

  lemma {:induction false} FloorSumBound(stamps: seq<Stamp>)
    requires Spaced(stamps, 0) && |stamps| > 0
    ensures 1000 * FloorSum(stamps) <= stamps[|stamps| - 1].timestamp
  {
    if |stamps| > 1 { FloorSumBound(stamps[..|stamps| - 1]); }
  }

  lemma FloorSumNext(stamps: seq<Stamp>, m: nat, blockTime: u64)
    requires 2 <= m <= |stamps|
    ensures FloorSum(stamps[..m])
            == FloorSum(stamps[..m - 1]) + Delta(Some(stamps[m - 2]), Some(stamps[m - 1]), blockTime)
  {
    assert stamps[..m][..m - 1] == stamps[..m - 1];
  }

  lemma SeamCounts(x: Option<Stamp>, y: Option<Stamp>, blockTime: u64)
    ensures x.Some? && y.Some? && y.value.timestamp <= x.value.timestamp ==> Delta(x, y, blockTime) == 0
    ensures y.None? ==> Delta(x, y, blockTime) == blockTime
  {
  }

  /** The share of the first m slots, by the part the last of them belongs to. */
  lemma SeamSumAt(history: seq<Stamp>, m: nat, blockTime: u64)
    requires 1 <= m <= WINDOW
    ensures var h, young, past := |history| % WINDOW, Young(history), Old(history);
            && |young| == h && |past| == (if |history| < WINDOW then 0 else WINDOW - h)
            && (m <= h ==> SeamSumTo(history, m, blockTime) == FloorSum(young[..m]))
            && (m > h && |history| >= WINDOW ==>
                  SeamSumTo(history, m, blockTime) == FloorSum(young[..h]) + FloorSum(past[..m - h]))
            && (m > h && |history| < WINDOW ==>
                  && h == |history|
                  && SeamSumTo(history, m, blockTime)
                     == FloorSum(young[..h]) + Targets(m - (if h == 0 then 1 else h), blockTime))
  {
    hide FloorSum, Targets;
    var young := Young(history);
    assert young[..|young|] == young;
  }

  /** The step into slot m - 1. */
  lemma SeamStep(history: seq<Stamp>, m: nat, blockTime: u64)
    requires Spaced(history, 0) && 2 <= m <= WINDOW
    ensures SeamSumTo(history, m, blockTime)
            == SeamSumTo(history, m - 1, blockTime)
               + Delta(SlotAfter(history, m - 2), SlotAfter(history, m - 1), blockTime)
  {
    hide FloorSum, Targets, Young, Old, SlotAfter, Spaced, Delta, SeamSumTo;
    var h, young, past := |history| % WINDOW, Young(history), Old(history);
    SeamSumAt(history, m, blockTime);
    SeamSumAt(history, m - 1, blockTime);
    SlotIs(history, m - 2);
    SlotIs(history, m - 1);
    PartsSpaced(history);
    if m <= h {
      FloorSumNext(young, m, blockTime);
    } else if m - 1 > h && |history| >= WINDOW {
      FloorSumNext(past, m - h, blockTime);
    } else {
      SeamCounts(SlotAfter(history, m - 2), SlotAfter(history, m - 1), blockTime);
      if |history| < WINDOW {
        TargetsNext(m - 1 - (if h == 0 then 1 else h), blockTime);
      } else {
        OneStamp(past[..m - h]);
        if h == 0 { FloorSumNext(past, m, blockTime); }
      }
    }
  }

  lemma OneStamp(stamps: seq<Stamp>)
    requires |stamps| <= 1
    ensures FloorSum(stamps) == 0
  {
  }

  /** Nothing saturates. */
  lemma SeamFits(history: seq<Stamp>, m: nat, blockTime: u64)
    requires Spaced(history, 0) && 1 <= m <= WINDOW
    ensures SeamSumTo(history, m, blockTime) < TWO_128
  {
    hide FloorSum, Targets, Young, Old, Spaced;
    var h, young, past := |history| % WINDOW, Young(history), Old(history);
    SlotIs(history, m - 1);
    PartsSpaced(history);
    PartFits(young);
    if m <= h {
      SliceSpaced(young, 0, m);
      PartFits(young[..m]);
    } else if |history| >= WINDOW {
      SliceSpaced(past, 0, m - h);
      PartFits(past[..m - h]);
    } else {
      TargetsNext(m - if history == [] then 1 else |history|, blockTime);
    }
  }

  lemma PartFits(stamps: seq<Stamp>)
    requires Spaced(stamps, 0)
    ensures FloorSum(stamps) < 0x1_0000_0000_0000_0000
  {
    if stamps != [] { FloorSumBound(stamps); }
  }

  lemma {:induction false} SeamPrefix(history: seq<Stamp>, data: seq<Option<Stamp>>, m: nat, blockTime: u64)
    requires Spaced(history, 0) && |data| == WINDOW && 1 <= m <= WINDOW
    requires forall k | 0 <= k < WINDOW :: data[k] == SlotAfter(history, k)
    ensures SumTo(data, m, blockTime) == SeamSumTo(history, m, blockTime)
  {
    hide Delta, SlotAfter, SeamSumTo;
    if m == 1 {
      FirstSlot(history, blockTime);
    } else {
      SeamPrefix(history, data, m - 1, blockTime);
      SeamStep(history, m, blockTime);
      SeamFits(history, m, blockTime);
    }
  }

  lemma FirstSlot(history: seq<Stamp>, blockTime: u64)
    ensures SeamSumTo(history, 1, blockTime) == 0
  {
    var h := |history| % WINDOW;
    if h > 0 {
      OneStamp(Young(history)[..1]);
    } else {
      OneStamp(Young(history));
      TargetsNext(0, blockTime);
      if |history| >= WINDOW { OneStamp(Old(history)[..1]); }
    }
  }

  lemma SeamSumIs(history: seq<Stamp>, data: seq<Option<Stamp>>, blockTime: u64)
    requires Spaced(history, 0) && |data| == WINDOW
    requires forall k | 0 <= k < WINDOW :: data[k] == SlotAfter(history, k)
    ensures WindowSum(data, blockTime) == SeamSum(history, blockTime)
  {
    hide FloorSum, SlotAfter, Spaced;
    SeamPrefix(history, data, WINDOW, blockTime);
    if |history| >= WINDOW {
      var part := Old(history);
      assert part[..|part|] == part;
    } else {
      OneStamp(Old(history));
    }
  }

  /** The verdict on a window of timestamps that do not fall, for any target: sixty times the target
      against the whole seconds from stamp to stamp, or a second if there are none. */
  lemma VerdictIs(window: seq<Stamp>, blockTime: u64)
    requires FullWindow(window, 0)
    ensures var m := FloorSum(window);
            Verdict(window, blockTime) == Clamp(60 * blockTime, if m == 0 then 1 else m)
  {
    hide FloorSum, Clamp;
    SeamSumIs(window, Slots(window), blockTime);
    OneStamp(Young(window));
    assert Old(window) == window;
  }

  class Pallet {
    ghost const initial: nat
    const blockTime: u64
    const past: array<Option<Stamp>>
    var height: Option<nat>
    var current: Option<nat>
    /** All timestamps ever set, oldest first. */
    ghost var history: seq<Stamp>

    /** `difficulty().unwrap_or(DIFFICULTY_DEFAULT)`. */
    function InForce(): nat
      reads this
    {
      if current.Some? then current.value else INIT_DIFFICULTY
    }

    function Height(): nat
      reads this
    {
      if height.Some? then height.value else 0
    }

    /** The buffer and the pointer are those of the history, and the stamps of the open window carry
        the difficulty in force. */
    ghost predicate Valid()
      reads this, past
    {
      && past.Length == WINDOW
      && Height() == |history| % WINDOW
      && 1 <= InForce() < TWO_128 - 1
      && initial >= 1 && InForce() == PlainDifficulty(history, blockTime, initial)
      && (forall k | 0 <= k < WINDOW :: past[k] == SlotAfter(history, k))
      && (forall i | |history| - Height() <= i < |history| :: history[i].difficulty == InForce())
    }

    /** Genesis. */
    constructor (blockTime: u64, initial: Option<nat>)
      requires initial.Some? ==> 1 <= initial.value < TWO_128 - 1
      ensures Valid() && history == [] && current == initial && this.blockTime == blockTime
      ensures InForce() == if initial.Some? then initial.value else 56
    {
      this.blockTime := blockTime;
      this.initial := if initial.Some? then initial.value else INIT_DIFFICULTY;
      past := new Option<Stamp>[WINDOW](_ => None);
      height, current := None, initial;
      history := [];
    }

    /** `on_timestamp_set`. The history grows by one stamp; when that fills a window, the buffer holds
        exactly that window in order, all of it recorded with the difficulty in force, and the
        difficulty is adjusted by its verdict. */
    method OnTimestampSet(moment: u64)
      requires Valid()
      modifies this, past
      ensures Valid()
      ensures history == old(history) + [Stamp(old(InForce()), moment)]
      ensures !WindowFull(|history|) ==> current == old(current)
      ensures WindowFull(|history|) ==>
                && past[..] == Slots(LastWindow(history))
                && (forall k | 0 <= k < WINDOW :: LastWindow(history)[k].difficulty == old(InForce()))
                && current == Some(Adjusted(old(InForce()), Verdict(LastWindow(history), blockTime)))
    {
      hide SlotAfter, Clamp, Delta, SaturatingAdd, PlainDifficulty, WindowFull, LastWindow, Slots;
      var blockTimeWindow := blockTime * WINDOW;
      var currentHeight := Height();
      // The panic for a pointer out of bounds is unreachable.
      assert currentHeight < WINDOW;
      ghost var before := history;
      history := history + [Stamp(InForce(), moment)];
      PlainStep(before, history, blockTime, initial);
      NextSlot(before, history);
      if currentHeight == WINDOW - 1 {
        past[currentHeight] := Some(Stamp(InForce(), moment));
        BufferIsWindow(before, history, past[..]);
        AllRecorded(before, history, InForce());
        var tsDelta: u128 := 0;
        for i := 1 to WINDOW
          invariant tsDelta == SumTo(past[..], i, blockTime)
        {
          tsDelta := SaturatingAdd(tsDelta, Delta(past[i - 1], past[i], blockTime));
        }
        if tsDelta == 0 {
          tsDelta := 1;
        }
        var adjTs := Clamp(blockTimeWindow, tsDelta);
        var difficulty := InForce();
        if adjTs > 0 {
          difficulty := difficulty + CLAMP_FACTOR;
        } else if adjTs < 0 {
          difficulty := difficulty - CLAMP_FACTOR;
        }
        var difficultyFinal := difficulty;
        if difficulty < MIN_DIFFICULTY {
          difficultyFinal := MIN_DIFFICULTY;
        } else if difficulty > MAX_DIFFICULTY {
          difficultyFinal := MAX_DIFFICULTY;
        }
        height := Some(0);
        current := Some(difficultyFinal);
      } else {
        past[currentHeight] := Some(Stamp(InForce(), moment));
        height := Some(currentHeight + 1);
      }
    }

    /** `get_avg_blocktime`: a sixtieth of the same window sum, cut to 32 bits. Between two retargets, and
        for timestamps that do not fall, that sum is the one with the seam. */
    method GetAvgBlocktime() returns (avg: nat)
      requires Valid()
      ensures avg == (WindowSum(past[..], blockTime) / WINDOW) % 0x1_0000_0000
      ensures WindowFull(|history|) ==>
                avg == (WindowSum(Slots(LastWindow(history)), blockTime) / WINDOW) % 0x1_0000_0000
      ensures Spaced(history, 0) ==> avg == (SeamSum(history, blockTime) / WINDOW) % 0x1_0000_0000
    {
      hide Delta, SaturatingAdd, SlotAfter, SeamSum, Spaced, LastWindow, Slots;
      var tsDelta: u128 := 0;
      for i := 1 to WINDOW
        invariant tsDelta == SumTo(past[..], i, blockTime)
      {
        tsDelta := SaturatingAdd(tsDelta, Delta(past[i - 1], past[i], blockTime));
      }
      if WindowFull(|history|) { FullBuffer(history, past[..]); }
      if Spaced(history, 0) { SeamSumIs(history, past[..], blockTime); }
      return (tsDelta / WINDOW) % 0x1_0000_0000;
    }
  }

  /** One more stamp changes the slot at the pointer alone. */
  lemma NextSlot(before: seq<Stamp>, after: seq<Stamp>)
    requires |after| == |before| + 1 && before == after[..|before|]
    ensures WindowFull(|after|) <==> |before| % WINDOW == WINDOW - 1
    ensures |before| % WINDOW < WINDOW - 1 ==> |after| % WINDOW == |before| % WINDOW + 1
    ensures |before| % WINDOW == WINDOW - 1 ==> |after| % WINDOW == 0
    ensures forall k | 0 <= k < WINDOW ::
              SlotAfter(after, k)
              == if k == |before| % WINDOW then Some(after[|before|]) else SlotAfter(before, k)
  {
  }

  /** After a multiple of 60 stamps the buffer is the last window. */
  lemma FullBuffer(history: seq<Stamp>, data: seq<Option<Stamp>>)
    requires WindowFull(|history|) && |data| == WINDOW
    requires forall k | 0 <= k < WINDOW :: data[k] == SlotAfter(history, k)
    ensures |history| >= WINDOW && data == Slots(LastWindow(history))
  {
  }

  /** The window that is now full was recorded with one difficulty. */
  lemma AllRecorded(before: seq<Stamp>, after: seq<Stamp>, difficulty: nat)
    requires |after| == |before| + 1 && before == after[..|before|] && |before| % WINDOW == WINDOW - 1
    requires forall i | |before| - (WINDOW - 1) <= i < |before| :: before[i].difficulty == difficulty
    requires after[|before|].difficulty == difficulty
    ensures |after| >= WINDOW && forall k | 0 <= k < WINDOW :: LastWindow(after)[k].difficulty == difficulty
  {
  }

  lemma BufferIsWindow(before: seq<Stamp>, after: seq<Stamp>, data: seq<Option<Stamp>>)
    requires |after| == |before| + 1 && before == after[..|before|] && |data| == WINDOW
    requires |before| % WINDOW == WINDOW - 1 && data[WINDOW - 1] == Some(after[|before|])
    requires forall k | 0 <= k < WINDOW - 1 :: data[k] == SlotAfter(before, k)
    ensures WindowFull(|after|)
    ensures forall k | 0 <= k < WINDOW :: data[k] == SlotAfter(after, k)
    ensures data == Slots(LastWindow(after))
  {
    NextSlot(before, after);
    FullBuffer(after, data);
  }
}
