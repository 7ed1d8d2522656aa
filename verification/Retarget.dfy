/** The arithmetic of the difficulty retarget: the window sum of whole seconds, the three-way
    verdict, and the bounded step. `log2((T / m)^2).round()` is idealised exactly in integers. */
module Retarget {
  import opened Wrappers
  import opened Bytes
  import opened Constants

  const WINDOW: nat := DIFFICULTY_ADJUST_WINDOW

  type u64 = x: nat | x < 0x1_0000_0000_0000_0000

  /** A past timestamp in milliseconds, with the difficulty in force when it was recorded. */
  datatype Stamp = Stamp(difficulty: nat, timestamp: u64)

  function Fourth(x: nat): nat {
    x * x * (x * x)
  }

  /** `clamp`: the sign of round(2 log2(target / measured)). Rounding reaches 1 when the square of
      the ratio is at least the square root of 2, that is target^4 >= 2 * measured^4. */
  function Clamp(target: nat, measured: nat): int {
    if Fourth(target) >= 2 * Fourth(measured) then CLAMP_FACTOR
    else if Fourth(measured) >= 2 * Fourth(target) then -CLAMP_FACTOR
    else 0
  }

  function SaturatingAdd(x: u128, y: u128): u128 {
    if x + y < TWO_128 then x + y else TWO_128 - 1
  }

  function SaturatingSub(x: nat, y: nat): nat {
    if x >= y then x - y else 0
  }

  /** Whole seconds between neighbouring slots; the target when a slot is empty. */
  function Delta(prev: Option<Stamp>, cur: Option<Stamp>, blockTime: u64): u128 {
    if prev.Some? && cur.Some? then SaturatingSub(cur.value.timestamp, prev.value.timestamp) / 1000 else blockTime
  }

  /** The saturating sum of the deltas of the first n slots. */
  function SumTo(data: seq<Option<Stamp>>, n: nat, blockTime: u64): u128
    requires n <= |data|
  {
    if n <= 1 then 0
    else SaturatingAdd(SumTo(data, n - 1, blockTime), Delta(data[n - 2], data[n - 1], blockTime))
  }

  function WindowSum(data: seq<Option<Stamp>>, blockTime: u64): u128 {
    SumTo(data, |data|, blockTime)
  }

  /** The measured time, at least one second. */
  function Measured(data: seq<Option<Stamp>>, blockTime: u64): nat {
    if WindowSum(data, blockTime) == 0 then 1 else WindowSum(data, blockTime)
  }

  /** The difficulty after a retarget. */
  function Adjusted(difficulty: nat, verdict: int): nat
    requires difficulty >= CLAMP_FACTOR
  {
    var d := if verdict > 0 then difficulty + CLAMP_FACTOR
             else if verdict < 0 then difficulty - CLAMP_FACTOR
             else difficulty;
    if d < MIN_DIFFICULTY then MIN_DIFFICULTY else if d > MAX_DIFFICULTY then MAX_DIFFICULTY else d
  }

  /** The slots of a full window. */
  function Slots(window: seq<Stamp>): (data: seq<Option<Stamp>>)
    ensures |data| == |window|
  {
    seq(|window|, i requires 0 <= i < |window| => Some(window[i]))
  }

  /** The verdict on a full window. */
  function Verdict(window: seq<Stamp>, blockTime: u64): int {
    Clamp(blockTime * WINDOW, Measured(Slots(window), blockTime))
  }

  // ---------- the controller ----------

  /** Whatever the verdict, the result is in range, and from a difficulty in range it moves by at
      most one, in the direction of the verdict unless it is at the end of the range. */
  lemma AdjustedBounds(difficulty: nat, verdict: int)
    requires difficulty >= CLAMP_FACTOR
    ensures var d := Adjusted(difficulty, verdict);
            && 48 <= d <= 224
            && (48 <= difficulty <= 224 ==>
                  && difficulty - 1 <= d <= difficulty + 1
                  && (d > difficulty <==> verdict > 0 && difficulty < 224)
                  && (d < difficulty <==> verdict < 0 && difficulty > 48))
  {
  }

  lemma FourthMonotone(x: nat, y: nat)
    requires x <= y
    ensures Fourth(x) <= Fourth(y)
    ensures x < y ==> Fourth(x) < Fourth(y)
  {
    SquareMonotone(x, y);
    SquareMonotone(x * x, y * y);
  }

  lemma SquareMonotone(x: nat, y: nat)
    requires x <= y
    ensures x * x <= y * y
    ensures x < y ==> x * x < y * y
  {
    var d := y - x;
    assert (x + d) * (x + d) == x * x + 2 * (x * d) + d * d;
  }

  /** The longer the window took, the lower the verdict. */
  lemma ClampMonotone(target: nat, m: nat, m': nat)
    requires m <= m' && m > 0
    ensures Clamp(target, m') <= Clamp(target, m)
  {
    FourthMonotone(m, m');
  }

  lemma FourthScales(k: nat, x: nat)
    ensures Fourth(k * x) == Fourth(k) * Fourth(x)
  {
    assert (k * x) * (k * x) == (k * k) * (x * x);
    var u, v := k * k, x * x;
    assert (u * v) * (u * v) == (u * u) * (v * v);
  }

  /** Only the ratio of target and measured time matters, and swapping them swaps the verdict. */
  lemma ClampOfRatio(target: nat, m: nat, k: nat)
    requires target > 0 && m > 0 && k > 0
    ensures Clamp(k * target, k * m) == Clamp(target, m)
    ensures Clamp(m, target) == -Clamp(target, m)
  {
    hide Fourth;
    FourthPositive(k);
    FourthPositive(m);
    FourthPositive(target);
    FourthScales(k, target);
    FourthScales(k, m);
    KeepOrder(Fourth(k), Fourth(target), 2 * Fourth(m));
    KeepOrder(Fourth(k), Fourth(m), 2 * Fourth(target));
  }

  lemma FourthPositive(x: nat)
    requires x > 0
    ensures Fourth(x) > 0
  {
    FourthMonotone(0, x);
  }

  lemma KeepOrder(c: nat, x: nat, y: nat)
    requires c > 0
    ensures c * x >= c * y <==> x >= y
  {
    if x >= y { assert c * x == c * y + c * (x - y); } else { assert c * y == c * x + c * (y - x); }
  }

  /** The two thresholds for the target of an hour. */
  lemma HourThresholds(m: nat)
    requires m > 0
    ensures Clamp(BLOCK_TIME_SEC * WINDOW, m) > 0 <==> m <= 3027
    ensures Clamp(BLOCK_TIME_SEC * WINDOW, m) < 0 <==> m >= 4282
  {
    if m <= 3027 { FourthMonotone(m, 3027); } else { FourthMonotone(3028, m); }
    if m <= 4281 { FourthMonotone(m, 4281); } else { FourthMonotone(4282, m); }
  }

  // ---------- from elapsed time to the verdict ----------

  /** Neighbouring timestamps are at least gap milliseconds apart. */
  predicate Spaced(window: seq<Stamp>, gap: nat) {
    forall i | 1 <= i < |window| :: window[i - 1].timestamp + gap <= window[i].timestamp
  }

  predicate FullWindow(window: seq<Stamp>, gap: nat) {
    |window| == WINDOW && Spaced(window, gap)
  }

  function Elapsed(window: seq<Stamp>): int
    requires |window| > 0
  {
    window[|window| - 1].timestamp - window[0].timestamp
  }

  /** Flooring every delta loses at most 999 milliseconds each, and nothing saturates. */
  lemma {:induction false} SumOfFloors(window: seq<Stamp>, n: nat, gap: nat, blockTime: u64)
    requires 1 <= n <= |window| && Spaced(window, gap)
    ensures var e, m := window[n - 1].timestamp - window[0].timestamp, SumTo(Slots(window), n, blockTime);
            0 <= e && 1000 * m <= e <= 1000 * m + 999 * (n - 1)
  {
    if n > 1 {
      SumOfFloors(window, n - 1, gap, blockTime);
    }
  }

  /** E / 1000 - 59 < m <= E / 1000 for the elapsed milliseconds E of a full window. */
  lemma WindowBounds(window: seq<Stamp>, blockTime: u64)
    requires FullWindow(window, 0)
    ensures var e, m := Elapsed(window) as real, WindowSum(Slots(window), blockTime) as real;
            e / 1000.0 - 59.0 < m <= e / 1000.0
  {
    SumOfFloors(window, WINDOW, 0, blockTime);
  }

  /** What the elapsed time alone says about the verdict. */
  lemma VerdictBounds(window: seq<Stamp>, gap: nat)
    requires FullWindow(window, gap)
    ensures var e, v := Elapsed(window), Verdict(window, BLOCK_TIME_SEC);
            && (e < 3028000 ==> v > 0) && (e >= 3085942 ==> v <= 0)
            && (e < 4282000 ==> v >= 0) && (e >= 4339942 ==> v < 0)
  {
    hide Clamp, SumTo;
    SumOfFloors(window, WINDOW, gap, BLOCK_TIME_SEC);
    HourThresholds(Measured(Slots(window), BLOCK_TIME_SEC));
  }

  lemma StepsBelow(k: nat, step: nat)
    requires k < WINDOW
    ensures 0 <= k * step <= (WINDOW - 1) * step
    ensures (k + 1) * step == k * step + step
  {
    assert (WINDOW - 1) * step == k * step + (WINDOW - 1 - k) * step;
  }

  /** Equal steps, and the rest of the time before them: with steps of whole seconds the sum is the
      floor of the whole. */
  function Even(e: u64, step: nat): (window: seq<Stamp>)
    requires e >= (WINDOW - 1) * step
  {
    seq(WINDOW, i requires 0 <= i < WINDOW => EvenStamp(e, step, WINDOW - 1 - i))
  }

  /** The stamp before the last k steps. */
  function EvenStamp(e: u64, step: nat, k: nat): Stamp
    requires e >= (WINDOW - 1) * step && k < WINDOW
  {
    StepsBelow(k, step);
    Stamp(0, if k == WINDOW - 1 then 0 else e - k * step)
  }

  lemma EvenNext(e: u64, step: nat, k: nat)
    requires e >= (WINDOW - 1) * step && k < WINDOW - 1
    ensures EvenStamp(e, step, k + 1).timestamp + step <= EvenStamp(e, step, k).timestamp
    ensures k < WINDOW - 2 ==> EvenStamp(e, step, k + 1).timestamp + step == EvenStamp(e, step, k).timestamp
    ensures k == 0 ==> EvenStamp(e, step, k).timestamp == e
    ensures EvenStamp(e, step, WINDOW - 1).timestamp == 0
  {
    StepsBelow(k, step);
  }

  lemma EvenIsFull(e: u64, step: nat)
    requires e >= (WINDOW - 1) * step
    ensures FullWindow(Even(e, step), step) && Elapsed(Even(e, step)) == e
  {
    hide EvenStamp;
    var w := Even(e, step);
    EvenNext(e, step, 0);
    forall i | 1 <= i < WINDOW ensures w[i - 1].timestamp + step <= w[i].timestamp {
      EvenNext(e, step, WINDOW - 1 - i);
    }
  }

  /** The last slot adds the whole seconds since the one before it. */
  lemma NextSum(window: seq<Stamp>, n: nat, blockTime: u64)
    requires 2 <= n <= |window| && window[n - 2].timestamp <= window[n - 1].timestamp
    ensures SumTo(Slots(window), n, blockTime)
            == SaturatingAdd(SumTo(Slots(window), n - 1, blockTime),
                             (window[n - 1].timestamp - window[n - 2].timestamp) / 1000)
    ensures SumTo(Slots(window), 1, blockTime) == 0
  {
  }

  lemma {:induction false} EvenSum(e: u64, n: nat, blockTime: u64)
    requires e >= (WINDOW - 1) * MINIMUM_PERIOD && 2 <= n <= WINDOW
    ensures SumTo(Slots(Even(e, MINIMUM_PERIOD)), n, blockTime) == e / 1000 - 3 * (WINDOW - n)
  {
    hide SumTo, EvenStamp;
    var w := Even(e, MINIMUM_PERIOD);
    EvenNext(e, MINIMUM_PERIOD, WINDOW - n);
    if n == 2 {
      assert w[1].timestamp == e - (WINDOW - 2) * MINIMUM_PERIOD by { EvenSecond(e); }
    } else {
      EvenSum(e, n - 1, blockTime);
    }
    NextSum(w, n, blockTime);
  }

  lemma EvenSecond(e: u64)
    requires e >= (WINDOW - 1) * MINIMUM_PERIOD
    ensures EvenStamp(e, MINIMUM_PERIOD, WINDOW - 2).timestamp == e - (WINDOW - 2) * MINIMUM_PERIOD
  {
  }

  /** 58 steps of 3999 milliseconds, which count for 3 seconds each, and the rest of the time in the
      last. */
  function Ragged(e: u64): (window: seq<Stamp>)
    requires e >= 234942
    ensures FullWindow(window, MINIMUM_PERIOD) && Elapsed(window) == e
  {
    seq(WINDOW, i requires 0 <= i < WINDOW => Stamp(0, if i < WINDOW - 1 then 3999 * i else e))
  }

  lemma {:induction false} RaggedSum(e: u64, n: nat, blockTime: u64)
    requires e >= 234942 && 1 <= n <= WINDOW
    ensures SumTo(Slots(Ragged(e)), n, blockTime) == if n < WINDOW then 3 * (n - 1) else (e - 57942) / 1000
  {
    hide SumTo;
    var w := Ragged(e);
    if n > 1 {
      RaggedSum(e, n - 1, blockTime);
      NextSum(w, n, blockTime);
    } else {
      NextSum(w, 2, blockTime);
    }
  }

  /** The verdicts on the two extreme splits: measured in full, and short by 57942 milliseconds. */
  lemma ExtremeVerdicts(e: u64)
    requires e >= 234942
    ensures Verdict(Even(e, MINIMUM_PERIOD), BLOCK_TIME_SEC) == Clamp(BLOCK_TIME_SEC * WINDOW, e / 1000)
    ensures Verdict(Ragged(e), BLOCK_TIME_SEC) == Clamp(BLOCK_TIME_SEC * WINDOW, (e - 57942) / 1000)
  {
    hide Clamp, SumTo;
    EvenSum(e, WINDOW, BLOCK_TIME_SEC);
    RaggedSum(e, WINDOW, BLOCK_TIME_SEC);
  }

  /** For timestamps any gap apart, up to the minimum period of the runtime: the difficulty is raised
      however the elapsed time is split, exactly below 3 028 000 ms. */
  lemma RaisedForEverySplit(e: u64, gap: nat)
    requires gap <= MINIMUM_PERIOD && e >= (WINDOW - 1) * gap
    ensures (forall w: seq<Stamp> | FullWindow(w, gap) && Elapsed(w) == e :: Verdict(w, BLOCK_TIME_SEC) > 0)
            <==> e < 3028000
  {
    hide Verdict, Even;
    forall w: seq<Stamp> | FullWindow(w, gap) && Elapsed(w) == e
      ensures e < 3028000 ==> Verdict(w, BLOCK_TIME_SEC) > 0
    {
      VerdictBounds(w, gap);
    }
    if e >= 3028000 {
      EvenIsFull(e, MINIMUM_PERIOD);
      ExtremeVerdicts(e);
      HourThresholds(e / 1000);
      assert FullWindow(Even(e, MINIMUM_PERIOD), gap);
    }
  }

  /** It is lowered however the time is split exactly from 4 339 942 ms on. */
  lemma LoweredForEverySplit(e: u64, gap: nat)
    requires gap <= MINIMUM_PERIOD && e >= (WINDOW - 1) * gap
    ensures (forall w: seq<Stamp> | FullWindow(w, gap) && Elapsed(w) == e :: Verdict(w, BLOCK_TIME_SEC) < 0)
            <==> e >= 4339942
  {
    hide Verdict, Even, Ragged;
    forall w: seq<Stamp> | FullWindow(w, gap) && Elapsed(w) == e
      ensures e >= 4339942 ==> Verdict(w, BLOCK_TIME_SEC) < 0
    {
      VerdictBounds(w, gap);
    }
    if e < 4282000 {
      EvenIsFull(e, gap);
      VerdictBounds(Even(e, gap), gap);
    } else if e < 4339942 {
      ExtremeVerdicts(e);
      HourThresholds((e - 57942) / 1000);
      assert FullWindow(Ragged(e), gap);
    }
  }

  /** And it is kept however the time is split exactly in between. */
  lemma KeptForEverySplit(e: u64, gap: nat)
    requires gap <= MINIMUM_PERIOD && e >= (WINDOW - 1) * gap
    ensures (forall w: seq<Stamp> | FullWindow(w, gap) && Elapsed(w) == e :: Verdict(w, BLOCK_TIME_SEC) == 0)
            <==> 3085942 <= e < 4282000
  {
    hide Verdict, Even, Ragged;
    forall w: seq<Stamp> | FullWindow(w, gap) && Elapsed(w) == e
      ensures 3085942 <= e < 4282000 ==> Verdict(w, BLOCK_TIME_SEC) == 0
    {
      VerdictBounds(w, gap);
    }
    if e < 3028000 || e >= 4339942 {
      EvenIsFull(e, gap);
      VerdictBounds(Even(e, gap), gap);
    } else if e < 3085942 {
      ExtremeVerdicts(e);
      HourThresholds((e - 57942) / 1000);
      assert FullWindow(Ragged(e), gap);
    } else if e >= 4282000 {
      EvenIsFull(e, MINIMUM_PERIOD);
      ExtremeVerdicts(e);
      HourThresholds(e / 1000);
      assert FullWindow(Even(e, MINIMUM_PERIOD), gap);
    }
  }
}
