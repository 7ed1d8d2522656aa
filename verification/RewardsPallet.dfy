/** The rewards pallet: a stored reward that the hooks update block by block from a map of changes.
    Over every run with rising block numbers it is a piecewise-constant schedule. */
module RewardsPallet {
  import opened Wrappers

  type Block = nat
  type Balance = nat
  type Account = nat

  datatype Event = ScheduleSet | RewardChanged(reward: Balance)
  datatype Outcome = Ok | BadOrigin | RewardTooLow

  // ---------- the change map ----------

  /** The keys up to n in ascending order, as a range over the map visits them. */
  function KeysUpTo(m: map<Block, Balance>, n: nat): (keys: seq<Block>)
    ensures forall k :: k in keys <==> k in m && k <= n
    ensures forall i, j | 0 <= i < j < |keys| :: keys[i] < keys[j]
  {
    var lower := if n == 0 then [] else KeysUpTo(m, n - 1);
    assert forall i | 0 <= i < |lower| :: lower[i] in lower;
    lower + if n in m then [n] else []
  }

  /** The greatest key up to n. */
  function LastKey(m: map<Block, Balance>, n: nat): (r: Option<Block>)
    ensures r.Some? ==> r.value in m && r.value <= n && forall k | k in m && k <= n :: k <= r.value
    ensures r.None? ==> forall k | k in m :: k > n
  {
    if n in m then Some(n) else if n == 0 then None else LastKey(m, n - 1)
  }

  /** The change in force at block n: that of the greatest key up to n. */
  function ChangeAt(m: map<Block, Balance>, n: nat): Option<Balance> {
    match LastKey(m, n)
    case None => None
    case Some(k) => Some(m[k])
  }

  lemma ChangeIsLastVisited(m: map<Block, Balance>, n: nat)
    ensures var keys := KeysUpTo(m, n);
            ChangeAt(m, n) == if keys == [] then None else Some(m[keys[|keys| - 1]])
  {
    hide KeysUpTo, LastKey;
    var keys, last := KeysUpTo(m, n), LastKey(m, n);
    if keys == [] {
      assert forall k | k in m && k <= n :: k in keys;
    } else {
      var k := keys[|keys| - 1];
      assert k in keys && last.Some? && last.value in keys;
    }
  }

  /** `BTreeMap::from_iter`: later pairs replace earlier ones. */
  function FromIter(pairs: seq<(Block, Balance)>): map<Block, Balance> {
    if pairs == [] then map[] else FromIter(pairs[..|pairs| - 1])[pairs[|pairs| - 1].0 := pairs[|pairs| - 1].1]
  }

  /** The i-th pair is the last one for its block. */
  predicate LastForBlock(pairs: seq<(Block, Balance)>, i: nat) {
    i < |pairs| && forall j | i < j < |pairs| :: pairs[j].0 != pairs[i].0
  }

  lemma LastSnoc(pairs: seq<(Block, Balance)>, i: nat)
    requires pairs != [] && i < |pairs|
    ensures var n := |pairs| - 1;
            if i == n then LastForBlock(pairs, i)
            else LastForBlock(pairs, i) <==> LastForBlock(pairs[..n], i) && pairs[n].0 != pairs[i].0
  {
  }

  /** The schedule holds exactly the last pairs. */
  lemma {:induction false} FromIterHolds(pairs: seq<(Block, Balance)>, block: Block, reward: Balance)
    ensures block in FromIter(pairs) && FromIter(pairs)[block] == reward
            <==> exists i: nat :: LastForBlock(pairs, i) && pairs[i] == (block, reward)
  {
    if pairs != [] {
      var n := |pairs| - 1;
      var before := pairs[..n];
      FromIterHolds(before, block, reward);
      LastSnoc(pairs, n);
      if pairs[n].0 == block {
        forall i: nat | LastForBlock(pairs, i) && pairs[i] == (block, reward) ensures i == n { LastSnoc(pairs, i); }
        if pairs[n].1 == reward { assert LastForBlock(pairs, n) && pairs[n] == (block, reward); }
      } else {
        OlderPair(pairs, block, reward);
      }
    }
  }

  lemma LastInBounds(pairs: seq<(Block, Balance)>)
    ensures forall i: nat | LastForBlock(pairs, i) :: i < |pairs|
  {
  }

  lemma OlderPair(pairs: seq<(Block, Balance)>, block: Block, reward: Balance)
    requires pairs != [] && pairs[|pairs| - 1].0 != block
    ensures var before := pairs[..|pairs| - 1];
            (exists i: nat :: LastForBlock(pairs, i) && pairs[i] == (block, reward))
            <==> (exists i: nat :: LastForBlock(before, i) && before[i] == (block, reward))
  {
    hide LastForBlock;
    LastInBounds(pairs);
    LastInBounds(pairs[..|pairs| - 1]);
    var before := pairs[..|pairs| - 1];
    if i: nat :| LastForBlock(before, i) && before[i] == (block, reward) {
      LastSnoc(pairs, i);
      assert LastForBlock(pairs, i) && pairs[i] == (block, reward);
    }
    if i: nat :| LastForBlock(pairs, i) && pairs[i] == (block, reward) {
      LastSnoc(pairs, i);
      assert LastForBlock(before, i) && before[i] == (block, reward);
    }
  }

  function MapOf(changes: Option<map<Block, Balance>>): map<Block, Balance> {
    if changes.Some? then changes.value else map[]
  }

  lemma Stored(changes: Option<map<Block, Balance>>, k: Block)
    requires k in MapOf(changes)
    ensures changes.Some?
  {
  }

  // ---------- the stored items ----------

  /** A snapshot of the storage, the events and the deposits made. */
  datatype Ledger = Ledger(author: Option<Account>, reward: Option<Balance>,
                           changes: Option<map<Block, Balance>>,
                           events: seq<Event>, deposits: seq<(Account, Balance)>)

  datatype Call =
    | Initialize(now: Block, digest: Option<Account>)
    | SetSchedule(root: bool, base: Balance, pairs: seq<(Block, Balance)>)
    | Finalize(now: Block)

  function Announce(m: map<Block, Balance>, keys: seq<Block>): seq<Event>
    requires forall k | k in keys :: k in m
  {
    seq(|keys|, i requires 0 <= i < |keys| => RewardChanged(m[keys[i]]))
  }

  /** Everything in the schedule is at least the minimum balance. */
  predicate Payable(minimum: Balance, base: Balance, pairs: seq<(Block, Balance)>) {
    base >= minimum && forall k | k in FromIter(pairs) :: FromIter(pairs)[k] >= minimum
  }

  /** A schedule is rejected for a base reward, or for a change that is the last for its block, below the
      minimum balance, and for nothing else. */
  lemma PayableIff(minimum: Balance, base: Balance, pairs: seq<(Block, Balance)>)
    ensures Payable(minimum, base, pairs)
            <==> base >= minimum && forall i: nat | LastForBlock(pairs, i) :: pairs[i].1 >= minimum
  {
    hide FromIter;
    if Payable(minimum, base, pairs) {
      forall i: nat | LastForBlock(pairs, i) ensures pairs[i].1 >= minimum {
        FromIterHolds(pairs, pairs[i].0, pairs[i].1);
      }
    } else if k :| k in FromIter(pairs) && FromIter(pairs)[k] < minimum {
      FromIterHolds(pairs, k, FromIter(pairs)[k]);
    }
  }

  /** What each call does to the storage. */
  function Apply(minimum: Balance, s: Ledger, call: Call): Ledger {
    match call
    case Initialize(now, digest) =>
      var m := MapOf(s.changes);
      s.(author := if digest.Some? then digest else s.author,
         reward := if ChangeAt(m, now).Some? then ChangeAt(m, now) else s.reward,
         events := s.events + Announce(m, KeysUpTo(m, now)))
    case SetSchedule(root, base, pairs) =>
      if root && Payable(minimum, base, pairs) then
        s.(reward := Some(base), changes := Some(FromIter(pairs)),
           events := s.events + [RewardChanged(base), ScheduleSet])
      else s
    case Finalize(now) =>
      s.(author := None,
         deposits := s.deposits + if s.author.None? then []
                                  else [(s.author.value, if s.reward.Some? then s.reward.value else 0)])
  }

  lemma AnnounceNext(m: map<Block, Balance>, keys: seq<Block>, k: Block)
    requires k in m && forall l | l in keys :: l in m
    ensures forall l | l in keys + [k] :: l in m
    ensures Announce(m, keys + [k]) == Announce(m, keys) + [RewardChanged(m[k])]
  {
  }

  lemma AnnounceLength(m: map<Block, Balance>, keys: seq<Block>)
    requires forall k | k in keys :: k in m
    ensures forall i | 0 <= i < |keys| && i < |Announce(m, keys)| ::
              keys[i] in m && Announce(m, keys)[i] == RewardChanged(m[keys[i]])
    ensures |Announce(m, keys)| == |keys| && (keys == [] <==> |keys| == 0)
  {
  }

  lemma NothingAnnounced(m: map<Block, Balance>)
    ensures Announce(m, []) == []
  {
  }

  /** A block begun announces the reward of every change up to it, in the order of the blocks. */
  lemma ChangesAnnounced(minimum: Balance, s: Ledger, now: Block, digest: Option<Account>)
    ensures var t, m := Apply(minimum, s, Initialize(now, digest)), MapOf(s.changes);
            var keys := KeysUpTo(m, now);
            && |t.events| == |s.events| + |keys| && t.events[..|s.events|] == s.events
            && forall i | 0 <= i < |keys| :: keys[i] in m && t.events[|s.events| + i] == RewardChanged(m[keys[i]])
  {
    hide KeysUpTo, Announce, ChangeAt;
    AnnounceLength(MapOf(s.changes), KeysUpTo(MapOf(s.changes), now));
  }

  /** `range` over the map: the keys it visits. */
  function Visited(m: map<Block, Balance>, now: Block): seq<Block> {
    KeysUpTo(m, now)
  }

  /** What `on_initialize` amounts to, by the keys it visits. */
  lemma InitializeIs(minimum: Balance, s: Ledger, now: Block, digest: Option<Account>)
    ensures var m := MapOf(s.changes);
            var keys := Visited(m, now);
            && (forall k | k in keys :: k in m)
            && Apply(minimum, s, Initialize(now, digest))
               == Ledger(if digest.Some? then digest else s.author,
                         if keys == [] then s.reward else Some(m[keys[|keys| - 1]]),
                         s.changes, s.events + Announce(m, keys), s.deposits)
  {
    hide KeysUpTo, ChangeAt, MapOf, Announce;
    ChangeIsLastVisited(MapOf(s.changes), now);
  }

  class Pallet {
    const minimum: Balance
    var author: Option<Account>
    var reward: Option<Balance>
    var changes: Option<map<Block, Balance>>
    var events: seq<Event>
    var deposits: seq<(Account, Balance)>

    function View(): Ledger
      reads this
    {
      Ledger(author, reward, changes, events, deposits)
    }

    /** Genesis. */
    constructor (minimum: Balance, rewards: Balance)
      ensures this.minimum == minimum && View() == Ledger(None, Some(rewards), None, [], [])
    {
      this.minimum := minimum;
      author, reward, changes, events, deposits := None, Some(rewards), None, [], [];
    }

    /** `on_initialize`: every change up to now is applied in order. The entries are then removed from
        copies of the map, so the stored map stays as it is. */
    method OnInitialize(now: Block, digest: Option<Account>)
      modifies this
      ensures View() == Apply(minimum, old(View()), Initialize(now, digest))
      ensures author == if digest.Some? then digest else old(author)
    {
      hide Visited, ChangeAt, MapOf, Announce, Apply;
      InitializeIs(minimum, View(), now, digest);
      if digest.Some? {
        author := digest;
      }
      var range := MapOf(changes);
      var keys := Visited(range, now);
      NothingAnnounced(range);
      var removing: seq<Block> := [];
      for i := 0 to |keys|
        invariant changes == old(changes)
        invariant author == if digest.Some? then digest else old(author)
        invariant deposits == old(deposits)
        invariant reward == if i == 0 then old(reward) else Some(range[keys[i - 1]])
        invariant removing == keys[..i] && forall k | k in removing :: k in range
        invariant events == old(events) + Announce(range, removing)
      {
        assert keys[i] in keys;
        AnnounceNext(range, removing, keys[i]);
        reward := Some(range[keys[i]]);
        removing := removing + [keys[i]];
        events := events + [RewardChanged(range[keys[i]])];
      }
      assert keys[..|keys|] == keys;
      for i := 0 to |removing|
        modifies {}
      {
        assert removing[i] in keys;
        Stored(changes, removing[i]);
        var clone := changes.value;
        clone := clone - {removing[i]};
      }
    }

    /** `set_schedule`: a rejected call changes nothing. */
    method SetSchedule(root: bool, base: Balance, pairs: seq<(Block, Balance)>) returns (r: Outcome)
      modifies this
      ensures View() == Apply(minimum, old(View()), Call.SetSchedule(root, base, pairs))
      ensures r == if !root then BadOrigin else if Payable(minimum, base, pairs) then Ok else RewardTooLow
      ensures r == Ok ==> reward == Some(base) && events == old(events) + [RewardChanged(base), ScheduleSet]
    {
      if !root {
        return BadOrigin;
      }
      var newChanges := FromIter(pairs);
      if base < minimum {
        return RewardTooLow;
      }
      var keys := newChanges.Keys;
      while keys != {}
        invariant keys <= newChanges.Keys
        invariant forall k | k in newChanges && k !in keys :: newChanges[k] >= minimum
        invariant View() == old(View())
      {
        var k :| k in keys;
        if newChanges[k] < minimum {
          return RewardTooLow;
        }
        keys := keys - {k};
      }
      reward := Some(base);
      events := events + [RewardChanged(base)];
      changes := Some(newChanges);
      events := events + [ScheduleSet];
      return Ok;
    }

    /** `on_finalize`: the author, if any, is paid the stored reward. */
    method OnFinalize(now: Block)
      modifies this
      ensures View() == Apply(minimum, old(View()), Finalize(now))
    {
      if author.Some? {
        deposits := deposits + [(author.value, if reward.Some? then reward.value else 0)];
      }
      author := None;
    }
  }

  // ---------- the schedule over a run ----------

  function Genesis(rewards: Balance): Ledger {
    Ledger(None, Some(rewards), None, [], [])
  }

  function Run(minimum: Balance, rewards: Balance, calls: seq<Call>): Ledger {
    if calls == [] then Genesis(rewards)
    else Apply(minimum, Run(minimum, rewards, calls[..|calls| - 1]), calls[|calls| - 1])
  }

  /** The latest accepted schedule, and the last block begun under it. */
  datatype Plan = Plan(base: Balance, changes: map<Block, Balance>, begun: Option<Block>)

  function PlanAfter(minimum: Balance, rewards: Balance, calls: seq<Call>): Plan {
    if calls == [] then Plan(rewards, map[], None)
    else
      var plan := PlanAfter(minimum, rewards, calls[..|calls| - 1]);
      match calls[|calls| - 1]
      case Initialize(now, _) => plan.(begun := Some(now))
      case SetSchedule(root, base, pairs) =>
        if root && Payable(minimum, base, pairs) then Plan(base, FromIter(pairs), None) else plan
      case Finalize(_) => plan
  }

  /** The change at the greatest key up to the block begun, else the base reward. */
  function Due(plan: Plan): Balance {
    match plan.begun
    case None => plan.base
    case Some(now) =>
      match ChangeAt(plan.changes, now)
      case None => plan.base
      case Some(reward) => reward
  }

  /** Blocks are begun in rising order. */
  predicate Rising(calls: seq<Call>) {
    forall i, j | 0 <= i < j < |calls| && calls[i].Initialize? && calls[j].Initialize? ::
      calls[i].now <= calls[j].now
  }

  lemma {:induction false} BegunBefore(minimum: Balance, rewards: Balance, calls: seq<Call>, now: Block)
    requires forall i | 0 <= i < |calls| && calls[i].Initialize? :: calls[i].now <= now
    ensures var begun := PlanAfter(minimum, rewards, calls).begun; begun.Some? ==> begun.value <= now
  {
    if calls != [] { BegunBefore(minimum, rewards, calls[..|calls| - 1], now); }
  }

  /** At every point of every run with rising blocks, the stored reward is the one due. */
  lemma {:induction false} RewardIsDue(minimum: Balance, rewards: Balance, calls: seq<Call>)
    requires Rising(calls)
    ensures var s, plan := Run(minimum, rewards, calls), PlanAfter(minimum, rewards, calls);
            s.reward == Some(Due(plan)) && MapOf(s.changes) == plan.changes
  {
    if calls != [] {
      var before, call := calls[..|calls| - 1], calls[|calls| - 1];
      RewardIsDue(minimum, rewards, before);
      if call.Initialize? {
        BegunBefore(minimum, rewards, before, call.now);
      }
    }
  }

  /** So after the block now is begun, the reward is the change at the greatest key up to now of the
      latest schedule, else its base reward. */
  lemma RewardAfterInitialize(minimum: Balance, rewards: Balance, calls: seq<Call>, now: Block, digest: Option<Account>)
    requires Rising(calls + [Initialize(now, digest)])
    ensures var plan := PlanAfter(minimum, rewards, calls);
            Run(minimum, rewards, calls + [Initialize(now, digest)]).reward
            == Some(if ChangeAt(plan.changes, now).Some? then ChangeAt(plan.changes, now).value else plan.base)
  {
    var all := calls + [Initialize(now, digest)];
    assert all[..|all| - 1] == calls;
    RewardIsDue(minimum, rewards, all);
  }

  /** Every author is paid what is due when the block ends. */
  lemma DepositsAreDue(minimum: Balance, rewards: Balance, calls: seq<Call>, i: nat)
    requires Rising(calls) && i < |calls| && calls[i].Finalize?
    ensures var s, t := Run(minimum, rewards, calls[..i]), Run(minimum, rewards, calls[..i + 1]);
            t.deposits == s.deposits + if s.author.None? then []
                                       else [(s.author.value, Due(PlanAfter(minimum, rewards, calls[..i])))]
  {
    assert calls[..i + 1][..i] == calls[..i];
    RewardIsDue(minimum, rewards, calls[..i]);
  }

  // ---------- who is paid ----------

  /** The call names an author, or forgets the one there is. */
  predicate TouchesAuthor(call: Call) {
    (call.Initialize? && call.digest.Some?) || call.Finalize?
  }

  /** The author the calls leave behind: the digest of the last call that touches the author, unless
      that call ends a block. */
  function AuthorOf(calls: seq<Call>): Option<Account> {
    if calls == [] then None
    else
      var call := calls[|calls| - 1];
      if !TouchesAuthor(call) then AuthorOf(calls[..|calls| - 1])
      else if call.Finalize? then None
      else call.digest
  }

  /** Call i is the last that touches the author. */
  predicate LastTouch(calls: seq<Call>, i: nat) {
    i < |calls| && TouchesAuthor(calls[i]) && forall j | i < j < |calls| :: !TouchesAuthor(calls[j])
  }

  lemma {:induction false} AuthorOfIff(calls: seq<Call>, account: Account)
    ensures AuthorOf(calls) == Some(account)
            <==> exists i: nat :: LastTouch(calls, i) && calls[i].Initialize? && calls[i].digest == Some(account)
  {
    if calls != [] {
      var n := |calls| - 1;
      var before := calls[..n];
      AuthorOfIff(before, account);
      if TouchesAuthor(calls[n]) {
        assert LastTouch(calls, n);
      } else {
        if i: nat :| LastTouch(before, i) && before[i].Initialize? && before[i].digest == Some(account) {
          assert LastTouch(calls, i) && calls[i] == before[i];
        }
        if i: nat :| LastTouch(calls, i) && calls[i].Initialize? && calls[i].digest == Some(account) {
          assert LastTouch(before, i) && calls[i] == before[i];
        }
      }
    }
  }

  /** The payments due over a run, from the calls alone: whenever a block ends, its author, if it has
      one, gets what is due. */
  function Payments(minimum: Balance, rewards: Balance, calls: seq<Call>): seq<(Account, Balance)> {
    if calls == [] then []
    else
      var before := calls[..|calls| - 1];
      Payments(minimum, rewards, before)
      + if calls[|calls| - 1].Finalize? && AuthorOf(before).Some?
        then [(AuthorOf(before).value, Due(PlanAfter(minimum, rewards, before)))]
        else []
  }

  /** Over every run with rising blocks the stored author is the one named last in the open block, and
      the deposits are exactly the payments due. */
  lemma {:induction false} PaymentsAreMade(minimum: Balance, rewards: Balance, calls: seq<Call>)
    requires Rising(calls)
    ensures Run(minimum, rewards, calls).author == AuthorOf(calls)
    ensures Run(minimum, rewards, calls).deposits == Payments(minimum, rewards, calls)
  {
    hide Due, ChangeAt, KeysUpTo, Announce, Payable, FromIter;
    if calls != [] {
      PaymentsAreMade(minimum, rewards, calls[..|calls| - 1]);
      RewardIsDue(minimum, rewards, calls[..|calls| - 1]);
    }
  }

  // ---------- pruning, as intended ----------

  /** The map without the entries up to n. */
  function Pruned(m: map<Block, Balance>, n: nat): map<Block, Balance> {
    map k | k in m && k > n :: m[k]
  }

  /** The pallet that does remove the entries it has applied. */
  function ApplyPruning(minimum: Balance, s: Ledger, call: Call): Ledger {
    var t := Apply(minimum, s, call);
    if call.Initialize? && t.changes.Some? then t.(changes := Some(Pruned(t.changes.value, call.now))) else t
  }

  function RunPruning(minimum: Balance, rewards: Balance, calls: seq<Call>): Ledger {
    if calls == [] then Genesis(rewards)
    else ApplyPruning(minimum, RunPruning(minimum, rewards, calls[..|calls| - 1]), calls[|calls| - 1])
  }

  /** A change found after pruning is the right one; if none is found, none has become due. */
  lemma PrunedChange(m: map<Block, Balance>, n: nat, now: nat)
    requires n <= now
    ensures ChangeAt(Pruned(m, n), now).Some? ==> ChangeAt(Pruned(m, n), now) == ChangeAt(m, now)
    ensures ChangeAt(Pruned(m, n), now).None? ==> ChangeAt(m, now) == ChangeAt(m, n)
  {
    hide LastKey;
    var k, l := LastKey(Pruned(m, n), now), LastKey(m, now);
    if k.Some? {
      assert k.value in m && l.Some? && l.value in Pruned(m, n);
    } else if l.Some? {
      assert l.value !in Pruned(m, n);
      assert LastKey(m, n).Some?;
    } else {
      assert LastKey(m, n).None?;
    }
  }

  /** Pruning consumed entries never alters a reward, an author or a payment, and leaves exactly the
      entries that are not yet due. (The events differ: see `AnnouncementsRepeat`.) */
  lemma {:induction false} PruningPaysTheSame(minimum: Balance, rewards: Balance, calls: seq<Call>)
    requires Rising(calls)
    ensures var s, p := Run(minimum, rewards, calls), RunPruning(minimum, rewards, calls);
            var begun := PlanAfter(minimum, rewards, calls).begun;
            && p.reward == s.reward && p.author == s.author && p.deposits == s.deposits
            && MapOf(p.changes) == Remaining(MapOf(s.changes), begun)
  {
    hide ChangeAt, Announce, KeysUpTo;
    if calls != [] {
      var before, call := calls[..|calls| - 1], calls[|calls| - 1];
      PruningPaysTheSame(minimum, rewards, before);
      RewardIsDue(minimum, rewards, before);
      var s := Run(minimum, rewards, before);
      var begun := PlanAfter(minimum, rewards, before).begun;
      if call.Initialize? && begun.Some? {
        BegunBefore(minimum, rewards, before, call.now);
        PrunedChange(MapOf(s.changes), begun.value, call.now);
        assert Pruned(Pruned(MapOf(s.changes), begun.value), call.now) == Pruned(MapOf(s.changes), call.now);
      }
    }
  }

  /** The entries of a schedule that are left after a block is begun under it. */
  function Remaining(m: map<Block, Balance>, begun: Option<Block>): map<Block, Balance> {
    if begun.Some? then Pruned(m, begun.value) else m
  }

  // ---------- what the code does instead ----------

  /** No entry is due at block now. */
  predicate Clean(m: map<Block, Balance>, now: Block) {
    forall k | k in m :: k > now
  }

  /** The pallet is meant to have removed, once block now is begun, every change up to now. It has done
      so exactly when the latest schedule holds no change up to now, and so had nothing to remove. */
  lemma {:induction false} CleanIff(minimum: Balance, rewards: Balance, calls: seq<Call>,
                                    now: Block, digest: Option<Account>)
    requires Rising(calls + [Initialize(now, digest)])
    ensures var all := calls + [Initialize(now, digest)];
            && (Clean(MapOf(Run(minimum, rewards, all).changes), now)
                <==> Clean(PlanAfter(minimum, rewards, calls).changes, now))
            && Clean(MapOf(RunPruning(minimum, rewards, all).changes), now)
  {
    var all := calls + [Initialize(now, digest)];
    assert all[..|all| - 1] == calls;
    RewardIsDue(minimum, rewards, all);
    PruningPaysTheSame(minimum, rewards, all);
  }

  /** The changes that a block announces although they were announced before: those of the schedule up
      to the last block begun under it. */
  function Repeated(plan: Plan): (keys: seq<Block>)
    ensures forall k | k in keys :: k in plan.changes
  {
    if plan.begun.Some? then KeysUpTo(plan.changes, plan.begun.value) else []
  }

  lemma KeysStep(m: map<Block, Balance>, n: nat)
    requires n > 0
    ensures KeysUpTo(m, n) == KeysUpTo(m, n - 1) + if n in m then [n] else []
  {
  }

  lemma {:induction false} NothingLeft(m: map<Block, Balance>, b: nat, n: nat)
    requires n <= b
    ensures KeysUpTo(Pruned(m, b), n) == []
  {
    if n > 0 { NothingLeft(m, b, n - 1); }
  }

  /** The keys up to now are those up to an earlier block, and then those pruning has left. */
  lemma {:induction false} KeysSplit(m: map<Block, Balance>, b: nat, now: nat)
    requires b <= now
    ensures KeysUpTo(m, now) == KeysUpTo(m, b) + KeysUpTo(Pruned(m, b), now)
  {
    hide KeysUpTo;
    if b == now {
      NothingLeft(m, b, b);
    } else {
      KeysSplit(m, b, now - 1);
      KeysStep(m, now);
      KeysStep(Pruned(m, b), now);
    }
  }

  lemma AnnounceSplit(m: map<Block, Balance>, n: map<Block, Balance>, first: seq<Block>, rest: seq<Block>)
    requires (forall k | k in first :: k in m) && forall k | k in rest :: k in n && k in m && m[k] == n[k]
    ensures forall k | k in first + rest :: k in m
    ensures Announce(m, first + rest) == Announce(m, first) + Announce(n, rest)
  {
    forall i | 0 <= i < |rest| ensures n[rest[i]] == m[rest[i]] { assert rest[i] in rest; }
  }

  /** The announcements of the changes that have become due with block now. */
  function Fresh(plan: Plan, now: Block): seq<Event> {
    var rest := Remaining(plan.changes, plan.begun);
    Announce(rest, KeysUpTo(rest, now))
  }

  lemma AnnouncedTwice(plan: Plan, now: Block)
    requires plan.begun.Some? ==> plan.begun.value <= now
    ensures Announce(plan.changes, KeysUpTo(plan.changes, now))
            == Announce(plan.changes, Repeated(plan)) + Fresh(plan, now)
  {
    hide KeysUpTo, Announce;
    var rest := KeysUpTo(Remaining(plan.changes, plan.begun), now);
    if plan.begun.Some? {
      KeysSplit(plan.changes, plan.begun.value, now);
    } else {
      assert [] + rest == rest;
    }
    AnnounceSplit(plan.changes, Remaining(plan.changes, plan.begun), Repeated(plan), rest);
  }

  lemma BeforeLast(calls: seq<Call>, last: Call)
    requires last.Initialize? && Rising(calls + [last])
    ensures Rising(calls)
    ensures forall i | 0 <= i < |calls| && calls[i].Initialize? :: calls[i].now <= last.now
  {
    var all := calls + [last];
    assert forall i | 0 <= i < |calls| :: all[i] == calls[i];
    forall i | 0 <= i < |calls| && calls[i].Initialize? ensures calls[i].now <= last.now {
      assert all[i] == calls[i] && all[|calls|] == last;
    }
  }

  /** What a block adds to the events, in terms of the map it finds. */
  lemma EventsOfBlock(minimum: Balance, rewards: Balance, calls: seq<Call>, now: Block, digest: Option<Account>)
    ensures var all := calls + [Initialize(now, digest)];
            var s, p := Run(minimum, rewards, calls), RunPruning(minimum, rewards, calls);
            var m, n := MapOf(s.changes), MapOf(p.changes);
            && Run(minimum, rewards, all).events == s.events + Announce(m, KeysUpTo(m, now))
            && RunPruning(minimum, rewards, all).events == p.events + Announce(n, KeysUpTo(n, now))
  {
    hide KeysUpTo, Announce, ChangeAt, Pruned;
    var all := calls + [Initialize(now, digest)];
    assert all[..|all| - 1] == calls;
  }

  /** After any run with rising blocks, a block announces again every change already announced under
      the schedule, and then the fresh ones; the pruning pallet announces the fresh ones alone. */
  lemma AnnouncementsRepeat(minimum: Balance, rewards: Balance, calls: seq<Call>, now: Block, digest: Option<Account>)
    requires Rising(calls + [Initialize(now, digest)])
    ensures var all, plan := calls + [Initialize(now, digest)], PlanAfter(minimum, rewards, calls);
            && Run(minimum, rewards, all).events
               == Run(minimum, rewards, calls).events + Announce(plan.changes, Repeated(plan)) + Fresh(plan, now)
            && RunPruning(minimum, rewards, all).events
               == RunPruning(minimum, rewards, calls).events + Fresh(plan, now)
  {
    hide KeysUpTo, Announce, Repeated, Pruned, Remaining, Rising, Run, RunPruning, PlanAfter, Apply;
    BeforeLast(calls, Initialize(now, digest));
    RewardIsDue(minimum, rewards, calls);
    PruningPaysTheSame(minimum, rewards, calls);
    BegunBefore(minimum, rewards, calls, now);
    AnnouncedTwice(PlanAfter(minimum, rewards, calls), now);
    EventsOfBlock(minimum, rewards, calls, now, digest);
    var plan := PlanAfter(minimum, rewards, calls);
    var rest := Remaining(plan.changes, plan.begun);
    assert Fresh(plan, now) == Announce(rest, KeysUpTo(rest, now));
  }

  /** How many announcements of a run are repetitions. */
  function Repetitions(minimum: Balance, rewards: Balance, calls: seq<Call>): nat {
    if calls == [] then 0
    else
      var before := calls[..|calls| - 1];
      Repetitions(minimum, rewards, before)
      + if calls[|calls| - 1].Initialize? then |Repeated(PlanAfter(minimum, rewards, before))| else 0
  }

  /** By that many the events of the run outnumber those of the pruning pallet, and they are the same
      exactly when there is none. */
  lemma {:induction false} EventsOutnumber(minimum: Balance, rewards: Balance, calls: seq<Call>)
    requires Rising(calls)
    ensures var s, p := Run(minimum, rewards, calls), RunPruning(minimum, rewards, calls);
            && |s.events| == |p.events| + Repetitions(minimum, rewards, calls)
            && (s.events == p.events <==> Repetitions(minimum, rewards, calls) == 0)
  {
    hide KeysUpTo, Announce, ChangeAt, Payable, FromIter, Repeated, Fresh;
    if calls != [] {
      var before, call := calls[..|calls| - 1], calls[|calls| - 1];
      EventsOutnumber(minimum, rewards, before);
      if call.Initialize? {
        assert calls == before + [Initialize(call.now, call.digest)];
        var plan := PlanAfter(minimum, rewards, before);
        AnnouncementsRepeat(minimum, rewards, before, call.now, call.digest);
        AnnounceLength(plan.changes, Repeated(plan));
      }
    }
  }

  /** The shortest run on which it shows: one change, due at block 1, and the two blocks after it. */
  function SettledRun(): seq<Call> {
    [SetSchedule(true, 5, [(1, 7)]), Initialize(1, None), Initialize(2, None)]
  }

  lemma SettledPlans(minimum: Balance, rewards: Balance)
    requires minimum <= 5
    ensures var calls := SettledRun();
            && calls[..2][..1] == calls[..1] && calls[..1][..0] == []
            && PlanAfter(minimum, rewards, calls[..1]) == Plan(5, map[1 := 7], None)
            && PlanAfter(minimum, rewards, calls[..2]) == Plan(5, map[1 := 7], Some(1))
            && PlanAfter(minimum, rewards, calls) == Plan(5, map[1 := 7], Some(2))
  {
    hide FromIter;
    OnePair();
    var calls := SettledRun();
    assert calls[..1] == [SetSchedule(true, 5, [(1, 7)])];
    assert calls[..2] == [SetSchedule(true, 5, [(1, 7)]), Initialize(1, None)];
  }

  lemma OneKey()
    ensures KeysUpTo(map[1 := 7], 1) == [1]
  {
    assert KeysUpTo(map[1 := 7], 0) == [];
  }

  lemma NeverPruned(minimum: Balance, rewards: Balance)
    requires minimum <= 5
    ensures Rising(SettledRun())
    ensures MapOf(Run(minimum, rewards, SettledRun()).changes) == map[1 := 7]
    ensures MapOf(RunPruning(minimum, rewards, SettledRun()).changes) == map[]
    ensures Repetitions(minimum, rewards, SettledRun()) == 1
  {
    hide Apply, FromIter, Announce, ChangeAt, Run, RunPruning, KeysUpTo, PlanAfter;
    var calls := SettledRun();
    SettledPlans(minimum, rewards);
    OneKey();
    assert Repetitions(minimum, rewards, calls[..1]) == 0;
    assert Repetitions(minimum, rewards, calls[..2]) == 0;
    RewardIsDue(minimum, rewards, calls);
    PruningPaysTheSame(minimum, rewards, calls);
  }

  lemma OnePair()
    ensures FromIter([(1, 7)]) == map[1 := 7]
  {
    var pairs: seq<(Block, Balance)> := [(1, 7)];
    assert pairs[..0] == [];
  }
}
