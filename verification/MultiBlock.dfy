/** The multi-block target: what a passing run of the checkers implies about an untrusted machine. */
module MultiBlock {
  import opened Integers
  import opened Identity
  import opened Sums
  import opened Protocol
  import opened Runs
  import opened Checkers
  import opened Conservation
  import DirectPath

  function End(s: Accounts, attempts: seq<Attempt>): Accounts
    decreases |attempts|
  {
    if attempts == [] then s else End(Next(s, attempts[0]), attempts[1..])
  }

  ghost predicate RunPasses(tracked: set<AccountId>, s: Accounts, attempts: seq<Attempt>)
    decreases |attempts|
  {
    attempts == [] ||
    (AttemptPasses(tracked, s, attempts[0]) && RunPasses(tracked, Next(s, attempts[0]), attempts[1..]))
  }

  datatype Verdict = Passed | StartOverflow | AttemptFailed(index: nat, violation: Violation) | EndOverflow | LongRange

  /** The target: starting total, one checked attempt per block, ending total, comparison. */
  method RunTarget(ids: seq<AccountId>, genesis: Accounts, attempts: seq<Attempt>) returns (r: Verdict)
    ensures r.Passed? <==>
      && RunPasses(AsSet(ids), genesis, attempts)
      && ListSum(ids, genesis) == ListSum(ids, End(genesis, attempts)) <= U128_MAX
    ensures r.StartOverflow? <==> ListSum(ids, genesis) > U128_MAX
    ensures r.EndOverflow? <==>
      && ListSum(ids, genesis) <= U128_MAX && RunPasses(AsSet(ids), genesis, attempts)
      && ListSum(ids, End(genesis, attempts)) > U128_MAX
    ensures r.LongRange? <==>
      && RunPasses(AsSet(ids), genesis, attempts)
      && ListSum(ids, genesis) <= U128_MAX && ListSum(ids, End(genesis, attempts)) <= U128_MAX
      && ListSum(ids, genesis) != ListSum(ids, End(genesis, attempts))
    ensures r.AttemptFailed? ==>
      && r.index < |attempts| && RunPasses(AsSet(ids), genesis, attempts[..r.index])
      && !AttemptPasses(AsSet(ids), End(genesis, attempts[..r.index]), attempts[r.index])
  {
    var tracked := AsSet(ids);
    var state := genesis;
    var starting := ListTotal(ids, state);
    if starting.None? {
      return StartOverflow;
    }
    for i := 0 to |attempts|
      invariant RunPasses(tracked, genesis, attempts) <==> RunPasses(tracked, state, attempts[i..])
      invariant End(genesis, attempts) == End(state, attempts[i..])
      invariant RunPasses(tracked, genesis, attempts[..i]) && state == End(genesis, attempts[..i])
    {
      assert attempts[i..][1..] == attempts[i + 1..];
      assert attempts[..i + 1] == attempts[..i] + [attempts[i]];
      PassesAppend(tracked, genesis, attempts[..i], attempts[i]);
      var v, next := AssertTxExecution(tracked, state, attempts[i]);
      if v.Some? {
        return AttemptFailed(i, v.value);
      }
      state := next;
    }
    var ending := ListTotal(ids, state);
    if ending.None? {
      return EndOverflow;
    }
    r := if starting.value == ending.value then Passed else LongRange;
  }

  lemma {:induction false} PassesAppend(tracked: set<AccountId>, s: Accounts, attempts: seq<Attempt>, a: Attempt)
    ensures RunPasses(tracked, s, attempts + [a])
      <==> RunPasses(tracked, s, attempts) && AttemptPasses(tracked, End(s, attempts), a)
    ensures End(s, attempts + [a]) == Next(End(s, attempts), a)
    decreases |attempts|
  {
    if attempts == [] {
      assert [] + [a] == [a] && [a][1..] == [];
    } else {
      assert (attempts + [a])[1..] == attempts[1..] + [a];
      PassesAppend(tracked, Next(s, attempts[0]), attempts[1..], a);
    }
  }

  // ---------- What the per-attempt checks leave open ----------

  /** Total balance moved while replays of accepted transactions were being rejected. */
  ghost function ReplayDrift(tracked: set<AccountId>, attempts: seq<Attempt>): int {
    if attempts == [] then 0
    else
      var a := attempts[0];
      ReplayDrift(tracked, attempts[1..])
      + if a.Executed? && a.accepted then Total(a.afterReplay, tracked) - Total(a.after, tracked) else 0
  }

  /**
   * For any machine at all: if every per-attempt check passes, the total of the tracked accounts
   * moves by exactly what moved during rejected replays, the one window no checker looks into.
   */
  lemma {:induction false} PassingRunTotal(tracked: set<AccountId>, s: Accounts, attempts: seq<Attempt>)
    requires RunPasses(tracked, s, attempts)
    ensures Total(End(s, attempts), tracked) == Total(s, tracked) + ReplayDrift(tracked, attempts)
    decreases |attempts|
  {
    if attempts != [] {
      PassingRunTotal(tracked, Next(s, attempts[0]), attempts[1..]);
    }
  }

  /**
   * Hence on the distinct ids of a generated genesis LongRangeBalanceConservation is exactly the
   * statement that the replays together moved nothing.
   */
  lemma LongRangeIffNoReplayDrift(ids: seq<AccountId>, s: Accounts, attempts: seq<Attempt>)
    requires Distinct(ids) && ListSum(ids, s) <= U128_MAX
    requires RunPasses(AsSet(ids), s, attempts)
    ensures ListSum(ids, s) == ListSum(ids, End(s, attempts)) <= U128_MAX
      <==> ReplayDrift(AsSet(ids), attempts) == 0
  {
    PassingRunTotal(AsSet(ids), s, attempts);
    ListSumVersusMapSum(ids, s);
    ListSumVersusMapSum(ids, End(s, attempts));
    RepeatedIsZero(ids, s);
    RepeatedIsZero(ids, End(s, attempts));
  }

  ghost predicate ReplaysAreIsolated(tracked: set<AccountId>, attempts: seq<Attempt>) {
    forall a :: a in attempts && a.Executed? && a.accepted ==>
      Balances(a.afterReplay, tracked) == Balances(a.after, tracked)
  }

  /** The final comparison is redundant for machines whose rejected replays leave balances alone. */
  lemma {:induction false} IsolatedReplaysDoNotDrift(tracked: set<AccountId>, attempts: seq<Attempt>)
    requires ReplaysAreIsolated(tracked, attempts)
    ensures ReplayDrift(tracked, attempts) == 0
  {
    if attempts != [] {
      assert attempts[0] in attempts;
      IsolatedReplaysDoNotDrift(tracked, attempts[1..]);
    }
  }

  /** It is not redundant in general: a machine that mints inside a rejected replay passes all else. */
  lemma LongRangeIsNeeded(id: AccountId)
    ensures exists s: Accounts, attempts: seq<Attempt> ::
      && RunPasses({id}, s, attempts)
      && ListSum([id], s) != ListSum([id], End(s, attempts))
  {
    var s: Accounts := map[];
    var minted: Accounts := map[id := DEFAULT_ACCOUNT.(balance := 1)];
    var attempt := Executed(true, [], s, false, minted);
    assert Balances(s, {id}) == map[id := 0];
    SumUpdate(map[], id, 0);
    assert Total(s, {id}) == 0;
    assert [attempt][1..] == [];
    assert RunPasses({id}, s, [attempt]);
    assert End(s, [attempt]) == minted;
    SingleSum(id, s);
    SingleSum(id, minted);
  }

  lemma SingleSum(id: AccountId, accounts: Accounts)
    ensures ListSum([id], accounts) == Get(accounts, id).balance
  {}

  // ---------- Nonces ----------

  ghost function Signed(attempts: seq<Attempt>, id: AccountId): nat {
    if attempts == [] then 0
    else
      var a := attempts[0];
      Signed(attempts[1..], id) + if a.Executed? && a.accepted && id in a.signers then 1 else 0
  }

  /** Nonce movement nobody checks: of accounts that did not sign, and during replays. */
  ghost function NonceDrift(s: Accounts, attempts: seq<Attempt>, id: AccountId): int
    decreases |attempts|
  {
    if attempts == [] then 0
    else
      var a := attempts[0];
      if a.Skipped? || !a.accepted then NonceDrift(Next(s, a), attempts[1..], id)
      else
        var checked := if id in a.signers then Get(a.after, id).nonce else Get(s, id).nonce;
        NonceDrift(Next(s, a), attempts[1..], id) + Get(a.afterReplay, id).nonce as int - checked as int
  }

  /** A passing run pins each tracked nonce to the number of accepted transactions its owner signed. */
  lemma {:induction false} PassingRunNonces(tracked: set<AccountId>, s: Accounts, attempts: seq<Attempt>, id: AccountId)
    requires RunPasses(tracked, s, attempts) && id in tracked
    ensures Get(End(s, attempts), id).nonce as int
         == Get(s, id).nonce as int + Signed(attempts, id) + NonceDrift(s, attempts, id)
    decreases |attempts|
  {
    if attempts != [] {
      var a := attempts[0];
      PassingRunNonces(tracked, Next(s, a), attempts[1..], id);
      if a.Executed? && !a.accepted {
        assert Nonces(a.after, tracked)[id] == Nonces(s, tracked)[id];
      }
    }
  }

  // ---------- No false alarms on the specified machine ----------

  /**
   * An attempt reports what the direct path does: the submission at its own clock, and then the same
   * transaction again at the clock of the replay.
   */
  lemma AttemptIsDirect(env: Env, s: State, sub: Submission, replayBlock: u64, replayTime: u64)
    ensures var a := AttemptOf(env, s, sub, replayBlock, replayTime);
      var first := DirectPath.ExecuteInPlace(env, s, sub.tx, sub.block, sub.timestamp);
      var state := if first.Some? then first.value else s;
      var again := DirectPath.ExecuteInPlace(env, state, sub.tx, replayBlock, replayTime);
      && a.Executed? && a.accepted == first.Some? && a.after == state.accounts
      && a.replayAccepted == again.Some?
      && a.afterReplay == (if again.Some? then again.value else state).accounts
      && a.signers == if sub.tx.Private? then sub.tx.signers else [sub.tx.from]
  {
    DirectPath.DirectIsSplit(env, s, sub.tx, sub.block, sub.timestamp);
    DirectPath.DirectIsSplit(env, Execute(env, s, sub.tx, sub.block, sub.timestamp), sub.tx, replayBlock, replayTime);
  }

  /** What the specified machine does with one submission, replayed at the given later clock. */
  function AttemptOf(env: Env, s: State, sub: Submission, replayBlock: u64, replayTime: u64): Attempt {
    var next := Execute(env, s, sub.tx, sub.block, sub.timestamp);
    Executed(Accepts(env, s, sub.tx, sub.block, sub.timestamp), SignersOf(sub.tx), next.accounts,
             Accepts(env, next, sub.tx, replayBlock, replayTime),
             Execute(env, next, sub.tx, replayBlock, replayTime).accounts)
  }

  ghost predicate Moved(before: Accounts, after: Accounts, from: AccountId, to: AccountId, amount: u128) {
    forall id ::
      Get(after, id).balance as int
      == Get(before, id).balance as int + (if id == to then amount else 0) - (if id == from then amount else 0)
  }

  /** The balances after an accepted transfer: the amount changes hands and nothing else moves. */
  lemma TransferOutcome(env: Env, s: State, tx: Tx, block: u64, timestamp: u64)
    requires tx.Transfer? && Accepts(env, s, tx, block, timestamp)
    ensures tx.from != tx.to && tx.amount <= Get(s.accounts, tx.from).balance
    ensures Moved(s.accounts, Execute(env, s, tx, block, timestamp).accounts, tx.from, tx.to, tx.amount)
  {
    ValidIsApplicable(env, s, tx, block, timestamp);
  }

  /** How a transfer moves the total of a set of accounts: only when it crosses the boundary of the set. */
  lemma TransferTotal(env: Env, s: State, tx: Tx, block: u64, timestamp: u64, tracked: set<AccountId>)
    requires tx.Transfer? && Accepts(env, s, tx, block, timestamp)
    ensures Total(Execute(env, s, tx, block, timestamp).accounts, tracked) == Total(s.accounts, tracked)
         + (if tx.to in tracked then tx.amount else 0) - (if tx.from in tracked then tx.amount else 0)
  {
    TransferOutcome(env, s, tx, block, timestamp);
    MovedTotal(s.accounts, Execute(env, s, tx, block, timestamp).accounts, tx.from, tx.to, tx.amount, tracked);
  }

  lemma MovedTotal(before: Accounts, after: Accounts, from: AccountId, to: AccountId, amount: u128,
                   tracked: set<AccountId>)
    requires from != to
    requires Moved(before, after, from, to, amount)
    ensures Total(after, tracked) == Total(before, tracked)
         + (if to in tracked then amount else 0) - (if from in tracked then amount else 0)
  {
    var b: map<AccountId, int> := Balances(before, tracked);
    var c: map<AccountId, int> := if from in tracked then b[from := Get(after, from).balance] else b;
    var e: map<AccountId, int> := if to in tracked then c[to := Get(after, to).balance] else c;
    assert e == Balances(after, tracked);
    if from in tracked { SumUpdate(b, from, Get(after, from).balance); }
    if to in tracked { SumUpdate(c, to, Get(after, to).balance); }
  }

  /**
   * What a transaction must declare to leave the tracked total alone: a transfer moves nothing or
   * stays on one side of the boundary of the set, the effects of a shielded transaction on tracked
   * accounts cancel out.
   */
  predicate Balanced(env: Env, s: State, tx: Tx, tracked: set<AccountId>) {
    match tx
    case Transfer(from, to, _, amount) => amount == 0 || (from in tracked <==> to in tracked)
    case Private(m, _, _) => TrackedNet(env, s.accounts, m.publicActions, tracked) == 0
  }

  /** `Balanced` decides conservation, for both kinds of transaction. */
  lemma AcceptedConservesIffBalanced(env: Env, s: State, tx: Tx, block: u64, timestamp: u64, tracked: set<AccountId>)
    requires Accepts(env, s, tx, block, timestamp)
    ensures Total(Execute(env, s, tx, block, timestamp).accounts, tracked) == Total(s.accounts, tracked)
      <==> Balanced(env, s, tx, tracked)
  {
    if tx.Transfer? {
      TransferTotal(env, s, tx, block, timestamp, tracked);
    } else {
      ShieldedTotal(env, s, tx, block, timestamp, tracked);
    }
  }

  /**
   * What the checks ask of a submission of either kind, before it is executed: if it is acceptable,
   * it is balanced and no tracked account signs it twice.  A rejected submission is always fine.
   */
  ghost predicate Quiet(env: Env, s: State, sub: Submission, tracked: set<AccountId>) {
    Accepts(env, s, sub.tx, sub.block, sub.timestamp) ==>
      && Balanced(env, s, sub.tx, tracked)
      && forall id :: id in SignersOf(sub.tx) && id in tracked ==> multiset(SignersOf(sub.tx))[id] == 1
  }

  /** The nonce check passes exactly when no tracked account signed twice. */
  lemma IncrementedIffSignedOnce(env: Env, s: State, tx: Tx, block: u64, timestamp: u64, tracked: set<AccountId>)
    requires Accepts(env, s, tx, block, timestamp)
    ensures NoncesIncremented(SignersOf(tx), Nonces(s.accounts, tracked),
                              Execute(env, s, tx, block, timestamp).accounts)
      <==> forall id :: id in SignersOf(tx) && id in tracked ==> multiset(SignersOf(tx))[id] == 1
  {
    ExecuteEffect(env, s, tx, block, timestamp);
  }

  /** For any submission the five checks pass exactly when it is quiet, and the replay leaves no trace. */
  lemma {:induction false} AttemptPassesIffQuiet(env: Env, s: State, sub: Submission, replayBlock: u64,
                                                 replayTime: u64, tracked: set<AccountId>)
    requires Total(s.accounts, tracked) <= U128_MAX
    ensures var a := AttemptOf(env, s, sub, replayBlock, replayTime);
      && (AttemptPasses(tracked, s.accounts, a) <==> Quiet(env, s, sub, tracked))
      && Next(s.accounts, a) == Execute(env, s, sub.tx, sub.block, sub.timestamp).accounts
      && (a.accepted ==> a.afterReplay == a.after)
  {
    if Accepts(env, s, sub.tx, sub.block, sub.timestamp) {
      AcceptedOnlyOnce(env, s, sub, [], replayBlock, replayTime);
      IncrementedIffSignedOnce(env, s, sub.tx, sub.block, sub.timestamp, tracked);
      AcceptedConservesIffBalanced(env, s, sub.tx, sub.block, sub.timestamp, tracked);
    }
  }

  /**
   * Exactly when the checkers stay silent about a native transfer on the specified machine: it is
   * rejected, moves nothing, or stays on one side of the boundary of the tracked set.
   */
  lemma {:induction false} TransferRaisesNoAlarm(env: Env, s: State, sub: Submission, replayBlock: u64,
                                                 replayTime: u64, tracked: set<AccountId>)
    requires sub.tx.Transfer? && Total(s.accounts, tracked) <= U128_MAX
    ensures var a := AttemptOf(env, s, sub, replayBlock, replayTime);
      && (AttemptPasses(tracked, s.accounts, a)
          <==>
          (a.accepted && sub.tx.amount > 0 ==> (sub.tx.from in tracked <==> sub.tx.to in tracked)))
      && a.afterReplay == a.after
  {
    AttemptPassesIffQuiet(env, s, sub, replayBlock, replayTime, tracked);
    if Accepts(env, s, sub.tx, sub.block, sub.timestamp) {
      assert multiset(SignersOf(sub.tx))[sub.tx.from] == 1;
    } else {
      AcceptsNot(env, s, sub, replayBlock, replayTime);
    }
  }

  /** A transfer does not read the clock: rejected now, rejected at any other clock. */
  lemma AcceptsNot(env: Env, s: State, sub: Submission, replayBlock: u64, replayTime: u64)
    requires sub.tx.Transfer? && !Accepts(env, s, sub.tx, sub.block, sub.timestamp)
    ensures !Accepts(env, s, sub.tx, replayBlock, replayTime)
  {}

  /** One block of the target: a submission, and the clock at which it is replayed if accepted. */
  datatype Step = Step(sub: Submission, replayBlock: u64, replayTime: u64)

  function AttemptsOf(env: Env, s: State, steps: seq<Step>): (r: seq<Attempt>)
    ensures |r| == |steps|
    decreases |steps|
  {
    if steps == [] then []
    else
      var sub := steps[0].sub;
      [AttemptOf(env, s, sub, steps[0].replayBlock, steps[0].replayTime)]
      + AttemptsOf(env, Execute(env, s, sub.tx, sub.block, sub.timestamp), steps[1..])
  }

  ghost predicate QuietSteps(env: Env, s: State, steps: seq<Step>, tracked: set<AccountId>)
    decreases |steps|
  {
    steps == [] ||
    (Quiet(env, s, steps[0].sub, tracked)
     && var sub := steps[0].sub;
        QuietSteps(env, Execute(env, s, sub.tx, sub.block, sub.timestamp), steps[1..], tracked))
  }

  /** Over any sequence of submissions the checks pass exactly when each is quiet in turn, and replays never drift. */
  lemma {:induction false} RunPassesIffQuiet(env: Env, s: State, steps: seq<Step>, tracked: set<AccountId>)
    requires Total(s.accounts, tracked) <= U128_MAX
    ensures RunPasses(tracked, s.accounts, AttemptsOf(env, s, steps)) <==> QuietSteps(env, s, steps, tracked)
    ensures QuietSteps(env, s, steps, tracked) ==> ReplayDrift(tracked, AttemptsOf(env, s, steps)) == 0
    decreases |steps|
  {
    if steps != [] {
      var x := steps[0];
      var next := Execute(env, s, x.sub.tx, x.sub.block, x.sub.timestamp);
      AttemptPassesIffQuiet(env, s, x.sub, x.replayBlock, x.replayTime, tracked);
      AttemptsCons(env, s, steps);
      if Quiet(env, s, x.sub, tracked) {
        QuietKeepsTotal(env, s, x.sub, tracked);
        RunPassesIffQuiet(env, next, steps[1..], tracked);
      }
    }
  }

  lemma AttemptsCons(env: Env, s: State, steps: seq<Step>)
    requires steps != []
    ensures var sub := steps[0].sub;
      && AttemptsOf(env, s, steps) != []
      && AttemptsOf(env, s, steps)[0] == AttemptOf(env, s, sub, steps[0].replayBlock, steps[0].replayTime)
      && AttemptsOf(env, s, steps)[1..]
         == AttemptsOf(env, Execute(env, s, sub.tx, sub.block, sub.timestamp), steps[1..])
  {}

  lemma QuietKeepsTotal(env: Env, s: State, sub: Submission, tracked: set<AccountId>)
    requires Quiet(env, s, sub, tracked)
    ensures Total(Execute(env, s, sub.tx, sub.block, sub.timestamp).accounts, tracked) == Total(s.accounts, tracked)
  {
    if Accepts(env, s, sub.tx, sub.block, sub.timestamp) {
      AcceptedConservesIffBalanced(env, s, sub.tx, sub.block, sub.timestamp, tracked);
    }
  }

  /**
   * The verdict of the checking loop on the specified machine, long-range comparison included: it
   * passes exactly when every submission, of either kind, is quiet in turn.  The target itself draws
   * no shielded transactions: besides native transfers it draws public transactions of arbitrary
   * programs, which this machine does not have.
   */
  lemma TargetPassesIffQuiet(env: Env, s: State, ids: seq<AccountId>, steps: seq<Step>)
    requires Distinct(ids) && ListSum(ids, s.accounts) <= U128_MAX
    ensures var attempts := AttemptsOf(env, s, steps);
      (RunPasses(AsSet(ids), s.accounts, attempts)
       && ListSum(ids, s.accounts) == ListSum(ids, End(s.accounts, attempts)) <= U128_MAX)
      <==> QuietSteps(env, s, steps, AsSet(ids))
  {
    ListSumVersusMapSum(ids, s.accounts);
    RepeatedIsZero(ids, s.accounts);
    RunPassesIffQuiet(env, s, steps, AsSet(ids));
    if QuietSteps(env, s, steps, AsSet(ids)) {
      LongRangeIffNoReplayDrift(ids, s.accounts, AttemptsOf(env, s, steps));
    }
  }

  /** Every submission is rejected in turn, or is a transfer among the tracked accounts. */
  ghost predicate HarmlessSteps(env: Env, s: State, steps: seq<Step>, tracked: set<AccountId>)
    decreases |steps|
  {
    steps == [] ||
    (var sub := steps[0].sub;
     && (Accepts(env, s, sub.tx, sub.block, sub.timestamp) ==>
           sub.tx.Transfer? && sub.tx.from in tracked && sub.tx.to in tracked)
     && HarmlessSteps(env, Execute(env, s, sub.tx, sub.block, sub.timestamp), steps[1..], tracked))
  }

  lemma {:induction false} HarmlessAreQuiet(env: Env, s: State, steps: seq<Step>, tracked: set<AccountId>)
    requires HarmlessSteps(env, s, steps, tracked)
    ensures QuietSteps(env, s, steps, tracked)
    decreases |steps|
  {
    if steps != [] {
      var sub := steps[0].sub;
      if Accepts(env, s, sub.tx, sub.block, sub.timestamp) {
        assert multiset(SignersOf(sub.tx))[sub.tx.from] == 1;
      }
      HarmlessAreQuiet(env, Execute(env, s, sub.tx, sub.block, sub.timestamp), steps[1..], tracked);
    }
  }

  /**
   * No false alarm on transfers among the tracked accounts, which is what the target draws in order
   * to succeed, mixed with any submissions that are rejected, however long and at any clocks.
   */
  lemma TargetRaisesNoAlarm(env: Env, s: State, ids: seq<AccountId>, steps: seq<Step>)
    requires Distinct(ids) && ListSum(ids, s.accounts) <= U128_MAX && HarmlessSteps(env, s, steps, AsSet(ids))
    ensures var attempts := AttemptsOf(env, s, steps);
      && RunPasses(AsSet(ids), s.accounts, attempts)
      && ListSum(ids, s.accounts) == ListSum(ids, End(s.accounts, attempts)) <= U128_MAX
  {
    HarmlessAreQuiet(env, s, steps, AsSet(ids));
    TargetPassesIffQuiet(env, s, ids, steps);
  }

  /**
   * The alarm that is false: a transfer of 1 out of a tracked set that holds only its sender is
   * accepted by the specified machine and reported by the checks.
   */
  lemma BoundaryTransferIsReported(env: Env, x: AccountId, y: AccountId, replayBlock: u64, replayTime: u64)
    requires x != y && x !in env.systemIds && y !in env.systemIds
    ensures var s := State(map[x := DEFAULT_ACCOUNT.(balance := 1)], [], {}, {}, map[]);
      var sub := Submission(Tx.Transfer(x, y, 0, 1), 1, 0);
      && Accepts(env, s, sub.tx, sub.block, sub.timestamp)
      && !AttemptPasses({x}, s.accounts, AttemptOf(env, s, sub, replayBlock, replayTime))
  {
    var s := State(map[x := DEFAULT_ACCOUNT.(balance := 1)], [], {}, {}, map[]);
    assert Balances(s.accounts, {x}) == map[x := 1];
    SumUpdate(map[], x, 1);
    TransferRaisesNoAlarm(env, s, Submission(Tx.Transfer(x, y, 0, 1), 1, 0), replayBlock, replayTime, {x});
  }
}
