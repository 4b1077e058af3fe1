/** The sequencer-versus-replayer target on the specified machine, with its clock account. */
module SequencerReplayer {
  import opened Wrappers
  import opened Integers
  import opened Identity
  import opened Protocol
  import DirectPath
  import Ordering
  import opened Generators
  import opened Pipeline

  /** The clock program accepts a block exactly when it advances the stored block id by one. */
  function ClockStep(env: Env, s: State, block: u64, timestamp: u64): Option<State> {
    var clock := Get(s.accounts, env.clockId);
    if clock.data.ClockRecord? && block == clock.data.blockId as int + 1
    then Some(s.(accounts := s.accounts[env.clockId := clock.(data := ClockRecord(block, timestamp))]))
    else None
  }

  /**
   * The sequencer validates into a diff and applies it in two steps; the replayer takes the direct
   * path.  `wellFormed` is the stateless gate: it sees the transaction only.
   */
  function ProtocolMachine(env: Env, wellFormed: Tx -> bool, block: u64, timestamp: u64): Machine<State, Tx, Diff> {
    Machine(
      wellFormed,
      (s: State, tx: Tx) =>
        match Validate(env, s, tx, block, timestamp) case Valid(diff) => Some(diff) case Invalid(_) => None,
      (s: State, diff: Diff) => if Applicable(s, diff) then ApplyDiff(env, s, diff) else s,
      (s: State, tx: Tx) => DirectPath.ExecuteInPlace(env, s, tx, block, timestamp),
      (s: State) => ClockStep(env, s, block, timestamp))
  }

  /** What gets into a block: what passes the stateless gate and would execute on the direct path. */
  lemma IncludedIffExecutes(env: Env, wellFormed: Tx -> bool, s: State, tx: Tx, block: u64, timestamp: u64)
    ensures Included(ProtocolMachine(env, wellFormed, block, timestamp), s, tx)
      <==> wellFormed(tx) && DirectPath.ExecuteInPlace(env, s, tx, block, timestamp).Some?
  {
    DirectPath.DirectIsSplit(env, s, tx, block, timestamp);
  }

  /** SplitPathEquivalence: the direct path and validate-then-apply are two programs for one step. */
  lemma ProtocolIsSplitPathEquivalent(env: Env, wellFormed: Tx -> bool, block: u64, timestamp: u64)
    ensures SplitPathEquivalent(ProtocolMachine(env, wellFormed, block, timestamp))
  {
    var m := ProtocolMachine(env, wellFormed, block, timestamp);
    forall s, tx | Included(m, s, tx) ensures m.execute(s, tx) == Split(m, s, tx) {
      DirectPath.DirectIsSplit(env, s, tx, block, timestamp);
      ValidIsApplicable(env, s, tx, block, timestamp);
    }
  }

  // ---------- The clock ----------

  /** No transaction can change the data of the clock account, not even one signed by its id. */
  lemma UserTxLeavesClock(env: Env, s: State, tx: Tx, block: u64, timestamp: u64)
    requires env.clockId in env.systemIds
    ensures Get(Execute(env, s, tx, block, timestamp).accounts, env.clockId).data == Get(s.accounts, env.clockId).data
  {
    if Accepts(env, s, tx, block, timestamp) {
      DiffAvoidsSystemAccounts(env, s, tx, block, timestamp);
      UntouchedStep(env, s, tx, block, timestamp, env.clockId);
    }
  }

  lemma DiffAvoidsSystemAccounts(env: Env, s: State, tx: Tx, block: u64, timestamp: u64)
    requires Accepts(env, s, tx, block, timestamp)
    ensures Validate(env, s, tx, block, timestamp).diff.publicDiff.Keys !! env.systemIds
  {
    if tx.Private? {
      var actions := tx.message.publicActions;
      Ordering.SettleFrame(env, s.accounts, s.accounts, actions);
      forall id | id in Validate(env, s, tx, block, timestamp).diff.publicDiff ensures id !in env.systemIds {
        var i :| 0 <= i < |actions| && actions[i].accountId == id;
        assert PublicIds(tx.message)[i] == id;
      }
    }
  }

  lemma {:induction false} SequencingLeavesClock(env: Env, wellFormed: Tx -> bool, s: State, mempool: seq<Tx>,
                                                 block: u64, timestamp: u64)
    requires env.clockId in env.systemIds
    ensures var m := ProtocolMachine(env, wellFormed, block, timestamp);
      Get(AfterSequencing(m, s, mempool).accounts, env.clockId).data == Get(s.accounts, env.clockId).data
    decreases |mempool|
  {
    if mempool != [] {
      var m := ProtocolMachine(env, wellFormed, block, timestamp);
      if Included(m, s, mempool[0]) {
        ProtocolIsSplitPathEquivalent(env, wellFormed, block, timestamp);
        UserTxLeavesClock(env, s, mempool[0], block, timestamp);
        SequencingLeavesClock(env, wellFormed, Split(m, s, mempool[0]).value, mempool[1..], block, timestamp);
      } else {
        SequencingLeavesClock(env, wellFormed, s, mempool[1..], block, timestamp);
      }
    }
  }

  /**
   * ClockConsistency, whatever the user transactions were: the clock runs at the end of the block
   * exactly when it would have run on the base state, that is, for one single block id.
   */
  lemma ClockOutcome(env: Env, wellFormed: Tx -> bool, base: State, mempool: seq<Tx>, block: u64, timestamp: u64)
    requires env.clockId in env.systemIds
    ensures var m := ProtocolMachine(env, wellFormed, block, timestamp);
      && (m.clock(AfterSequencing(m, base, mempool)).Some? <==> m.clock(base).Some?)
      && (m.clock(base).Some? <==>
            Get(base.accounts, env.clockId).data.ClockRecord?
            && block == Get(base.accounts, env.clockId).data.blockId as int + 1)
  {
    SequencingLeavesClock(env, wellFormed, base, mempool, block, timestamp);
  }

  // ---------- Which accounts need comparing ----------

  function KeysOf(diffs: seq<Diff>): set<AccountId> {
    if diffs == [] then {} else diffs[0].publicDiff.Keys + KeysOf(diffs[1..])
  }

  /** The ids that the target adds to those of genesis: the keys of the diff of every accepted transaction. */
  function Touched(env: Env, wellFormed: Tx -> bool, s: State, mempool: seq<Tx>, block: u64, timestamp: u64)
    : set<AccountId>
  {
    KeysOf(Diffs(ProtocolMachine(env, wellFormed, block, timestamp), s, mempool))
  }

  /**
   * How much comparing the touched ids can miss: outside them balances and data stay as they were,
   * and what may differ is the nonce of an accepted signer that no diff declares.
   */
  lemma {:induction false} OnlyTouchedChange(env: Env, wellFormed: Tx -> bool, s: State, mempool: seq<Tx>,
                                             block: u64, timestamp: u64, id: AccountId)
    requires id !in Touched(env, wellFormed, s, mempool, block, timestamp)
    ensures var m := ProtocolMachine(env, wellFormed, block, timestamp);
      var before, after := Get(s.accounts, id), Get(AfterSequencing(m, s, mempool).accounts, id);
      && after.balance == before.balance && after.data == before.data
      && (after != before ==> exists tx :: tx in Block(m, s, mempool) && id in SignersOf(tx))
    decreases |mempool|
  {
    if mempool != [] {
      var m := ProtocolMachine(env, wellFormed, block, timestamp);
      var tx := mempool[0];
      if Included(m, s, tx) {
        ValidIsApplicable(env, s, tx, block, timestamp);
        var next := Split(m, s, tx).value;
        OnlyTouchedChange(env, wellFormed, next, mempool[1..], block, timestamp, id);
        UntouchedStep(env, s, tx, block, timestamp, id);
      } else {
        OnlyTouchedChange(env, wellFormed, s, mempool[1..], block, timestamp, id);
      }
    }
  }

  lemma UntouchedStep(env: Env, s: State, tx: Tx, block: u64, timestamp: u64, id: AccountId)
    requires Accepts(env, s, tx, block, timestamp) && id !in Validate(env, s, tx, block, timestamp).diff.publicDiff
    ensures var before, after := Get(s.accounts, id), Get(Execute(env, s, tx, block, timestamp).accounts, id);
      && after.balance == before.balance && after.data == before.data
      && (after != before ==> id in SignersOf(tx))
  {}

  // ---------- The target ----------

  /** SequencerReplayerEquivalence: the comparison, id by id, in any order. */
  method Compare(a: Accounts, b: Accounts, ids: set<AccountId>) returns (equal: bool)
    ensures equal <==> forall id :: id in ids ==> Get(a, id) == Get(b, id)
  {
    var left := ids;
    while left != {}
      invariant left <= ids
      invariant forall id :: id in ids && id !in left ==> Get(a, id) == Get(b, id)
    {
      var id :| id in left;
      if Get(a, id) != Get(b, id) {
        return false;
      }
      left := left - {id};
    }
    equal := true;
  }

  /** The ids that the target compares. */
  function Compared(genesisIds: set<AccountId>, diffs: seq<Diff>, clockIds: set<AccountId>, runClock: bool)
    : set<AccountId>
  {
    genesisIds + KeysOf(diffs) + if runClock then clockIds else {}
  }

  /** Those are the ids of genesis, the keys of the diff of any included transaction, and with the clock its ids. */
  lemma {:induction false} ComparedIds(genesisIds: set<AccountId>, diffs: seq<Diff>, clockIds: set<AccountId>,
                                       runClock: bool, id: AccountId)
    ensures id in Compared(genesisIds, diffs, clockIds, runClock)
      <==>
      || id in genesisIds
      || (runClock && id in clockIds)
      || exists k :: 0 <= k < |diffs| && id in diffs[k].publicDiff
  {
    KeysOfDiffs(diffs, id);
  }

  lemma {:induction false} KeysOfDiffs(diffs: seq<Diff>, id: AccountId)
    ensures id in KeysOf(diffs) <==> exists k :: 0 <= k < |diffs| && id in diffs[k].publicDiff
  {
    if diffs != [] {
      KeysOfDiffs(diffs[1..], id);
      if k :| 0 <= k < |diffs[1..]| && id in diffs[1..][k].publicDiff {
        assert id in diffs[k + 1].publicDiff;
      }
      if k :| 0 < k < |diffs| && id in diffs[k].publicDiff {
        assert diffs[1..][k - 1] == diffs[k];
      }
    }
  }

  /** The target for any machine: exactly when it gives the block up, and exactly when an assertion of it fails. */
  method RunAnyTarget(m: Machine<State, Tx, Diff>, genesisIds: set<AccountId>, clockIds: set<AccountId>, base: State,
                      mempool: seq<Tx>, runClock: bool)
    returns (aborted: bool, violated: bool)
    ensures aborted <==> runClock && m.clock(AfterSequencing(m, base, mempool)).None?
    ensures violated <==> !aborted && Violated(m, genesisIds, clockIds, base, mempool, runClock)
  {
    var v, diffs := RunTarget(m, base, mempool, runClock);
    match v
    case BlockAborted => return true, false;
    case ReplayerRejected => return false, true;
    case ClockDiverged => return false, true;
    case Finished(sequencer, replayer) =>
      var equal := Compare(sequencer.accounts, replayer.accounts, Compared(genesisIds, diffs, clockIds, runClock));
      return false, !equal;
  }

  /** What the assertions forbid: a rejected replay, a clock that fails on it, or a compared account that differs. */
  ghost predicate Violated(m: Machine<State, Tx, Diff>, genesisIds: set<AccountId>, clockIds: set<AccountId>,
                           base: State, mempool: seq<Tx>, runClock: bool)
    requires runClock ==> m.clock(AfterSequencing(m, base, mempool)).Some?
  {
    var sequenced, replayed := AfterSequencing(m, base, mempool), AfterReplay(m, base, Block(m, base, mempool));
    || replayed.None?
    || (runClock && m.clock(replayed.value).None?)
    || (var a := if runClock then m.clock(sequenced).value else sequenced;
        var b := if runClock then m.clock(replayed.value).value else replayed.value;
        exists id :: id in Compared(genesisIds, Diffs(m, base, mempool), clockIds, runClock)
                     && Get(a.accounts, id) != Get(b.accounts, id))
  }

  /**
   * On the specified machine no assertion of the target fails, for any base state and mempool; the
   * block is given up exactly when its id does not follow the clock's.
   */
  method RunProtocolTarget(env: Env, wellFormed: Tx -> bool, genesisIds: set<AccountId>, base: State, mempool: seq<Tx>,
                           block: u64, timestamp: u64, runClock: bool)
    returns (aborted: bool, violated: bool)
    requires env.clockId in env.systemIds
    ensures !violated
    ensures aborted <==> runClock && ClockStep(env, base, block, timestamp).None?
  {
    var m := ProtocolMachine(env, wellFormed, block, timestamp);
    ProtocolIsSplitPathEquivalent(env, wellFormed, block, timestamp);
    ReplayerFollowsSequencer(m, base, mempool);
    ClockOutcome(env, wellFormed, base, mempool, block, timestamp);
    aborted, violated := RunAnyTarget(m, genesisIds, {env.clockId}, base, mempool, runClock);
  }

  /** From a generated genesis, whose clock stands at block 0, the only block that is not given up is block 1. */
  lemma OnlyBlockOneRuns(env: Env, sys: SystemAccounts, balances: seq<(AccountId, u128)>, commitments: seq<Commitment>,
                         i: nat, start: u64, block: u64, timestamp: u64)
    requires i < |sys.clocks| && sys.clocks[i] == (env.clockId, Account(0, 0, ClockRecord(0, start)))
    requires forall j :: i + 1 < j < |Overlay(sys)| ==> Overlay(sys)[j].0 != env.clockId
    ensures var base := State(GenesisAccounts(sys, balances), commitments, {env.rootOf(commitments)}, {}, map[]);
      ClockStep(env, base, block, timestamp).Some? <==> block == 1
  {
    assert Overlay(sys)[i + 1] == sys.clocks[i];
    ReservedIsOverwritten(sys, balances, i + 1);
  }
}
