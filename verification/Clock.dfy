/** What the clock invocation leaves behind, and which sequences of blocks it lets through. */
module Clock {
  import opened Wrappers
  import opened Integers
  import opened Identity
  import opened Protocol
  import opened Generators
  import opened Pipeline
  import opened SequencerReplayer

  ghost predicate StandsAt(env: Env, s: State, block: u64, timestamp: u64) {
    Get(s.accounts, env.clockId).data == ClockRecord(block, timestamp)
  }

  /**
   * The step succeeds exactly on the block after the recorded one; then the record is the new block
   * and timestamp, and nothing else in the state has changed.
   */
  lemma ClockAdvances(env: Env, s: State, block: u64, timestamp: u64)
    ensures ClockStep(env, s, block, timestamp).Some?
      <==> exists b: u64, t: u64 :: StandsAt(env, s, b, t) && block == b + 1
    ensures ClockStep(env, s, block, timestamp).Some? ==>
      var next := ClockStep(env, s, block, timestamp).value;
      && StandsAt(env, next, block, timestamp)
      && Get(next.accounts, env.clockId).balance == Get(s.accounts, env.clockId).balance
      && Get(next.accounts, env.clockId).nonce == Get(s.accounts, env.clockId).nonce
      && (forall id :: id != env.clockId ==> Get(next.accounts, id) == Get(s.accounts, id))
      && next.commitments == s.commitments && next.rootHistory == s.rootHistory
      && next.spent == s.spent && next.programs == s.programs
  {
    var data := Get(s.accounts, env.clockId).data;
    if data.ClockRecord? {
      assert StandsAt(env, s, data.blockId, data.timestamp);
    }
  }

  // ---------- Chains of blocks ----------

  datatype Slot = Slot(mempool: seq<Tx>, block: u64, timestamp: u64)

  /** Sequencing one block and closing it with the clock; `None` gives the block up. */
  function Close(env: Env, wellFormed: Tx -> bool, s: State, slot: Slot): Option<State> {
    var m := ProtocolMachine(env, wellFormed, slot.block, slot.timestamp);
    m.clock(AfterSequencing(m, s, slot.mempool))
  }

  function Chain(env: Env, wellFormed: Tx -> bool, s: State, slots: seq<Slot>): Option<State>
    decreases |slots|
  {
    if slots == [] then Some(s)
    else
      match Close(env, wellFormed, s, slots[0])
      case None => None
      case Some(next) => Chain(env, wellFormed, next, slots[1..])
  }

  /** Closing a block works on the next id only, whatever the mempool, and records that block. */
  lemma CloseIsNext(env: Env, wellFormed: Tx -> bool, s: State, slot: Slot, b: u64, t: u64)
    requires env.clockId in env.systemIds && StandsAt(env, s, b, t)
    ensures Close(env, wellFormed, s, slot).Some? <==> slot.block == b + 1
    ensures Close(env, wellFormed, s, slot).Some? ==>
      StandsAt(env, Close(env, wellFormed, s, slot).value, slot.block, slot.timestamp)
  {
    var m := ProtocolMachine(env, wellFormed, slot.block, slot.timestamp);
    SequencingLeavesClock(env, wellFormed, s, slot.mempool, slot.block, slot.timestamp);
    ClockAdvances(env, AfterSequencing(m, s, slot.mempool), slot.block, slot.timestamp);
  }

  /** Once a block has run, neither it nor an earlier one runs next, with any mempool and timestamp. */
  lemma NeverTwice(env: Env, wellFormed: Tx -> bool, s: State, slot: Slot, again: Slot)
    requires env.clockId in env.systemIds
    requires Close(env, wellFormed, s, slot).Some? && again.block <= slot.block
    ensures Close(env, wellFormed, Close(env, wellFormed, s, slot).value, again).None?
  {
    var m := ProtocolMachine(env, wellFormed, slot.block, slot.timestamp);
    ClockAdvances(env, AfterSequencing(m, s, slot.mempool), slot.block, slot.timestamp);
    CloseIsNext(env, wellFormed, Close(env, wellFormed, s, slot).value, again, slot.block, slot.timestamp);
  }

  ghost predicate Counts(slots: seq<Slot>, b: nat) {
    forall i :: 0 <= i < |slots| ==> slots[i].block == b + 1 + i
  }

  /**
   * A chain of blocks with any mempools runs exactly when its ids go on from the recorded one
   * without a gap or a repetition, and it leaves the last block and timestamp on record.
   */
  lemma {:induction false} ChainIffConsecutive(env: Env, wellFormed: Tx -> bool, s: State, slots: seq<Slot>,
                                               b: u64, t: u64)
    requires env.clockId in env.systemIds && StandsAt(env, s, b, t)
    ensures Chain(env, wellFormed, s, slots).Some? <==> Counts(slots, b)
    ensures slots != [] && Counts(slots, b) ==>
      StandsAt(env, Chain(env, wellFormed, s, slots).value, slots[|slots| - 1].block, slots[|slots| - 1].timestamp)
    decreases |slots|
  {
    if slots != [] {
      CloseIsNext(env, wellFormed, s, slots[0], b, t);
      if slots[0].block == b + 1 {
        var next := Close(env, wellFormed, s, slots[0]).value;
        ChainIffConsecutive(env, wellFormed, next, slots[1..], slots[0].block, slots[0].timestamp);
        CountsCons(slots, b);
      }
    }
  }

  lemma CountsCons(slots: seq<Slot>, b: nat)
    requires slots != [] && slots[0].block == b + 1
    ensures Counts(slots, b) <==> Counts(slots[1..], b + 1)
  {
    if Counts(slots[1..], b + 1) {
      forall i | 0 <= i < |slots| ensures slots[i].block == b + 1 + i {
        assert i > 0 ==> slots[i] == slots[1..][i - 1];
      }
    }
  }

  /** From genesis, where the clock stands at block 0: a chain runs exactly when its ids are 1, 2, 3, ... */
  lemma GenesisChain(env: Env, wellFormed: Tx -> bool, sys: SystemAccounts, balances: seq<(AccountId, u128)>,
                     commitments: seq<Commitment>, i: nat, start: u64, slots: seq<Slot>)
    requires env.clockId in env.systemIds
    requires i < |sys.clocks| && sys.clocks[i] == (env.clockId, Account(0, 0, ClockRecord(0, start)))
    requires forall j :: i + 1 < j < |Overlay(sys)| ==> Overlay(sys)[j].0 != env.clockId
    ensures var base := State(GenesisAccounts(sys, balances), commitments, {env.rootOf(commitments)}, {}, map[]);
      Chain(env, wellFormed, base, slots).Some? <==> forall k :: 0 <= k < |slots| ==> slots[k].block == k + 1
  {
    var base := State(GenesisAccounts(sys, balances), commitments, {env.rootOf(commitments)}, {}, map[]);
    assert Overlay(sys)[i + 1] == sys.clocks[i];
    ReservedIsOverwritten(sys, balances, i + 1);
    ChainIffConsecutive(env, wellFormed, base, slots, 0, start);
  }
}
