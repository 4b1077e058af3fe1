/**
 * The lockstep oracle in both directions: what a passing run says about an arbitrary machine, and
 * that the protocol itself is never accused.
 */
module LockstepOracle {
  import opened Integers
  import opened Identity
  import opened Protocol
  import opened Runs
  import DirectPath
  import opened Checkers
  import opened MultiBlock
  import opened Generators
  import opened Lockstep
  import opened LockstepProofs

  // ---------- Soundness: a passing run, whatever the machine ----------

  /** A replay with nothing to replay: the loop skips it without comparing. */
  ghost predicate SkippedStep(accs: seq<FuzzAccount>, l: Lock, cmds: seq<Command>, i: nat)
    requires Covers(accs, l.book) && i < |cmds|
  {
    cmds[i].ReplayLast? && RunModel(accs, l, cmds[..i]).last.None?
  }

  /** After every compared step the accounts of the machine are those of the model. */
  lemma {:induction false} PassingRunAgrees(accs: seq<FuzzAccount>, l: Lock, cmds: seq<Command>,
                                            observed: seq<Observation>, i: nat)
    requires Covers(accs, l.book) && |observed| == |cmds| && i < |cmds|
    requires LockstepPasses(accs, l, cmds, observed) && !SkippedStep(accs, l, cmds, i)
    ensures Agrees(RunModel(accs, l, cmds[..i + 1]).book, observed[i].after)
    ensures observed[i].accepted && !cmds[i].AdvanceBlock? <==>
      AcceptedIn(accs, RunModel(accs, l, cmds[..i]), cmds[i]).Some?
    decreases |cmds|
  {
    assert cmds[..i + 1][0] == cmds[0] && cmds[..i + 1][1..] == cmds[1..][..i];
    var next := StepOf(accs, l, cmds[0]);
    if i == 0 {
      assert cmds[..0] == [] && cmds[1..][..0] == [];
      assert RunModel(accs, l, cmds[..1]) == next;
    } else {
      assert cmds[..i][0] == cmds[0] && cmds[..i][1..] == cmds[1..][..i - 1];
      assert observed[1..][i - 1] == observed[i] && cmds[1..][i - 1] == cmds[i];
      PassingRunAgrees(accs, next, cmds[1..], observed[1..], i - 1);
    }
  }

  lemma AgreementIsTotal(book: Book, accounts: Accounts)
    requires Agrees(book, accounts)
    ensures Total(accounts, book.Keys) == TotalOf(book)
  {
    assert Balances(accounts, book.Keys) == BalancesIn(book);
  }

  /**
   * A machine that passes from a generated genesis has, at every compared step, conserved the
   * generated supply, stayed below the cap of the generator, and counted in each nonce exactly the
   * transfers it accepted from that account.
   */
  lemma PassingRunConserves(idOf: PrivateKey -> AccountId, reserved: seq<AccountId>, accs: seq<FuzzAccount>,
                            cmds: seq<Command>, observed: seq<Observation>, i: nat)
    requires WellGenerated(idOf, reserved, accs) && Covers(accs, Start(accs).book)
    requires |observed| == |cmds| <= U128_MAX && i < |cmds|
    requires LockstepPasses(accs, Start(accs), cmds, observed) && !SkippedStep(accs, Start(accs), cmds, i)
    ensures Total(observed[i].after, Start(accs).book.Keys) == TotalOf(Start(accs).book) <= 8 * CAP < U128_MAX
    ensures forall id :: id in Start(accs).book ==>
      Get(observed[i].after, id).nonce == |SentBy(accs, Start(accs), cmds[..i + 1], id)|
  {
    var end := RunModel(accs, Start(accs), cmds[..i + 1]);
    PassingRunAgrees(accs, Start(accs), cmds, observed, i);
    AgreementIsTotal(end.book, observed[i].after);
    SupplyIsBounded(idOf, reserved, accs, cmds[..i + 1], end);
    forall id | id in Start(accs).book
      ensures Get(observed[i].after, id).nonce == |SentBy(accs, Start(accs), cmds[..i + 1], id)|
    {
      NonceIsAcceptedCount(idOf, reserved, accs, cmds[..i + 1], end, id);
    }
  }

  // ---------- Completeness: the protocol against the model ----------

  function TxOf(t: Sent): Tx {
    Tx.Transfer(t.from, t.to, t.nonce, t.amount)
  }

  predicate Ordinary(env: Env, book: Book) {
    forall id :: id in book ==> id !in env.systemIds
  }

  /**
   * The prediction is exact, up to the one rule the model leaves out: a sender whose nonce cannot
   * be incremented any more.  Then both sides move alike.
   */
  lemma PredictionIsExact(env: Env, s: State, book: Book, t: Sent, block: u64, timestamp: u64)
    requires Agrees(book, s.accounts) && Ordinary(env, book)
    requires t.from in book && t.to in book && t.from != t.to
    ensures Accepts(env, s, TxOf(t), block, timestamp) <==> PredictedFor(book, t).Accept? && t.nonce < U128_MAX
    ensures Accepts(env, s, TxOf(t), block, timestamp) ==>
      Agrees(Transferred(book, t.from, t.to, t.amount), Execute(env, s, TxOf(t), block, timestamp).accounts)
    ensures !Accepts(env, s, TxOf(t), block, timestamp) ==> Execute(env, s, TxOf(t), block, timestamp) == s
  {
    assert Get(s.accounts, t.from).balance == book[t.from].balance;
    assert Get(s.accounts, t.from).nonce == book[t.from].nonce;
    assert Get(s.accounts, t.to).balance == book[t.to].balance;
    if Accepts(env, s, TxOf(t), block, timestamp) {
      TransferAgrees(env, s, book, t, block, timestamp);
    }
  }

  lemma TransferAgrees(env: Env, s: State, book: Book, t: Sent, block: u64, timestamp: u64)
    requires Agrees(book, s.accounts) && Transferable(book, t.from, t.to, t.amount)
    requires Accepts(env, s, TxOf(t), block, timestamp)
    ensures Agrees(Transferred(book, t.from, t.to, t.amount), Execute(env, s, TxOf(t), block, timestamp).accounts)
  {
    var after := Execute(env, s, TxOf(t), block, timestamp).accounts;
    TransferOutcome(env, s, TxOf(t), block, timestamp);
    ExecuteEffect(env, s, TxOf(t), block, timestamp);
    var moved := Transferred(book, t.from, t.to, t.amount);
    forall id | id in moved
      ensures Get(after, id).balance == moved[id].balance && Get(after, id).nonce == moved[id].nonce
    {
      assert Get(s.accounts, id).balance == book[id].balance && Get(s.accounts, id).nonce == book[id].nonce;
      assert multiset(SignersOf(TxOf(t)))[id] == if id == t.from then 1 else 0;
    }
  }

  /**
   * The machine state after one command.  A replay resubmits what the model last accepted: up to the
   * first failed comparison that is what the machine last accepted.
   */
  ghost function MachineStep(env: Env, accs: seq<FuzzAccount>, l: Lock, s: State, cmd: Command): State
    requires Covers(accs, l.book)
  {
    match cmd
    case AdvanceBlock(_) => s
    case ReplayLast => if l.last.None? then s else Execute(env, s, TxOf(l.last.value), l.blockId, l.timestamp)
    case Transfer(_, _, _, _) => Execute(env, s, TxOf(Resolve(accs, l.book, cmd)), l.blockId, l.timestamp)
  }

  /** What the loop sees of the protocol for one command. */
  ghost function Observe(env: Env, accs: seq<FuzzAccount>, l: Lock, s: State, cmd: Command): Observation
    requires Covers(accs, l.book)
  {
    var accepted := match cmd
      case AdvanceBlock(_) => false
      case ReplayLast => l.last.Some? && Accepts(env, s, TxOf(l.last.value), l.blockId, l.timestamp)
      case Transfer(_, _, _, _) => Accepts(env, s, TxOf(Resolve(accs, l.book, cmd)), l.blockId, l.timestamp);
    Observation(accepted, MachineStep(env, accs, l, s, cmd).accounts)
  }

  /**
   * The machine is the direct path: a transfer command executes its transaction, a replay executes
   * the recorded one again, and nothing else touches the state.
   */
  lemma ObserveIsDirect(env: Env, accs: seq<FuzzAccount>, l: Lock, s: State, cmd: Command)
    requires Covers(accs, l.book)
    ensures var o, next := Observe(env, accs, l, s, cmd), MachineStep(env, accs, l, s, cmd);
      && o.after == next.accounts
      && (cmd.AdvanceBlock? || (cmd.ReplayLast? && l.last.None?) ==> !o.accepted && next == s)
      && (cmd.Transfer? || (cmd.ReplayLast? && l.last.Some?) ==>
            var t := if cmd.Transfer? then Resolve(accs, l.book, cmd) else l.last.value;
            var direct := DirectPath.ExecuteInPlace(
              env, s, Tx.Transfer(t.from, t.to, t.nonce, t.amount), l.blockId, l.timestamp);
            o.accepted == direct.Some? && next == if direct.Some? then direct.value else s)
  {
    if cmd.Transfer? {
      DirectPath.DirectIsSplit(env, s, TxOf(Resolve(accs, l.book, cmd)), l.blockId, l.timestamp);
    } else if cmd.ReplayLast? && l.last.Some? {
      DirectPath.DirectIsSplit(env, s, TxOf(l.last.value), l.blockId, l.timestamp);
    }
  }

  ghost function Observed(env: Env, accs: seq<FuzzAccount>, l: Lock, s: State, cmds: seq<Command>)
    : (r: seq<Observation>)
    requires Covers(accs, l.book)
    ensures |r| == |cmds|
    decreases |cmds|
  {
    if cmds == [] then []
    else
      [Observe(env, accs, l, s, cmds[0])]
      + Observed(env, accs, StepOf(accs, l, cmds[0]), MachineStep(env, accs, l, s, cmds[0]), cmds[1..])
  }

  /** No transfer accepted by the model uses up the last nonce of its sender. */
  ghost predicate NeverExhausts(accs: seq<FuzzAccount>, l: Lock, cmds: seq<Command>)
    requires Covers(accs, l.book)
    decreases |cmds|
  {
    cmds == [] ||
    ((var t := AcceptedIn(accs, l, cmds[0]); t.Some? ==> t.value.nonce < U128_MAX)
     && NeverExhausts(accs, StepOf(accs, l, cmds[0]), cmds[1..]))
  }

  /** One command: the comparison succeeds unless the last nonce is used up, and then the two sides stay aligned. */
  lemma StepIsExact(env: Env, accs: seq<FuzzAccount>, l: Lock, s: State, cmd: Command)
    requires Covers(accs, l.book) && Ordinary(env, l.book) && Agrees(l.book, s.accounts) && LastIsStale(l)
    ensures var t := AcceptedIn(accs, l, cmd);
      var next := StepOf(accs, l, cmd);
      && (ObservationOk(accs, l, cmd, Observe(env, accs, l, s, cmd)) <==> (t.Some? ==> t.value.nonce < U128_MAX))
      && ((t.Some? ==> t.value.nonce < U128_MAX) ==> Agrees(next.book, MachineStep(env, accs, l, s, cmd).accounts))
      && LastIsStale(next)
  {
    match cmd
    case AdvanceBlock(_) =>
    case ReplayLast =>
      if l.last.Some? {
        assert Get(s.accounts, l.last.value.from).nonce == l.book[l.last.value.from].nonce;
      }
    case Transfer(_, _, _, _) =>
      var t := Resolve(accs, l.book, cmd);
      ResolvedIsTransferable(accs, l.book, cmd);
      PredictionIsExact(env, s, l.book, t, l.blockId, l.timestamp);
  }

  /**
   * The oracle raises no false alarm: from any aligned start and over any schedule, the protocol
   * passes the comparison if and only if no sender runs out of nonces.
   */
  lemma {:induction false} NoFalseAlarm(env: Env, accs: seq<FuzzAccount>, l: Lock, s: State, cmds: seq<Command>)
    requires Covers(accs, l.book) && Ordinary(env, l.book) && Agrees(l.book, s.accounts) && LastIsStale(l)
    ensures LockstepPasses(accs, l, cmds, Observed(env, accs, l, s, cmds)) <==> NeverExhausts(accs, l, cmds)
    decreases |cmds|
  {
    if cmds != [] {
      var next := StepOf(accs, l, cmds[0]);
      var machine := MachineStep(env, accs, l, s, cmds[0]);
      var rest := Observed(env, accs, next, machine, cmds[1..]);
      assert Observed(env, accs, l, s, cmds)[1..] == rest;
      StepIsExact(env, accs, l, s, cmds[0]);
      var t := AcceptedIn(accs, l, cmds[0]);
      if t.Some? ==> t.value.nonce < U128_MAX {
        NoFalseAlarm(env, accs, next, machine, cmds[1..]);
      }
    }
  }

  /** Running out takes as many commands as there are nonces left. */
  lemma {:induction false} ShortSchedulesNeverExhaust(accs: seq<FuzzAccount>, l: Lock, cmds: seq<Command>)
    requires Covers(accs, l.book)
    requires forall id :: id in l.book ==> l.book[id].nonce + |cmds| <= U128_MAX
    ensures NeverExhausts(accs, l, cmds)
    decreases |cmds|
  {
    if cmds != [] {
      var next := StepOf(accs, l, cmds[0]);
      if cmds[0].Transfer? {
        ResolvedIsTransferable(accs, l.book, cmds[0]);
      }
      forall id | id in next.book ensures next.book[id].nonce + |cmds[1..]| <= U128_MAX {
        StepNonce(accs, l, cmds[0], id);
        assert l.book[id].nonce + |cmds| <= U128_MAX;
      }
      ShortSchedulesNeverExhaust(accs, next, cmds[1..]);
    }
  }

  // ---------- From the generator to the verdict ----------

  lemma GenesisAgrees(sys: SystemAccounts, idOf: PrivateKey -> AccountId, accs: seq<FuzzAccount>)
    requires FeeIdsComplete(sys) && WellGenerated(idOf, ReservedAccountIds(sys), accs)
    ensures Agrees(Start(accs).book, GenesisAccounts(sys, InitAccs(accs)))
    ensures forall id :: id in Start(accs).book ==> id !in ReservedAccountIds(sys) && Start(accs).book[id].nonce == 0
  {
    var book, genesis := Start(accs).book, GenesisAccounts(sys, InitAccs(accs));
    BookOfEntries(InitAccs(accs));
    forall id | id in book
      ensures Get(genesis, id).balance == book[id].balance && Get(genesis, id).nonce == book[id].nonce
      ensures id !in ReservedAccountIds(sys) && book[id].nonce == 0
    {
      var i :| 0 <= i < |accs| && InitAccs(accs)[i] == (id, book[id].balance);
      assert accs[i] in accs;
      GenesisReadsBack(sys, accs, i);
    }
  }

  /**
   * End to end: for every output of the generator with two accounts or more, the genesis built from
   * it and every schedule shorter than 2^128 commands, the target passes on the protocol.
   */
  lemma {:induction false} GeneratedRunsPass(env: Env, sys: SystemAccounts, idOf: PrivateKey -> AccountId,
                                             accs: seq<FuzzAccount>, s: State, cmds: seq<Command>)
    requires FeeIdsComplete(sys) && WellGenerated(idOf, ReservedAccountIds(sys), accs) && |accs| >= 2
    requires env.systemIds <= AsSet(ReservedAccountIds(sys))
    requires s.accounts == GenesisAccounts(sys, InitAccs(accs))
    requires |cmds| <= U128_MAX
    ensures Covers(accs, Start(accs).book)
    ensures LockstepPasses(accs, Start(accs), cmds, Observed(env, accs, Start(accs), s, cmds))
  {
    StartCovers(accs);
    GenesisAgrees(sys, idOf, accs);
    ShortSchedulesNeverExhaust(accs, Start(accs), cmds);
    NoFalseAlarm(env, accs, Start(accs), s, cmds);
  }
}
