/** The private state-transition target, run over generated transactions on the specified machine. */
module PrivateTarget {
  import opened Integers
  import opened Identity
  import opened Protocol
  import opened Runs
  import DirectPath
  import opened Privacy
  import opened Builders
  import opened Checkers
  import opened Effects

  // ---------- The checks, on any machine ----------

  /** What the machine under test did with one transaction, and with its replay if it was accepted. */
  datatype Seen = Seen(accepted: bool, after: State, replayAccepted: bool)

  function Tracked(accounts: seq<FuzzAccount>, tx: Tx): set<AccountId>
    requires tx.Private?
  {
    AsSet(Ids(accounts)) + AsSet(tx.signers) + AsSet(PublicIds(tx.message))
  }

  /** Everything the target asserts about one transaction. */
  ghost predicate ChecksHold(env: Env, before: State, accounts: seq<FuzzAccount>, tx: Tx, seen: Seen)
    requires tx.Private?
  {
    var ids := AsSet(Ids(accounts)) + AsSet(tx.signers) + AsSet(PublicIds(tx.message));
    if seen.accepted then
      && (forall i :: 0 <= i < |tx.message.privateActions| ==>
            tx.message.privateActions[i].commitment in seen.after.commitments)
      && (forall id :: id in tx.signers ==>
            Get(seen.after.accounts, id).nonce == Get(before.accounts, id).nonce as int + 1)
      && (forall i :: 0 <= i < |tx.message.publicActions| ==>
            ActionApplied(env, before.accounts, seen.after.accounts, tx.signers, tx.message.publicActions[i]))
      && !seen.replayAccepted
    else
      && (forall id :: id in ids ==>
            && Get(seen.after.accounts, id).balance == Get(before.accounts, id).balance
            && Get(seen.after.accounts, id).nonce == Get(before.accounts, id).nonce)
      && env.rootOf(seen.after.commitments) == env.rootOf(before.commitments)
  }

  /** One iteration of the target after the execution: its verdict is that conjunction, whatever the machine did. */
  method CheckOne(env: Env, before: State, accounts: seq<FuzzAccount>, tx: Tx, seen: Seen) returns (ok: bool)
    requires tx.Private?
    ensures ok <==> ChecksHold(env, before, accounts, tx, seen)
  {
    var tracked := Tracked(accounts, tx);
    var balances, nonces := Balances(before.accounts, tracked), Nonces(before.accounts, tracked);
    var ctx := Ctx(seen.after.accounts, seen.accepted, balances, nonces);
    var isolation := CheckStateIsolation(ctx);
    if isolation.Some? {
      assert exists id :: id in tracked && Get(seen.after.accounts, id).balance != Get(before.accounts, id).balance;
      return false;
    }
    var stability := CheckNonceStability(ctx);
    if stability.Some? {
      assert exists id :: id in tracked && Get(seen.after.accounts, id).nonce != Get(before.accounts, id).nonce;
      return false;
    }
    if !seen.accepted {
      SnapshotsAgree(before.accounts, seen.after.accounts, tracked);
      return env.rootOf(seen.after.commitments) == env.rootOf(before.commitments);
    }
    for i := 0 to |tx.message.privateActions|
      invariant forall j :: 0 <= j < i ==> tx.message.privateActions[j].commitment in seen.after.commitments
    {
      if tx.message.privateActions[i].commitment !in seen.after.commitments {
        return false;
      }
    }
    var incremented := AssertNonceIncrement(tx.signers, nonces, seen.after.accounts);
    if incremented.Some? {
      return false;
    }
    var applied := CheckPublicEffects(env, before.accounts, seen.after.accounts, tx.message.publicActions, tx.signers);
    ok := applied && !seen.replayAccepted;
  }

  lemma SnapshotsAgree(before: Accounts, after: Accounts, tracked: set<AccountId>)
    requires Balances(after, tracked) == Balances(before, tracked) && Nonces(after, tracked) == Nonces(before, tracked)
    ensures forall id :: id in tracked ==>
      Get(after, id).balance == Get(before, id).balance && Get(after, id).nonce == Get(before, id).nonce
  {
    forall id | id in tracked
      ensures Get(after, id).balance == Get(before, id).balance && Get(after, id).nonce == Get(before, id).nonce
    {
      assert Balances(after, tracked)[id] == Balances(before, tracked)[id];
      assert Nonces(after, tracked)[id] == Nonces(before, tracked)[id];
    }
  }

  // ---------- On the specified machine ----------

  /** The specified machine, replaying at the next block and timestamp. */
  function SeenOf(env: Env, s: State, x: Submission): Seen
    requires x.block < U64_MAX && x.timestamp < U64_MAX
  {
    var after := Execute(env, s, x.tx, x.block, x.timestamp);
    Seen(Accepts(env, s, x.tx, x.block, x.timestamp), after, Accepts(env, after, x.tx, x.block + 1, x.timestamp + 1))
  }

  /** That is what the direct path does, twice over. */
  lemma SeenIsDirect(env: Env, s: State, x: Submission)
    requires x.block < U64_MAX && x.timestamp < U64_MAX
    ensures var seen := SeenOf(env, s, x);
      var first := DirectPath.ExecuteInPlace(env, s, x.tx, x.block, x.timestamp);
      && seen.accepted == first.Some? && seen.after == (if first.Some? then first.value else s)
      && seen.replayAccepted == DirectPath.ExecuteInPlace(env, seen.after, x.tx, x.block + 1, x.timestamp + 1).Some?
  {
    DirectPath.DirectIsSplit(env, s, x.tx, x.block, x.timestamp);
    DirectPath.DirectIsSplit(env, Execute(env, s, x.tx, x.block, x.timestamp), x.tx, x.block + 1, x.timestamp + 1);
  }

  /** All the checks hold of it, for any transaction with distinct signers. */
  lemma ChecksAlwaysHold(env: Env, s: State, accounts: seq<FuzzAccount>, x: Submission)
    requires x.tx.Private? && Distinct(x.tx.signers) && x.block < U64_MAX && x.timestamp < U64_MAX
    ensures ChecksHold(env, s, accounts, x.tx, SeenOf(env, s, x))
  {
    if Accepts(env, s, x.tx, x.block, x.timestamp) {
      var tracked := Tracked(accounts, x.tx);
      SuccessPathHolds(env, s, x.tx, x.block, x.timestamp, x.block + 1, x.timestamp + 1, tracked);
      forall i | 0 <= i < |x.tx.message.privateActions|
        ensures x.tx.message.privateActions[i].commitment
             in Execute(env, s, x.tx, x.block, x.timestamp).commitments
      {
        assert Commitments(x.tx.message)[i] in Commitments(x.tx.message);
      }
    }
  }

  /**
   * The run of the target: submission `i` is drawn from `draws[i]` against the state that those
   * before it left, and goes in at block `1 + i` and timestamp `i`.
   */
  ghost predicate DrawnRun(env: Env, idOf: PrivateKey -> AccountId, genesis: State, accounts: seq<FuzzAccount>,
                           draws: seq<PrivacyDraws>, subs: seq<Submission>)
  {
    |subs| <= |draws| && forall i :: 0 <= i < |subs| ==> DrawnAt(env, idOf, genesis, accounts, draws, subs, i)
  }

  ghost predicate DrawnAt(env: Env, idOf: PrivateKey -> AccountId, genesis: State, accounts: seq<FuzzAccount>,
                          draws: seq<PrivacyDraws>, subs: seq<Submission>, i: nat)
    requires i < |subs| <= |draws|
  {
    && subs[i].block == 1 + i && subs[i].timestamp == i
    && Generated(env, idOf, Run(env, genesis, subs[..i]), accounts, draws[i], subs[i].tx)
  }

  lemma DrawnSnoc(env: Env, idOf: PrivateKey -> AccountId, genesis: State, accounts: seq<FuzzAccount>,
                  draws: seq<PrivacyDraws>, subs: seq<Submission>, x: Submission)
    requires DrawnRun(env, idOf, genesis, accounts, draws, subs) && |subs| < |draws|
    requires x.block == 1 + |subs| && x.timestamp == |subs|
    requires Generated(env, idOf, Run(env, genesis, subs), accounts, draws[|subs|], x.tx)
    ensures DrawnRun(env, idOf, genesis, accounts, draws, subs + [x])
  {
    var longer := subs + [x];
    forall i | 0 <= i < |longer| ensures DrawnAt(env, idOf, genesis, accounts, draws, longer, i) {
      assert longer[..i] == subs[..i];
      if i < |subs| {
        assert DrawnAt(env, idOf, genesis, accounts, draws, subs, i);
      } else {
        assert subs[..i] == subs;
      }
    }
  }

  /** For every genesis and all draws no assertion of the target fails. */
  method RunTarget(env: Env, idOf: PrivateKey -> AccountId, genesis: State, accounts: seq<FuzzAccount>,
                   draws: seq<PrivacyDraws>)
    returns (ok: bool, state: State, ghost subs: seq<Submission>)
    requires |draws| <= 5
    ensures ok && state == Run(env, genesis, subs)
    ensures |subs| == |draws| && DrawnRun(env, idOf, genesis, accounts, draws, subs)
  {
    state, subs := genesis, [];
    for i := 0 to |draws|
      invariant |subs| == i && state == Run(env, genesis, subs)
      invariant DrawnRun(env, idOf, genesis, accounts, draws, subs)
    {
      var tx := ArbPrivacyPreservingTx(env, idOf, state, accounts, draws[i]);
      var x := Submission(tx, 1 + i, i);
      DrawnSnoc(env, idOf, genesis, accounts, draws, subs, x);
      RunSnoc(env, genesis, subs, x);
      ok, state := OneRound(env, idOf, state, accounts, draws[i], x);
      subs := subs + [x];
    }
    ok := true;
  }

  /** One round: execute, check, and replay an accepted transaction in place at the next clock. */
  method OneRound(env: Env, idOf: PrivateKey -> AccountId, before: State, accounts: seq<FuzzAccount>,
                  d: PrivacyDraws, x: Submission)
    returns (ok: bool, after: State)
    requires Generated(env, idOf, before, accounts, d, x.tx) && x.block < U64_MAX && x.timestamp < U64_MAX
    ensures ok && after == Execute(env, before, x.tx, x.block, x.timestamp)
  {
    GeneratedShape(env, idOf, before, accounts, d, x.tx);
    ChecksAlwaysHold(env, before, accounts, x);
    ok := CheckOne(env, before, accounts, x.tx, SeenOf(env, before, x));
    after := Execute(env, before, x.tx, x.block, x.timestamp);
    if Accepts(env, before, x.tx, x.block, x.timestamp) {
      ReplayLeavesNoTrace(env, before, x);
      after := Execute(env, after, x.tx, x.block + 1, x.timestamp + 1);
    }
  }

  /** The replay of an accepted transaction, executed in place, leaves the state it found. */
  lemma ReplayLeavesNoTrace(env: Env, s: State, x: Submission)
    requires x.block < U64_MAX && x.timestamp < U64_MAX && Accepts(env, s, x.tx, x.block, x.timestamp)
    ensures var after := Execute(env, s, x.tx, x.block, x.timestamp);
      Execute(env, after, x.tx, x.block + 1, x.timestamp + 1) == after
  {
    AcceptedOnlyOnce(env, s, x, [], x.block + 1, x.timestamp + 1);
  }
}
