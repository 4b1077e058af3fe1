/** Safety of the state machine over whole runs of arbitrary transactions at arbitrary clocks. */
module Runs {
  import opened Integers
  import opened Identity
  import opened Protocol

  datatype Submission = Submission(tx: Tx, block: u64, timestamp: u64)

  function Run(env: Env, s: State, subs: seq<Submission>): State
    decreases |subs|
  {
    if subs == [] then s
    else Run(env, Execute(env, s, subs[0].tx, subs[0].block, subs[0].timestamp), subs[1..])
  }

  /** The accepted transactions of a run, in order of acceptance. */
  function Accepted(env: Env, s: State, subs: seq<Submission>): seq<Tx>
    decreases |subs|
  {
    if subs == [] then []
    else
      var later := Accepted(env, Execute(env, s, subs[0].tx, subs[0].block, subs[0].timestamp), subs[1..]);
      if Accepts(env, s, subs[0].tx, subs[0].block, subs[0].timestamp) then [subs[0].tx] + later else later
  }

  ghost function SpentBy(txs: seq<Tx>): set<Nullifier> {
    set i, n | 0 <= i < |txs| && n in NullifiersOf(txs[i]) :: n
  }

  function CommittedBy(txs: seq<Tx>): seq<Commitment> {
    if txs == [] then [] else CommitmentsOf(txs[0]) + CommittedBy(txs[1..])
  }

  function SignaturesOf(txs: seq<Tx>, id: AccountId): nat {
    if txs == [] then 0 else multiset(SignersOf(txs[0]))[id] + SignaturesOf(txs[1..], id)
  }

  /** The roots that transactions record, in turn, on a tree with these leaves: one after each that adds leaves. */
  function RootsRecorded(env: Env, leaves: seq<Commitment>, txs: seq<Tx>): set<Root>
    decreases |txs|
  {
    if txs == [] then {}
    else
      var longer := leaves + CommitmentsOf(txs[0]);
      (if CommitmentsOf(txs[0]) == [] then {} else {env.rootOf(longer)}) + RootsRecorded(env, longer, txs[1..])
  }

  ghost predicate LiveRootKnown(env: Env, s: State) {
    env.rootOf(s.commitments) in s.rootHistory
  }

  /** `next` is `s` after the acceptance of `tx`, as far as the accumulating parts of the state go. */
  ghost predicate Advanced(env: Env, s: State, tx: Tx, next: State) {
    && next.spent == s.spent + NullifiersOf(tx)
    && next.commitments == s.commitments + CommitmentsOf(tx)
    && next.rootHistory == s.rootHistory + RootsRecorded(env, s.commitments, [tx])
    && next.programs == s.programs
    && (LiveRootKnown(env, s) ==> LiveRootKnown(env, next))
    && (forall id :: Get(next.accounts, id).nonce == Get(s.accounts, id).nonce + multiset(SignersOf(tx))[id])
  }

  /** What the acceptance of `tx` in `s` requires to be fresh. */
  ghost predicate Fresh(s: State, tx: Tx) {
    && NullifiersOf(tx) !! s.spent
    && Distinct(CommitmentsOf(tx))
    && (forall c :: c in CommitmentsOf(tx) ==> c !in s.commitments)
    && (tx.Private? ==> NullifiersOf(tx) != {})
  }

  lemma ApplyDiffAdvances(env: Env, s: State, tx: Tx, diff: Diff)
    requires Applicable(s, diff)
    requires diff.signers == SignersOf(tx)
    requires diff.newNullifiers == NullifiersOf(tx) && diff.newCommitments == CommitmentsOf(tx)
    requires forall id :: id in diff.publicDiff ==> diff.publicDiff[id].nonce == Get(s.accounts, id).nonce
    ensures Advanced(env, s, tx, ApplyDiff(env, s, diff))
  {
    NoncesAdvance(env, s, diff);
    assert [tx][1..] == [];
    assert CommitmentsOf(tx) == [] ==> s.commitments + CommitmentsOf(tx) == s.commitments;
  }

  lemma NoncesAdvance(env: Env, s: State, diff: Diff)
    requires Applicable(s, diff)
    requires forall id :: id in diff.publicDiff ==> diff.publicDiff[id].nonce == Get(s.accounts, id).nonce
    ensures forall id :: Get(ApplyDiff(env, s, diff).accounts, id).nonce
                         == Get(s.accounts, id).nonce + multiset(diff.signers)[id]
  {}

  /** What one accepted transaction changes, and what had to be fresh for it to be accepted. */
  lemma ExecuteEffect(env: Env, s: State, tx: Tx, block: u64, timestamp: u64)
    requires Accepts(env, s, tx, block, timestamp)
    ensures Advanced(env, s, tx, Execute(env, s, tx, block, timestamp))
    ensures Fresh(s, tx)
  {
    ValidIsApplicable(env, s, tx, block, timestamp);
    var diff := Validate(env, s, tx, block, timestamp).diff;
    if tx.Private? {
      SettleKeepsNonces(env, s.accounts, tx.message.publicActions);
      AcceptedIsFresh(env, s, tx, block, timestamp);
    }
    ApplyDiffAdvances(env, s, tx, diff);
  }

  lemma AcceptedIsFresh(env: Env, s: State, tx: Tx, block: u64, timestamp: u64)
    requires tx.Private? && Accepts(env, s, tx, block, timestamp)
    ensures Fresh(s, tx)
  {
    var m := tx.message;
    assert Nullifiers(m)[0] in NullifiersOf(tx);
    forall c | c in Commitments(m) ensures c !in s.commitments {
      var i :| 0 <= i < |Commitments(m)| && Commitments(m)[i] == c;
      assert m.privateActions[i] in m.privateActions;
    }
    forall n | n in NullifiersOf(tx) ensures n !in s.spent {
      var i :| 0 <= i < |Nullifiers(m)| && Nullifiers(m)[i] == n;
      assert m.privateActions[i] in m.privateActions;
    }
  }

  lemma DistinctAppend<T>(a: seq<T>, b: seq<T>)
    requires Distinct(a) && Distinct(b) && forall x :: x in b ==> x !in a
    ensures Distinct(a + b)
  {
    forall i, j | 0 <= i < j < |a + b| ensures (a + b)[i] != (a + b)[j] {
      if i < |a| <= j {
        assert b[j - |a|] in b && a[i] in a;
      }
    }
  }

  lemma {:induction false} RunSnoc(env: Env, s: State, subs: seq<Submission>, x: Submission)
    ensures Run(env, s, subs + [x]) == Execute(env, Run(env, s, subs), x.tx, x.block, x.timestamp)
    decreases |subs|
  {
    if subs == [] {
      assert [] + [x] == [x] && [x][1..] == [];
    } else {
      assert (subs + [x])[1..] == subs[1..] + [x];
      RunSnoc(env, Execute(env, s, subs[0].tx, subs[0].block, subs[0].timestamp), subs[1..], x);
    }
  }

  /** The spent set only grows, by exactly the nullifiers of the accepted transactions. */
  lemma {:induction false} SpentSetIsAccounted(env: Env, s: State, subs: seq<Submission>)
    ensures Run(env, s, subs).spent == s.spent + SpentBy(Accepted(env, s, subs))
    decreases |subs|
  {
    if subs != [] {
      var tx, rest := subs[0].tx, subs[1..];
      var next := Execute(env, s, tx, subs[0].block, subs[0].timestamp);
      SpentSetIsAccounted(env, next, rest);
      if Accepts(env, s, tx, subs[0].block, subs[0].timestamp) {
        ExecuteEffect(env, s, tx, subs[0].block, subs[0].timestamp);
        SpentByCons(tx, Accepted(env, next, rest));
      }
    }
  }

  lemma SpentByCons(tx: Tx, txs: seq<Tx>)
    ensures SpentBy([tx] + txs) == NullifiersOf(tx) + SpentBy(txs)
  {
    var all := [tx] + txs;
    forall n | n in NullifiersOf(tx) + SpentBy(txs) ensures n in SpentBy(all) {
      if n in NullifiersOf(tx) {
        assert n in NullifiersOf(all[0]);
      } else {
        var i :| 0 <= i < |txs| && n in NullifiersOf(txs[i]);
        assert n in NullifiersOf(all[i + 1]);
      }
    }
    forall n | n in SpentBy(all) ensures n in NullifiersOf(tx) + SpentBy(txs) {
      var i :| 0 <= i < |all| && n in NullifiersOf(all[i]);
      if i > 0 {
        assert n in NullifiersOf(txs[i - 1]);
      }
    }
  }

  ghost predicate SpendsDisjoint(txs: seq<Tx>) {
    forall i, j :: 0 <= i < j < |txs| ==> NullifiersOf(txs[i]) !! NullifiersOf(txs[j])
  }

  ghost predicate SpendsAvoid(txs: seq<Tx>, spent: set<Nullifier>) {
    forall i :: 0 <= i < |txs| ==> NullifiersOf(txs[i]) !! spent
  }

  /**
   * No double spend: in no run do two accepted transactions declare the same nullifier, and none
   * declares a nullifier that was already spent in the starting state.
   */
  lemma {:induction false} NoDoubleSpend(env: Env, s: State, subs: seq<Submission>)
    ensures SpendsAvoid(Accepted(env, s, subs), s.spent)
    ensures SpendsDisjoint(Accepted(env, s, subs))
    decreases |subs|
  {
    if subs != [] {
      var tx, rest := subs[0].tx, subs[1..];
      var next := Execute(env, s, tx, subs[0].block, subs[0].timestamp);
      var later := Accepted(env, next, rest);
      NoDoubleSpend(env, next, rest);
      if Accepts(env, s, tx, subs[0].block, subs[0].timestamp) {
        ExecuteEffect(env, s, tx, subs[0].block, subs[0].timestamp);
        SpendsCons(tx, later, s.spent);
      }
    }
  }

  lemma SpendsCons(tx: Tx, later: seq<Tx>, spent: set<Nullifier>)
    requires SpendsDisjoint(later) && SpendsAvoid(later, spent + NullifiersOf(tx)) && NullifiersOf(tx) !! spent
    ensures SpendsDisjoint([tx] + later) && SpendsAvoid([tx] + later, spent)
  {}

  /**
   * The commitment tree is append-only: it ends as the starting leaves followed by the commitments
   * of the accepted transactions, in order of acceptance.
   */
  lemma {:induction false} CommitmentTreeIsAppendOnly(env: Env, s: State, subs: seq<Submission>)
    ensures Run(env, s, subs).commitments == s.commitments + CommittedBy(Accepted(env, s, subs))
    decreases |subs|
  {
    if subs != [] {
      var tx, rest := subs[0].tx, subs[1..];
      var next := Execute(env, s, tx, subs[0].block, subs[0].timestamp);
      var later := Accepted(env, next, rest);
      CommitmentTreeIsAppendOnly(env, next, rest);
      if Accepts(env, s, tx, subs[0].block, subs[0].timestamp) {
        ExecuteEffect(env, s, tx, subs[0].block, subs[0].timestamp);
        CommittedByCons(s.commitments, tx, later);
      }
    }
  }

  lemma CommittedByCons(leaves: seq<Commitment>, tx: Tx, later: seq<Tx>)
    ensures leaves + CommittedBy([tx] + later) == leaves + CommitmentsOf(tx) + CommittedBy(later)
  {}

  /** No commitment is declared by two accepted transactions, nor one that was already a leaf. */
  lemma {:induction false} NoCommitmentTwice(env: Env, s: State, subs: seq<Submission>)
    ensures var declared := CommittedBy(Accepted(env, s, subs));
      Distinct(declared) && forall c :: c in declared ==> c !in s.commitments
    decreases |subs|
  {
    if subs != [] {
      var tx, rest := subs[0].tx, subs[1..];
      var next := Execute(env, s, tx, subs[0].block, subs[0].timestamp);
      var later := Accepted(env, next, rest);
      NoCommitmentTwice(env, next, rest);
      if Accepts(env, s, tx, subs[0].block, subs[0].timestamp) {
        ExecuteEffect(env, s, tx, subs[0].block, subs[0].timestamp);
        assert ([tx] + later)[1..] == later;
        DistinctAppend(CommitmentsOf(tx), CommittedBy(later));
      }
    }
  }

  /** Nonces are an exact ledger of acceptance: each advances by the signatures of accepted transactions. */
  lemma {:induction false} NoncesCountSignatures(env: Env, s: State, subs: seq<Submission>, id: AccountId)
    ensures Get(Run(env, s, subs).accounts, id).nonce
         == Get(s.accounts, id).nonce + SignaturesOf(Accepted(env, s, subs), id)
    decreases |subs|
  {
    if subs != [] {
      var tx, rest := subs[0].tx, subs[1..];
      var next := Execute(env, s, tx, subs[0].block, subs[0].timestamp);
      NoncesCountSignatures(env, next, rest, id);
      if Accepts(env, s, tx, subs[0].block, subs[0].timestamp) {
        ExecuteEffect(env, s, tx, subs[0].block, subs[0].timestamp);
        var later := Accepted(env, next, rest);
        assert ([tx] + later)[1..] == later;
      }
    }
  }

  /**
   * Known roots stay known, and the live root is a known root throughout.  No transaction of the
   * model deploys a program, so the images stay as well.
   */
  lemma {:induction false} RunKeepsRootsAndPrograms(env: Env, s: State, subs: seq<Submission>)
    ensures var end := Run(env, s, subs);
      end.programs == s.programs && s.rootHistory <= end.rootHistory
      && (LiveRootKnown(env, s) ==> LiveRootKnown(env, end))
    decreases |subs|
  {
    if subs != [] {
      var tx := subs[0].tx;
      RunKeepsRootsAndPrograms(env, Execute(env, s, tx, subs[0].block, subs[0].timestamp), subs[1..]);
      if Accepts(env, s, tx, subs[0].block, subs[0].timestamp) {
        ExecuteEffect(env, s, tx, subs[0].block, subs[0].timestamp);
      }
    }
  }

  /** The root history holds the roots known at the start and those recorded by the accepted transactions, no others. */
  lemma {:induction false} RootHistoryIsAccounted(env: Env, s: State, subs: seq<Submission>)
    ensures Run(env, s, subs).rootHistory
         == s.rootHistory + RootsRecorded(env, s.commitments, Accepted(env, s, subs))
    decreases |subs|
  {
    if subs != [] {
      var tx, rest := subs[0].tx, subs[1..];
      var next := Execute(env, s, tx, subs[0].block, subs[0].timestamp);
      RootHistoryIsAccounted(env, next, rest);
      if Accepts(env, s, tx, subs[0].block, subs[0].timestamp) {
        ExecuteEffect(env, s, tx, subs[0].block, subs[0].timestamp);
        RootsCons(env, s.commitments, tx, Accepted(env, next, rest));
      }
    }
  }

  lemma RootsCons(env: Env, leaves: seq<Commitment>, tx: Tx, later: seq<Tx>)
    ensures RootsRecorded(env, leaves, [tx] + later)
         == RootsRecorded(env, leaves, [tx]) + RootsRecorded(env, leaves + CommitmentsOf(tx), later)
  {
    assert ([tx] + later)[1..] == later && [tx][1..] == [];
  }

  /**
   * An accepted transaction, of either kind, is rejected at every later point of every run and at
   * every clock: not only when it is replayed immediately.
   */
  lemma {:induction false} AcceptedOnlyOnce(env: Env, s: State, sub: Submission, later: seq<Submission>, block: u64,
                                            timestamp: u64)
    requires Accepts(env, s, sub.tx, sub.block, sub.timestamp)
    ensures var after := Execute(env, s, sub.tx, sub.block, sub.timestamp);
      !Accepts(env, Run(env, after, later), sub.tx, block, timestamp)
  {
    var tx := sub.tx;
    var after := Execute(env, s, tx, sub.block, sub.timestamp);
    var end := Run(env, after, later);
    ExecuteEffect(env, s, tx, sub.block, sub.timestamp);
    if tx.Private? {
      var n :| n in NullifiersOf(tx);
      SpentSetIsAccounted(env, after, later);
      SpentNullifierBlocks(env, end, tx, n, block, timestamp);
    } else {
      NoncesCountSignatures(env, after, later, tx.from);
      assert multiset(SignersOf(tx))[tx.from] == 1;
    }
  }

  lemma SpentNullifierBlocks(env: Env, s: State, tx: Tx, n: Nullifier, block: u64, timestamp: u64)
    requires n in NullifiersOf(tx) && n in s.spent
    ensures !Accepts(env, s, tx, block, timestamp)
  {}
}
