/**
 * The invariant checkers of `invariants.rs`, proved against what they are meant to decide.  The
 * machine under test is not trusted: a checker is handed whatever states it happened to produce.
 */
module Checkers {
  import opened Wrappers
  import opened Integers
  import opened Identity
  import opened Sums
  import opened Protocol

  type Snapshot = map<AccountId, u128>

  function Balances(accounts: Accounts, ids: set<AccountId>): (m: Snapshot)
    ensures m.Keys == ids
  {
    map id | id in ids :: Get(accounts, id).balance
  }

  function Nonces(accounts: Accounts, ids: set<AccountId>): (m: Snapshot)
    ensures m.Keys == ids
  {
    map id | id in ids :: Get(accounts, id).nonce
  }

  ghost function Total(accounts: Accounts, ids: set<AccountId>): int {
    Sum(Balances(accounts, ids))
  }

  datatype Violation =
    | StateIsolationOnFailure | BalanceConservation | BalanceOverflow | FailedTxNonceStability
    | NonceIncrementCorrectness | SignerNonceAtMax | ReplayRejection

  /**
   * `BalanceSnapshot::total`: a checked fold over the values of a hash map.  The entries are taken
   * in an arbitrary order, and the outcome is the same for all of them; `None` is the overflow panic.
   */
  method SnapshotTotal(balances: Snapshot) returns (r: Option<u128>)
    ensures r == if Sum(balances) <= U128_MAX then Some(Sum(balances)) else None
  {
    var left := balances;
    var total: u128 := 0;
    while left != map[]
      invariant forall id :: id in left ==> id in balances && left[id] == balances[id]
      invariant total + Sum(left) == Sum(balances)
      decreases |left|
    {
      var id :| id in left;
      SumRemove(left, id);
      SumBoundsEntries(left - {id});
      var next := CheckedAdd(total, left[id]);
      if next.None? {
        return None;
      }
      total := next.value;
      left := left - {id};
    }
    r := Some(total);
  }

  /** The sum over a list of accounts, entry by entry. */
  ghost function ListSum(ids: seq<AccountId>, accounts: Accounts): int {
    if ids == [] then 0 else ListSum(ids[..|ids| - 1], accounts) + Get(accounts, ids[|ids| - 1]).balance
  }

  lemma {:induction false} ListSumGrows(ids: seq<AccountId>, accounts: Accounts, n: nat)
    requires n <= |ids|
    ensures 0 <= ListSum(ids[..n], accounts) <= ListSum(ids, accounts)
    decreases |ids|
  {
    if n < |ids| {
      ListSumGrows(ids[..|ids| - 1], accounts, n);
      assert ids[..|ids| - 1][..n] == ids[..n];
    } else {
      assert ids[..n] == ids;
      if ids != [] {
        ListSumGrows(ids[..|ids| - 1], accounts, 0);
      }
    }
  }

  /** The checked fold over `init_accs` of the multi-block target. */
  method ListTotal(ids: seq<AccountId>, accounts: Accounts) returns (r: Option<u128>)
    ensures r == if ListSum(ids, accounts) <= U128_MAX then Some(ListSum(ids, accounts)) else None
  {
    var total: u128 := 0;
    for i := 0 to |ids|
      invariant total == ListSum(ids[..i], accounts)
    {
      assert ids[..i + 1][..i] == ids[..i];
      ListSumGrows(ids, accounts, i + 1);
      var next := CheckedAdd(total, Get(accounts, ids[i]).balance);
      if next.None? {
        return None;
      }
      total := next.value;
    }
    assert ids[..|ids|] == ids;
    r := Some(total);
  }

  /** What the list counts more than once: the balance of every repeated id. */
  ghost function Repeated(ids: seq<AccountId>, accounts: Accounts): int {
    if ids == [] then 0
    else
      var last := ids[|ids| - 1];
      Repeated(ids[..|ids| - 1], accounts) + if last in ids[..|ids| - 1] then Get(accounts, last).balance else 0
  }

  /** The list sum exceeds the map sum by exactly the balances of repeated ids. */
  lemma {:induction false} ListSumVersusMapSum(ids: seq<AccountId>, accounts: Accounts)
    ensures ListSum(ids, accounts) == Total(accounts, AsSet(ids)) + Repeated(ids, accounts)
  {
    if ids != [] {
      var prefix, last := ids[..|ids| - 1], ids[|ids| - 1];
      ListSumVersusMapSum(prefix, accounts);
      assert ids == prefix + [last];
      TotalInsert(accounts, AsSet(prefix), last);
      assert AsSet(ids) == AsSet(prefix) + {last};
    } else {
      assert AsSet(ids) == {};
      assert Balances(accounts, {}) == map[];
    }
  }

  lemma TotalInsert(accounts: Accounts, ids: set<AccountId>, x: AccountId)
    ensures Total(accounts, ids + {x}) == Total(accounts, ids) + if x in ids then 0 else Get(accounts, x).balance
  {
    if x in ids {
      assert ids + {x} == ids;
    } else {
      assert Balances(accounts, ids + {x}) == Balances(accounts, ids)[x := Get(accounts, x).balance];
      SumUpdate(Balances(accounts, ids), x, Get(accounts, x).balance);
    }
  }

  ghost predicate RepeatsUnfunded(ids: seq<AccountId>, accounts: Accounts) {
    forall i, j :: 0 <= i < j < |ids| && ids[i] == ids[j] ==> Get(accounts, ids[j]).balance == 0
  }

  /** The two totals agree exactly when every repeated id is unfunded, in particular for distinct ids. */
  lemma {:induction false} RepeatedIsZero(ids: seq<AccountId>, accounts: Accounts)
    ensures Repeated(ids, accounts) >= 0
    ensures Repeated(ids, accounts) == 0 <==> RepeatsUnfunded(ids, accounts)
    ensures Distinct(ids) ==> Repeated(ids, accounts) == 0
  {
    if ids != [] {
      var prefix, last := ids[..|ids| - 1], ids[|ids| - 1];
      RepeatedIsZero(prefix, accounts);
      if last in prefix {
        var i :| 0 <= i < |prefix| && prefix[i] == last;
        assert ids[i] == ids[|ids| - 1];
      }
      assert RepeatsUnfunded(ids, accounts) ==> RepeatsUnfunded(prefix, accounts);
    }
  }

  // ---------- The three context invariants ----------

  datatype Ctx = Ctx(after: Accounts, succeeded: bool, balances: Snapshot, nonces: Snapshot)

  method CheckStateIsolation(ctx: Ctx) returns (v: Option<Violation>)
    ensures v == if !ctx.succeeded && Balances(ctx.after, ctx.balances.Keys) != ctx.balances
                 then Some(StateIsolationOnFailure) else None
  {
    if !ctx.succeeded {
      var left := ctx.balances.Keys;
      while left != {}
        invariant left <= ctx.balances.Keys
        invariant forall id :: id in ctx.balances && id !in left ==> Get(ctx.after, id).balance == ctx.balances[id]
      {
        var id :| id in left;
        if Get(ctx.after, id).balance != ctx.balances[id] {
          return Some(StateIsolationOnFailure);
        }
        left := left - {id};
      }
    }
    v := None;
  }

  method CheckBalanceConservation(ctx: Ctx) returns (v: Option<Violation>)
    ensures v.None? <==> (ctx.succeeded ==>
      Sum(ctx.balances) == Total(ctx.after, ctx.balances.Keys) <= U128_MAX)
    ensures v == Some(BalanceOverflow) <==>
      ctx.succeeded && (Sum(ctx.balances) > U128_MAX || Total(ctx.after, ctx.balances.Keys) > U128_MAX)
    ensures v.Some? ==> v.value in {BalanceConservation, BalanceOverflow}
  {
    if ctx.succeeded {
      var before := SnapshotTotal(ctx.balances);
      var after := SnapshotTotal(Balances(ctx.after, ctx.balances.Keys));
      if before.None? || after.None? {
        return Some(BalanceOverflow);
      }
      if before.value != after.value {
        return Some(BalanceConservation);
      }
    }
    v := None;
  }

  method CheckNonceStability(ctx: Ctx) returns (v: Option<Violation>)
    ensures v == if !ctx.succeeded && Nonces(ctx.after, ctx.nonces.Keys) != ctx.nonces
                 then Some(FailedTxNonceStability) else None
  {
    if !ctx.succeeded {
      var left := ctx.nonces.Keys;
      while left != {}
        invariant left <= ctx.nonces.Keys
        invariant forall id :: id in ctx.nonces && id !in left ==> Get(ctx.after, id).nonce == ctx.nonces[id]
      {
        var id :| id in left;
        if Get(ctx.after, id).nonce != ctx.nonces[id] {
          return Some(FailedTxNonceStability);
        }
        left := left - {id};
      }
    }
    v := None;
  }

  /** The first of the three checks that fails is the one reported. */
  method AssertInvariants(ctx: Ctx) returns (v: Option<Violation>)
    ensures v.None? <==> ContextHolds(ctx)
    ensures v == Some(StateIsolationOnFailure) <==>
      !ctx.succeeded && Balances(ctx.after, ctx.balances.Keys) != ctx.balances
    ensures v == Some(FailedTxNonceStability) <==>
      && !ctx.succeeded && Balances(ctx.after, ctx.balances.Keys) == ctx.balances
      && Nonces(ctx.after, ctx.nonces.Keys) != ctx.nonces
    ensures v == Some(BalanceOverflow) <==>
      ctx.succeeded && (Sum(ctx.balances) > U128_MAX || Total(ctx.after, ctx.balances.Keys) > U128_MAX)
    ensures v.Some? ==>
      v.value in {StateIsolationOnFailure, BalanceConservation, BalanceOverflow, FailedTxNonceStability}
  {
    v := CheckStateIsolation(ctx);
    if v.Some? { return; }
    v := CheckBalanceConservation(ctx);
    if v.Some? { return; }
    v := CheckNonceStability(ctx);
  }

  ghost predicate ContextHolds(ctx: Ctx) {
    if ctx.succeeded then
      Sum(ctx.balances) == Total(ctx.after, ctx.balances.Keys) <= U128_MAX
    else
      Balances(ctx.after, ctx.balances.Keys) == ctx.balances && Nonces(ctx.after, ctx.nonces.Keys) == ctx.nonces
  }

  // ---------- The success-only invariants ----------

  /** Every signer in the snapshot advances by exactly one; signers outside it are not looked at. */
  ghost predicate NoncesIncremented(signers: seq<AccountId>, nonces: Snapshot, after: Accounts) {
    forall id :: id in signers && id in nonces ==> Get(after, id).nonce == nonces[id] as int + 1
  }

  /** Signer `i` is the first that did not advance by one. */
  ghost predicate FirstNotIncremented(signers: seq<AccountId>, nonces: Snapshot, after: Accounts, i: nat) {
    && i < |signers| && NoncesIncremented(signers[..i], nonces, after)
    && signers[i] in nonces && Get(after, signers[i]).nonce != nonces[signers[i]] as int + 1
  }

  /** The verdict is about the first such signer: a nonce that cannot advance, or one that did not. */
  method AssertNonceIncrement(signers: seq<AccountId>, nonces: Snapshot, after: Accounts) returns (v: Option<Violation>)
    ensures v.None? <==> NoncesIncremented(signers, nonces, after)
    ensures v.Some? ==> exists i: nat ::
      && FirstNotIncremented(signers, nonces, after, i)
      && v.value == if nonces[signers[i]] == U128_MAX then SignerNonceAtMax else NonceIncrementCorrectness
  {
    for i := 0 to |signers|
      invariant forall j :: 0 <= j < i && signers[j] in nonces ==>
        Get(after, signers[j]).nonce == nonces[signers[j]] as int + 1
    {
      var id := signers[i];
      if id !in nonces { continue; }
      var expected := CheckedAdd(nonces[id], 1);
      if expected.None? {
        assert FirstNotIncremented(signers, nonces, after, i);
        return Some(SignerNonceAtMax);
      }
      if Get(after, id).nonce != expected.value {
        assert FirstNotIncremented(signers, nonces, after, i);
        return Some(NonceIncrementCorrectness);
      }
    }
    v := None;
  }

  // ---------- One attempt ----------

  /**
   * What the machine under test did with one transaction.  A transaction that fails the stateless
   * gate is skipped.  An accepted one is replayed in place, and `afterReplay` is what that leaves.
   */
  datatype Attempt =
    | Skipped
    | Executed(accepted: bool, signers: seq<AccountId>, after: Accounts, replayAccepted: bool, afterReplay: Accounts)

  function Next(s: Accounts, a: Attempt): Accounts {
    if a.Skipped? then s else if a.accepted then a.afterReplay else a.after
  }

  /** What a passing attempt says about the tracked accounts. */
  ghost predicate AttemptPasses(tracked: set<AccountId>, s: Accounts, a: Attempt) {
    a.Skipped? ||
    (if a.accepted then
       && Total(s, tracked) == Total(a.after, tracked) <= U128_MAX
       && NoncesIncremented(a.signers, Nonces(s, tracked), a.after)
       && !a.replayAccepted
     else
       Balances(a.after, tracked) == Balances(s, tracked) && Nonces(a.after, tracked) == Nonces(s, tracked))
  }

  /** `assert_tx_execution_invariants`, with the snapshots taken just before the attempt. */
  method AssertTxExecution(tracked: set<AccountId>, s: Accounts, a: Attempt)
    returns (v: Option<Violation>, next: Accounts)
    ensures v.None? <==> AttemptPasses(tracked, s, a)
    ensures v.None? ==> next == Next(s, a)
    ensures v == Some(ReplayRejection) <==>
      && a.Executed? && a.accepted && a.replayAccepted
      && Total(s, tracked) == Total(a.after, tracked) <= U128_MAX
      && NoncesIncremented(a.signers, Nonces(s, tracked), a.after)
  {
    next := s;
    if a.Skipped? {
      return None, s;
    }
    var balances, nonces := Balances(s, tracked), Nonces(s, tracked);
    v := AssertInvariants(Ctx(a.after, a.accepted, balances, nonces));
    if v.Some? { return; }
    next := a.after;
    if a.accepted {
      v := AssertNonceIncrement(a.signers, nonces, a.after);
      if v.Some? { return; }
      next := a.afterReplay;
      if a.replayAccepted {
        v := Some(ReplayRejection);
      }
    }
  }
}
