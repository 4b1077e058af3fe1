/**
 * What a shielded transaction does to the total of a set of accounts: exactly what its public
 * effects declare.  Nothing else in its validation keeps the total.
 */
module Conservation {
  import opened Integers
  import opened Identity
  import opened Sums
  import opened Protocol
  import opened Checkers
  import opened Effects

  /**
   * What one action adds to the balance of its account.  For native effects it can be read off the
   * message: credits minus debits.  With another program involved, that program decides.
   */
  function ActionNet(env: Env, accounts: Accounts, action: PublicAction): int {
    if NativeOnly(env, action.effects) then
      if AllDecode(action.effects) then Net(Payloads(action.effects)) else 0
    else
      match FoldEffects(env, Get(accounts, action.accountId), action.effects)
      case None => 0
      case Some(after) => after.balance - Get(accounts, action.accountId).balance
  }

  /** The sum over the actions on tracked accounts. */
  function TrackedNet(env: Env, accounts: Accounts, actions: seq<PublicAction>, tracked: set<AccountId>): int {
    if actions == [] then 0
    else
      TrackedNet(env, accounts, actions[1..], tracked)
      + if actions[0].accountId in tracked then ActionNet(env, accounts, actions[0]) else 0
  }

  lemma ActionMovesBalance(env: Env, accounts: Accounts, action: PublicAction)
    requires FoldEffects(env, Get(accounts, action.accountId), action.effects).Some?
    ensures FoldEffects(env, Get(accounts, action.accountId), action.effects).value.balance as int
         == Get(accounts, action.accountId).balance + ActionNet(env, accounts, action)
  {
    if NativeOnly(env, action.effects) {
      SettlementIsExact(env, Get(accounts, action.accountId), action.effects);
    }
  }

  /** Settlement moves the total of the tracked accounts by the net of the actions on them. */
  lemma {:induction false} SettleMovesTotal(env: Env, accounts: Accounts, actions: seq<PublicAction>,
                                            tracked: set<AccountId>)
    requires Settle(env, accounts, actions).Some? && DistinctIds(actions)
    ensures Total(accounts + Settle(env, accounts, actions).value, tracked)
         == Total(accounts, tracked) + TrackedNet(env, accounts, actions, tracked)
    decreases |actions|
  {
    if actions == [] {
      assert accounts + map[] == accounts;
    } else {
      var id, rest := actions[0].accountId, actions[1..];
      SettleMovesTotal(env, accounts, rest, tracked);
      forall i | 0 <= i < |rest| ensures rest[i].accountId != id {
        assert rest[i] == actions[i + 1];
      }
      SettledIds(env, accounts, rest, id);
      ActionMovesBalance(env, accounts, actions[0]);
      var account := FoldEffects(env, Get(accounts, id), actions[0].effects).value;
      WriteMovesTotal(accounts, Settle(env, accounts, rest).value, id, account, tracked);
    }
  }

  lemma {:induction false} SettledIds(env: Env, accounts: Accounts, actions: seq<PublicAction>, id: AccountId)
    requires Settle(env, accounts, actions).Some?
    requires forall i :: 0 <= i < |actions| ==> actions[i].accountId != id
    ensures id !in Settle(env, accounts, actions).value
  {
    if actions != [] {
      SettledIds(env, accounts, actions[1..], id);
    }
  }

  /** One more written account moves the total by the difference of its balance. */
  lemma WriteMovesTotal(accounts: Accounts, written: Accounts, id: AccountId, account: Account, tracked: set<AccountId>)
    requires id !in written
    ensures Total(accounts + written[id := account], tracked)
         == Total(accounts + written, tracked)
            + if id in tracked then account.balance - Get(accounts, id).balance else 0
  {
    var b, c := Balances(accounts + written, tracked), Balances(accounts + written[id := account], tracked);
    if id in tracked {
      assert c == b[id := account.balance];
      SumUpdate(b, id, account.balance);
    } else {
      assert c == b;
    }
  }

  /**
   * An accepted shielded transaction moves the total of any set of accounts by exactly the net of
   * the effects it declares on them.
   */
  lemma ShieldedTotal(env: Env, s: State, tx: Tx, block: u64, timestamp: u64, tracked: set<AccountId>)
    requires tx.Private? && Accepts(env, s, tx, block, timestamp)
    ensures Total(Execute(env, s, tx, block, timestamp).accounts, tracked)
         == Total(s.accounts, tracked) + TrackedNet(env, s.accounts, tx.message.publicActions, tracked)
  {
    var actions := tx.message.publicActions;
    UniqueIdsAreDistinct(tx.message);
    SettleMovesTotal(env, s.accounts, actions, tracked);
    ValidIsApplicable(env, s, tx, block, timestamp);
    SigningKeepsTotal(s.accounts + Settle(env, s.accounts, actions).value, tx.signers, tracked);
  }

  lemma UniqueIdsAreDistinct(m: Message)
    requires Distinct(PublicIds(m))
    ensures DistinctIds(m.publicActions)
  {
    forall i, j | 0 <= i < j < |m.publicActions|
      ensures m.publicActions[i].accountId != m.publicActions[j].accountId
    {
      assert PublicIds(m)[i] != PublicIds(m)[j];
    }
  }

  lemma SigningKeepsTotal(accounts: Accounts, signers: seq<AccountId>, tracked: set<AccountId>)
    requires NoncesCanAdvance(accounts, signers)
    ensures Total(IncrementNonces(accounts, signers), tracked) == Total(accounts, tracked)
  {
    assert Balances(IncrementNonces(accounts, signers), tracked) == Balances(accounts, tracked);
  }
}
