/** Effects of programs other than the native token: the program is asked, and its answer is what counts. */
module Foreign {
  import opened Wrappers
  import opened Integers
  import opened Identity
  import opened Protocol
  import opened Effects

  /** Everything but an effect of the native program on its own shard. */
  predicate IsForeign(env: Env, effect: Effect) {
    effect.program != env.nativeProgram || effect.shard != env.nativeProgram
  }

  /** The account with the answer of a program in place of its balance and data. */
  function Answered(account: Account, answer: (u128, Data)): Account {
    Account(answer.0, account.nonce, answer.1)
  }

  /**
   * A list with a foreign effect settles exactly when the effects before it settle, the program
   * answers on the balance and data then reached, and the rest settles from that answer.
   */
  lemma ForeignSettles(env: Env, account: Account, first: seq<Effect>, effect: Effect, rest: seq<Effect>)
    requires IsForeign(env, effect)
    ensures FoldEffects(env, account, first + [effect] + rest)
         == match FoldEffects(env, account, first)
            case None => None
            case Some(reached) =>
              (match env.settleForeign(effect, reached.balance, reached.data)
               case None => None
               case Some(answer) => FoldEffects(env, Answered(reached, answer), rest))
  {
    assert first + [effect] + rest == first + ([effect] + rest);
    FoldAppends(env, account, first, [effect] + rest);
    assert ([effect] + rest)[1..] == rest;
  }

  /** Who refuses an effect: its program, the decoder, or the range of the balance. */
  predicate Refuses(env: Env, account: Account, effect: Effect) {
    if IsForeign(env, effect) then env.settleForeign(effect, account.balance, account.data).None?
    else
      match effect.payload
      case Undecodable(_) => true
      case Decodes(Debit(amount)) => amount > account.balance
      case Decodes(Credit(amount)) => account.balance + amount > U128_MAX
  }

  /** Effect `k` is refused when its turn comes. */
  ghost predicate RefusedAt(env: Env, account: Account, effects: seq<Effect>, k: nat)
    requires k < |effects|
  {
    var reached := FoldEffects(env, account, effects[..k]);
    reached.Some? && Refuses(env, reached.value, effects[k])
  }

  lemma OneEffect(env: Env, account: Account, effect: Effect)
    ensures FoldEffects(env, account, [effect]).None? <==> Refuses(env, account, effect)
  {
    assert [effect][1..] == [];
  }

  /** Effects of any programs fail to settle exactly when one of them is refused in turn. */
  lemma {:induction false} FailsIffRefused(env: Env, account: Account, effects: seq<Effect>)
    ensures FoldEffects(env, account, effects).None?
      <==> exists k :: 0 <= k < |effects| && RefusedAt(env, account, effects, k)
    decreases |effects|
  {
    if effects != [] {
      var n := |effects| - 1;
      var prefix := effects[..n];
      assert effects == prefix + [effects[n]];
      FoldAppends(env, account, prefix, [effects[n]]);
      FailsIffRefused(env, account, prefix);
      forall k | 0 <= k < n ensures RefusedAt(env, account, effects, k) <==> RefusedAt(env, account, prefix, k) {
        assert effects[..k] == prefix[..k];
      }
      match FoldEffects(env, account, prefix)
      case None =>
        var k :| 0 <= k < n && RefusedAt(env, account, prefix, k);
        assert RefusedAt(env, account, effects, k);
      case Some(reached) =>
        OneEffect(env, reached, effects[n]);
        assert RefusedAt(env, account, effects, n) <==> Refuses(env, reached, effects[n]);
    }
  }

  /** One refusal anywhere rejects the whole transaction, which then leaves the state as it was. */
  lemma RefusalRejects(env: Env, s: State, tx: Tx, block: u64, timestamp: u64, i: nat, k: nat)
    requires tx.Private? && i < |tx.message.publicActions| && k < |tx.message.publicActions[i].effects|
    requires var action := tx.message.publicActions[i];
      RefusedAt(env, Get(s.accounts, action.accountId), action.effects, k)
    ensures !Accepts(env, s, tx, block, timestamp) && Execute(env, s, tx, block, timestamp) == s
  {
    var action := tx.message.publicActions[i];
    FailsIffRefused(env, Get(s.accounts, action.accountId), action.effects);
    SettlesIffAllFold(env, s.accounts, tx.message.publicActions);
    assert action in tx.message.publicActions;
  }

  /** An accepted action with one foreign effect leaves exactly what the program answered. */
  lemma AnswerIsKept(env: Env, s: State, tx: Tx, block: u64, timestamp: u64, i: nat, effect: Effect)
    requires tx.Private? && Accepts(env, s, tx, block, timestamp) && i < |tx.message.publicActions|
    requires tx.message.publicActions[i].effects == [effect] && IsForeign(env, effect)
    ensures var id := tx.message.publicActions[i].accountId;
      var before, after := Get(s.accounts, id), Get(Execute(env, s, tx, block, timestamp).accounts, id);
      && env.settleForeign(effect, before.balance, before.data) == Some((after.balance, after.data))
      && after.nonce == before.nonce + multiset(tx.signers)[id]
  {
    var m := tx.message;
    var id := m.publicActions[i].accountId;
    forall k, l | 0 <= k < l < |m.publicActions| ensures m.publicActions[k].accountId != m.publicActions[l].accountId {
      assert PublicIds(m)[k] != PublicIds(m)[l];
    }
    SettledAccounts(env, s.accounts, m.publicActions);
    assert [effect] == [] + [effect] + [];
    ForeignSettles(env, Get(s.accounts, id), [], effect, []);
    ValidIsApplicable(env, s, tx, block, timestamp);
    IncrementKeepsRest(s.accounts + Settle(env, s.accounts, m.publicActions).value, tx.signers, id);
  }

  lemma IncrementKeepsRest(accounts: Accounts, signers: seq<AccountId>, id: AccountId)
    requires NoncesCanAdvance(accounts, signers)
    ensures Get(IncrementNonces(accounts, signers), id)
         == Get(accounts, id).(nonce := Get(accounts, id).nonce + multiset(signers)[id])
  {
    assert id !in signers ==> multiset(signers)[id] == 0;
  }
}
