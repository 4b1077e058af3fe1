/** The ordered fold of native effects, and the success-path checks of the private transition target. */
module Effects {
  import opened Wrappers
  import opened Integers
  import opened Identity
  import opened Protocol
  import opened Runs
  import opened Checkers

  // ---------- The arithmetic of the fold ----------

  /** Debits and credits in order, stopping at the first that leaves the range of a balance. */
  function FoldNative(balance: u128, effects: seq<NativeEffect>): Option<u128>
    decreases |effects|
  {
    if effects == [] then Some(balance)
    else
      match ApplyNative(balance, effects[0])
      case None => None
      case Some(next) => FoldNative(next, effects[1..])
  }

  function Delta(effect: NativeEffect): int {
    match effect
    case Debit(amount) => 0 - amount as int
    case Credit(amount) => amount as int
  }

  /** Credits minus debits. */
  function Net(effects: seq<NativeEffect>): int {
    if effects == [] then 0 else Delta(effects[0]) + Net(effects[1..])
  }

  ghost predicate PrefixesInRange(balance: u128, effects: seq<NativeEffect>) {
    forall k :: 0 <= k <= |effects| ==> 0 <= balance + Net(effects[..k]) <= U128_MAX
  }

  /**
   * The fold succeeds exactly when every prefix of debits and credits keeps the balance in range,
   * and then the result is the balance plus all credits minus all debits.
   */
  lemma {:induction false} FoldIsExact(balance: u128, effects: seq<NativeEffect>)
    ensures FoldNative(balance, effects).Some? <==> PrefixesInRange(balance, effects)
    ensures FoldNative(balance, effects).Some? ==> FoldNative(balance, effects).value == balance + Net(effects)
    decreases |effects|
  {
    if effects == [] {
      assert forall k :: 0 <= k <= |effects| ==> effects[..k] == [];
    } else {
      var rest := effects[1..];
      forall k | 0 <= k <= |rest| ensures Net(effects[..k + 1]) == Delta(effects[0]) + Net(rest[..k]) {
        assert effects[..k + 1][1..] == rest[..k];
      }
      assert Net(effects[..0]) == 0 && Net(rest[..0]) == 0;
      match ApplyNative(balance, effects[0])
      case None =>
        assert balance + Net(effects[..0 + 1]) == balance + Delta(effects[0]);
      case Some(next) =>
        FoldIsExact(next, rest);
        PrefixesStep(balance, next, effects);
    }
  }

  lemma PrefixesStep(balance: u128, next: u128, effects: seq<NativeEffect>)
    requires effects != [] && ApplyNative(balance, effects[0]) == Some(next)
    ensures PrefixesInRange(balance, effects) <==> PrefixesInRange(next, effects[1..])
  {
    var rest := effects[1..];
    forall k | 0 <= k <= |rest| ensures balance + Net(effects[..k + 1]) == next + Net(rest[..k]) {
      assert effects[..k + 1][1..] == rest[..k];
    }
    if PrefixesInRange(next, rest) {
      forall k | 0 <= k <= |effects| ensures 0 <= balance + Net(effects[..k]) <= U128_MAX {
        if k > 0 {
          assert balance + Net(effects[..(k - 1) + 1]) == next + Net(rest[..k - 1]);
        }
      }
    }
  }

  lemma {:induction false} NetRemove(effects: seq<NativeEffect>, i: nat)
    requires i < |effects|
    ensures Net(effects) == Delta(effects[i]) + Net(effects[..i] + effects[i + 1..])
  {
    if i == 0 {
      assert effects[..0] + effects[1..] == effects[1..];
    } else {
      NetRemove(effects[1..], i - 1);
      var without := effects[..i] + effects[i + 1..];
      assert without[1..] == effects[1..][..i - 1] + effects[1..][i..];
    }
  }

  // ---------- The check of the target ----------

  /** Outcome of folding one action: an effect it does not model, a violation, or a balance. */
  datatype Scan = Skip | Bad | Folded(balance: u128)

  function ScanEffects(env: Env, balance: u128, effects: seq<Effect>): Scan
    decreases |effects|
  {
    if effects == [] then Folded(balance)
    else if !IsNative(env, effects[0]) then Skip
    else if effects[0].payload.Undecodable? then Bad
    else
      match ApplyNative(balance, effects[0].payload.native)
      case None => Bad
      case Some(next) => ScanEffects(env, next, effects[1..])
  }

  // ---------- Settlement is that arithmetic ----------

  predicate NativeOnly(env: Env, effects: seq<Effect>) {
    forall e :: e in effects ==> IsNative(env, e)
  }

  predicate AllDecode(effects: seq<Effect>) {
    forall e :: e in effects ==> e.payload.Decodes?
  }

  /** The debits and credits that the effects carry. */
  function Payloads(effects: seq<Effect>): (r: seq<NativeEffect>)
    requires AllDecode(effects)
    ensures |r| == |effects| && forall i :: 0 <= i < |r| ==> r[i] == effects[i].payload.native
  {
    seq(|effects|, i requires 0 <= i < |effects| => effects[i].payload.native)
  }

  /** Settling native effects folds their payloads into the balance and touches nothing else. */
  lemma {:induction false} SettlementFolds(env: Env, account: Account, effects: seq<Effect>)
    requires NativeOnly(env, effects)
    ensures FoldEffects(env, account, effects).Some? ==> AllDecode(effects)
    ensures AllDecode(effects) ==>
      FoldEffects(env, account, effects)
      == match FoldNative(account.balance, Payloads(effects))
         case None => None
         case Some(balance) => Some(account.(balance := balance))
    decreases |effects|
  {
    if effects != [] {
      assert effects[0] in effects;
      assert forall e :: e in effects <==> e == effects[0] || e in effects[1..];
      assert AllDecode(effects) ==> Payloads(effects)[1..] == Payloads(effects[1..]);
      match ApplyEffect(env, account, effects[0])
      case None =>
      case Some(next) => SettlementFolds(env, next, effects[1..]);
    }
  }

  /** The native effects of one action stay in range: everything decodes, and no prefix leaves `0..=MAX`. */
  ghost predicate StaysInRange(balance: u128, effects: seq<Effect>) {
    AllDecode(effects) && PrefixesInRange(balance, Payloads(effects))
  }

  /**
   * Native effects settle exactly when every prefix of debits and credits keeps the balance in
   * range, and then the account holds its balance plus all credits minus all debits.
   */
  lemma SettlementIsExact(env: Env, account: Account, effects: seq<Effect>)
    requires NativeOnly(env, effects)
    ensures FoldEffects(env, account, effects).Some? <==> StaysInRange(account.balance, effects)
    ensures StaysInRange(account.balance, effects) ==>
      && 0 <= account.balance + Net(Payloads(effects)) <= U128_MAX
      && FoldEffects(env, account, effects)
         == Some(account.(balance := account.balance + Net(Payloads(effects))))
  {
    SettlementFolds(env, account, effects);
    if AllDecode(effects) {
      FoldIsExact(account.balance, Payloads(effects));
      assert Payloads(effects)[..|effects|] == Payloads(effects);
    }
  }

  /** The loop of the target agrees: native effects are never skipped, and condemned exactly if they do not settle. */
  lemma {:induction false} ScanIsExact(env: Env, account: Account, effects: seq<Effect>)
    requires NativeOnly(env, effects)
    ensures ScanEffects(env, account.balance, effects)
         == match FoldEffects(env, account, effects)
            case None => Bad
            case Some(after) => Folded(after.balance)
    decreases |effects|
  {
    if effects != [] {
      assert effects[0] in effects;
      match ApplyEffect(env, account, effects[0])
      case None =>
      case Some(next) => ScanIsExact(env, next, effects[1..]);
    }
  }

  /** Any two orders of the same native effects that both settle leave the same account. */
  lemma SuccessfulOrdersAgree(env: Env, account: Account, a: seq<Effect>, b: seq<Effect>)
    requires NativeOnly(env, a) && multiset(a) == multiset(b)
    requires FoldEffects(env, account, a).Some? && FoldEffects(env, account, b).Some?
    ensures FoldEffects(env, account, a) == FoldEffects(env, account, b)
  {
    assert forall e :: e in b ==> e in multiset(b);
    assert forall e :: e in multiset(a) ==> e in a;
    SettlementIsExact(env, account, a);
    SettlementIsExact(env, account, b);
    NetPermutation(a, b);
  }

  /** The net movement does not depend on the order of the effects. */
  lemma {:induction false} NetPermutation(a: seq<Effect>, b: seq<Effect>)
    requires AllDecode(a) && AllDecode(b) && multiset(a) == multiset(b)
    ensures Net(Payloads(a)) == Net(Payloads(b))
    decreases |a|
  {
    if a == [] {
      assert |multiset(b)| == 0;
    } else {
      var i := WithoutOne(a, b);
      var without := b[..i] + b[i + 1..];
      NetPermutation(a[1..], without);
      assert Payloads(a)[1..] == Payloads(a[1..]);
      assert Payloads(without) == Payloads(b)[..i] + Payloads(b)[i + 1..];
      NetRemove(Payloads(b), i);
    }
  }

  lemma WithoutOne(a: seq<Effect>, b: seq<Effect>) returns (i: nat)
    requires a != [] && multiset(a) == multiset(b)
    ensures i < |b| && b[i] == a[0] && multiset(a[1..]) == multiset(b[..i] + b[i + 1..])
  {
    assert a[0] in multiset(a);
    i :| 0 <= i < |b| && b[i] == a[0];
    assert a == [a[0]] + a[1..];
    assert b == b[..i] + [b[i]] + b[i + 1..];
    assert multiset(a[1..]) == multiset(a) - multiset{a[0]};
    assert multiset(b[..i] + b[i + 1..]) == multiset(b) - multiset{b[i]};
  }

  /** A whole message of native effects settles exactly when the effects of each action stay in range. */
  lemma SettleIsExact(env: Env, accounts: Accounts, actions: seq<PublicAction>)
    requires forall x :: x in actions ==> NativeOnly(env, x.effects)
    ensures Settle(env, accounts, actions).Some?
      <==> forall x :: x in actions ==> StaysInRange(Get(accounts, x.accountId).balance, x.effects)
  {
    SettlesIffAllFold(env, accounts, actions);
    forall x | x in actions
      ensures FoldEffects(env, Get(accounts, x.accountId), x.effects).Some?
        <==> StaysInRange(Get(accounts, x.accountId).balance, x.effects)
    {
      SettlementIsExact(env, Get(accounts, x.accountId), x.effects);
    }
  }

  /** Settlement succeeds exactly when the effects of every action fold from its own pre-state. */
  lemma {:induction false} SettlesIffAllFold(env: Env, accounts: Accounts, actions: seq<PublicAction>)
    ensures Settle(env, accounts, actions).Some?
      <==> forall x :: x in actions ==> FoldEffects(env, Get(accounts, x.accountId), x.effects).Some?
  {
    if actions != [] {
      SettlesIffAllFold(env, accounts, actions[1..]);
      assert forall x :: x in actions <==> x == actions[0] || x in actions[1..];
    }
  }

  // ---------- Success depends on the order ----------

  predicate Credits(effects: seq<Effect>) {
    forall e :: e in effects ==> e.payload.Decodes? && e.payload.native.Credit?
  }

  predicate Debits(effects: seq<Effect>) {
    forall e :: e in effects ==> e.payload.Decodes? && e.payload.native.Debit?
  }

  /** Effects that all move one way are in range as soon as their sum is. */
  lemma {:induction false} OneWayFolds(balance: u128, natives: seq<NativeEffect>)
    requires (forall n :: n in natives ==> n.Credit?) || (forall n :: n in natives ==> n.Debit?)
    ensures (forall n :: n in natives ==> n.Credit?) ==> Net(natives) >= 0
    ensures (forall n :: n in natives ==> n.Debit?) ==> Net(natives) <= 0
    ensures FoldNative(balance, natives).Some? <==> 0 <= balance + Net(natives) <= U128_MAX
    decreases |natives|
  {
    if natives != [] {
      assert natives[0] in natives;
      OneWayFolds(balance, natives[1..]);
      match ApplyNative(balance, natives[0])
      case None =>
      case Some(next) => OneWayFolds(next, natives[1..]);
    }
  }

  lemma {:induction false} FoldAppends(env: Env, account: Account, first: seq<Effect>, second: seq<Effect>)
    ensures FoldEffects(env, account, first + second)
         == match FoldEffects(env, account, first)
            case None => None
            case Some(next) => FoldEffects(env, next, second)
    decreases |first|
  {
    if first == [] {
      assert first + second == second;
    } else {
      assert (first + second)[1..] == first[1..] + second;
      match ApplyEffect(env, account, first[0])
      case None =>
      case Some(next) => FoldAppends(env, next, first[1..], second);
    }
  }

  /**
   * Success itself does depend on the order.  Credits first need head room above the balance for all
   * of them; debits first need the balance to cover all of them.
   */
  lemma OrderDecidesSuccess(env: Env, account: Account, credits: seq<Effect>, debits: seq<Effect>)
    requires NativeOnly(env, credits) && NativeOnly(env, debits) && Credits(credits) && Debits(debits)
    ensures var up, down, b := Net(Payloads(credits)), 0 - Net(Payloads(debits)), account.balance;
      && (FoldEffects(env, account, credits + debits).Some? <==> b + up <= U128_MAX && down <= b + up)
      && (FoldEffects(env, account, debits + credits).Some? <==> down <= b && b - down + up <= U128_MAX)
  {
    OneWaySigns(credits);
    OneWaySigns(debits);
    TwoPhases(env, account, credits, debits);
    TwoPhases(env, account, debits, credits);
  }

  /** The account with its balance moved by `delta`, if that is a balance. */
  function Shifted(account: Account, delta: int): Option<Account> {
    if 0 <= account.balance + delta <= U128_MAX then Some(account.(balance := account.balance + delta)) else None
  }

  ghost predicate OneWay(env: Env, effects: seq<Effect>) {
    NativeOnly(env, effects) && (Credits(effects) || Debits(effects))
  }

  lemma TwoPhases(env: Env, account: Account, first: seq<Effect>, second: seq<Effect>)
    requires OneWay(env, first) && OneWay(env, second)
    ensures FoldEffects(env, account, first + second)
         == match Shifted(account, Net(Payloads(first)))
            case None => None
            case Some(next) => Shifted(next, Net(Payloads(second)))
  {
    FoldAppends(env, account, first, second);
    OneWaySettles(env, account, first);
    match Shifted(account, Net(Payloads(first)))
    case None =>
    case Some(next) => OneWaySettles(env, next, second);
  }

  lemma OneWaySigns(effects: seq<Effect>)
    requires Credits(effects) || Debits(effects)
    ensures Credits(effects) ==> Net(Payloads(effects)) >= 0
    ensures Debits(effects) ==> Net(Payloads(effects)) <= 0
  {
    OneWayFolds(0, Payloads(effects));
  }

  lemma OneWaySettles(env: Env, account: Account, effects: seq<Effect>)
    requires OneWay(env, effects)
    ensures FoldEffects(env, account, effects) == Shifted(account, Net(Payloads(effects)))
  {
    OneWayFolds(account.balance, Payloads(effects));
    SettlementFolds(env, account, effects);
    FoldIsExact(account.balance, Payloads(effects));
  }

  /** The account an accepted action must leave: folded balance, one nonce step if it signed, no other change. */
  function ExpectedAccount(before: Account, balance: u128, signed: bool): Option<Account> {
    if !signed then Some(before.(balance := balance))
    else
      match CheckedAdd(before.nonce, 1)
      case None => None
      case Some(nonce) => Some(before.(balance := balance, nonce := nonce))
  }

  ghost predicate ActionApplied(env: Env, before: Accounts, after: Accounts, signers: seq<AccountId>,
                                action: PublicAction)
  {
    var account := Get(before, action.accountId);
    match ScanEffects(env, account.balance, action.effects)
    case Skip => true
    case Bad => false
    case Folded(balance) =>
      ExpectedAccount(account, balance, action.accountId in signers) == Some(Get(after, action.accountId))
  }

  /** PublicEffectsApplied: the nested loops of the target; `false` stands for its panic. */
  method CheckPublicEffects(env: Env, before: Accounts, after: Accounts, actions: seq<PublicAction>,
                            signers: seq<AccountId>)
    returns (ok: bool)
    ensures ok <==> forall i :: 0 <= i < |actions| ==> ActionApplied(env, before, after, signers, actions[i])
  {
    for i := 0 to |actions|
      invariant forall j :: 0 <= j < i ==> ActionApplied(env, before, after, signers, actions[j])
    {
      var action := actions[i];
      var account := Get(before, action.accountId);
      var balance := account.balance;
      var skip := false;
      var k := 0;
      while k < |action.effects|
        invariant 0 <= k <= |action.effects|
        invariant !skip ==>
          ScanEffects(env, account.balance, action.effects) == ScanEffects(env, balance, action.effects[k..])
        invariant skip ==> k == |action.effects| && ScanEffects(env, account.balance, action.effects) == Skip
      {
        var effect := action.effects[k];
        assert action.effects[k..][1..] == action.effects[k + 1..];
        if !IsNative(env, effect) {
          skip := true;
          k := |action.effects|;
        } else {
          if effect.payload.Undecodable? {
            return false;
          }
          var next := ApplyNative(balance, effect.payload.native);
          if next.None? {
            return false;
          }
          balance := next.value;
          k := k + 1;
        }
      }
      if !skip {
        var expected := ExpectedAccount(account, balance, action.accountId in signers);
        if expected != Some(Get(after, action.accountId)) {
          return false;
        }
      }
    }
    ok := true;
  }

  /** A scan that folds agrees with settlement, and a scan never condemns effects that settle. */
  lemma {:induction false} ScanAgreesWithSettlement(env: Env, account: Account, effects: seq<Effect>)
    requires FoldEffects(env, account, effects).Some?
    ensures var scan := ScanEffects(env, account.balance, effects);
      && scan != Bad
      && (scan.Folded? ==> FoldEffects(env, account, effects).value == account.(balance := scan.balance))
    decreases |effects|
  {
    if effects != [] && IsNative(env, effects[0]) {
      ScanAgreesWithSettlement(env, ApplyEffect(env, account, effects[0]).value, effects[1..]);
    }
  }

  ghost predicate DistinctIds(actions: seq<PublicAction>) {
    forall i, j :: 0 <= i < j < |actions| ==> actions[i].accountId != actions[j].accountId
  }

  /** With unique ids, settlement folds each action from the pre-state, independently of the others. */
  lemma {:induction false} SettledAccounts(env: Env, accounts: Accounts, actions: seq<PublicAction>)
    requires Settle(env, accounts, actions).Some?
    requires DistinctIds(actions)
    ensures var written := Settle(env, accounts, actions).value;
      forall i :: 0 <= i < |actions| ==>
        && actions[i].accountId in written
        && FoldEffects(env, Get(accounts, actions[i].accountId), actions[i].effects)
           == Some(written[actions[i].accountId])
  {
    if actions != [] {
      var rest := actions[1..];
      SettledAccounts(env, accounts, rest);
      forall i | 0 < i < |actions| ensures actions[i].accountId != actions[0].accountId && actions[i] == rest[i - 1] {}
    }
  }

  /** After an accepted transaction with distinct signers, each public account is as the target expects. */
  lemma AcceptedActionApplied(env: Env, s: State, tx: Tx, block: u64, timestamp: u64, i: nat)
    requires tx.Private? && Distinct(tx.signers) && Accepts(env, s, tx, block, timestamp)
    requires i < |tx.message.publicActions|
    ensures ActionApplied(env, s.accounts, Execute(env, s, tx, block, timestamp).accounts, tx.signers,
                          tx.message.publicActions[i])
  {
    var m := tx.message;
    var action := m.publicActions[i];
    var id := action.accountId;
    forall k, l | 0 <= k < l < |m.publicActions| ensures m.publicActions[k].accountId != m.publicActions[l].accountId {
      assert PublicIds(m)[k] != PublicIds(m)[l];
    }
    SettledAccounts(env, s.accounts, m.publicActions);
    var written := Settle(env, s.accounts, m.publicActions).value;
    ScanAgreesWithSettlement(env, Get(s.accounts, id), action.effects);
    FoldKeepsNonce(env, Get(s.accounts, id), action.effects);
    ValidIsApplicable(env, s, tx, block, timestamp);
    DistinctOnce(tx.signers, id);
    IncrementedOnce(s.accounts + written, tx.signers, id);
  }

  lemma {:induction false} DistinctOnce<T>(s: seq<T>, x: T)
    requires Distinct(s)
    ensures multiset(s)[x] == if x in s then 1 else 0
  {
    if s != [] {
      DistinctOnce(s[1..], x);
      assert s == [s[0]] + s[1..];
    }
  }

  lemma IncrementedOnce(accounts: Accounts, signers: seq<AccountId>, id: AccountId)
    requires NoncesCanAdvance(accounts, signers) && multiset(signers)[id] == if id in signers then 1 else 0
    ensures Some(Get(IncrementNonces(accounts, signers), id))
         == ExpectedAccount(Get(accounts, id), Get(accounts, id).balance, id in signers)
  {}

  /**
   * Every success-path assertion of the target holds for an accepted transaction with distinct
   * signers: commitments inserted, signer nonces incremented, effects applied, replay rejected.
   */
  lemma SuccessPathHolds(env: Env, s: State, tx: Tx, block: u64, timestamp: u64, replayBlock: u64, replayTime: u64,
                         tracked: set<AccountId>)
    requires tx.Private? && Distinct(tx.signers) && Accepts(env, s, tx, block, timestamp)
    ensures var next := Execute(env, s, tx, block, timestamp);
      && (forall c :: c in Commitments(tx.message) ==> c in next.commitments)
      && NoncesIncremented(tx.signers, Nonces(s.accounts, tracked), next.accounts)
      && (forall i :: 0 <= i < |tx.message.publicActions| ==>
            ActionApplied(env, s.accounts, next.accounts, tx.signers, tx.message.publicActions[i]))
      && !Accepts(env, next, tx, replayBlock, replayTime)
  {
    ExecuteEffect(env, s, tx, block, timestamp);
    AcceptedOnlyOnce(env, s, Submission(tx, block, timestamp), [], replayBlock, replayTime);
    forall i | 0 <= i < |tx.message.publicActions|
      ensures ActionApplied(env, s.accounts, Execute(env, s, tx, block, timestamp).accounts, tx.signers,
                            tx.message.publicActions[i])
    {
      AcceptedActionApplied(env, s, tx, block, timestamp, i);
    }
    forall id | id in tx.signers ensures multiset(SignersOf(tx))[id] == 1 {
      DistinctOnce(tx.signers, id);
    }
  }
}
