/** The state generator of `generators.rs` and the genesis overlay of `genesis.rs`. */
module Generators {
  import opened Integers
  import opened Identity
  import opened Sums
  import opened Protocol
  import opened Checkers

  const CAP: u128 := U128_MAX / 8

  // ---------- arbitrary_fuzz_state ----------

  datatype AccountDraw = AccountDraw(key: PrivateKey, raw: u128)

  function Drawn(idOf: PrivateKey -> AccountId, draw: nat -> AccountDraw, i: nat): FuzzAccount {
    FuzzAccount(idOf(draw(i).key), draw(i).raw / 8, draw(i).key)
  }

  function DrawnAccounts(idOf: PrivateKey -> AccountId, draw: nat -> AccountDraw, n: nat): (r: seq<FuzzAccount>)
    ensures |r| == n
    ensures forall i :: 0 <= i < n ==> r[i] == Drawn(idOf, draw, i)
  {
    seq(n, i requires 0 <= i => Drawn(idOf, draw, i))
  }

  /** Draw `i` is kept: its id is not reserved and no earlier draw has it. */
  predicate IsFirst(drawn: seq<FuzzAccount>, reserved: seq<AccountId>, i: nat)
    requires i < |drawn|
  {
    && drawn[i].accountId !in reserved
    && forall j :: 0 <= j < i ==> drawn[j].accountId != drawn[i].accountId
  }

  /** `origin` lists, in draw order, exactly the draws that are kept. */
  ghost predicate KeptDraws(drawn: seq<FuzzAccount>, reserved: seq<AccountId>, origin: seq<nat>) {
    && (forall k, l :: 0 <= k < l < |origin| ==> origin[k] < origin[l])
    && (forall k :: 0 <= k < |origin| ==> origin[k] < |drawn|)
    && (forall i :: 0 <= i < |drawn| ==> (i in origin <==> IsFirst(drawn, reserved, i)))
  }

  ghost predicate SelectedBy(accounts: seq<FuzzAccount>, drawn: seq<FuzzAccount>, origin: seq<nat>) {
    && |accounts| == |origin|
    && forall k :: 0 <= k < |origin| ==> origin[k] < |drawn| && accounts[k] == drawn[origin[k]]
  }

  ghost predicate Kept(drawn: seq<FuzzAccount>, reserved: seq<AccountId>, accounts: seq<FuzzAccount>,
                       origin: seq<nat>)
  {
    KeptDraws(drawn, reserved, origin) && SelectedBy(accounts, drawn, origin)
  }

  /** The account of a draw: its key, the id of that key, and an eighth of the raw balance, rounded down. */
  ghost predicate FromDraw(idOf: PrivateKey -> AccountId, account: FuzzAccount, d: AccountDraw) {
    && account.privateKey == d.key && account.accountId == idOf(d.key)
    && 8 * account.balance <= d.raw < 8 * account.balance + 8
  }

  /** A draw determines its account, and some draw of every key gives every balance up to the cap. */
  lemma DrawDeterminesAccount(idOf: PrivateKey -> AccountId, a: FuzzAccount, b: FuzzAccount, d: AccountDraw)
    requires FromDraw(idOf, a, d) && FromDraw(idOf, b, d)
    ensures a == b
  {}

  lemma EveryBalanceIsDrawn(idOf: PrivateKey -> AccountId, key: PrivateKey, balance: u128)
    ensures balance <= CAP
      <==> exists raw: u128 :: FromDraw(idOf, FuzzAccount(idOf(key), balance, key), AccountDraw(key, raw))
  {
    if balance <= CAP {
      assert FromDraw(idOf, FuzzAccount(idOf(key), balance, key), AccountDraw(key, 8 * balance));
    }
  }

  method ArbitraryFuzzState(idOf: PrivateKey -> AccountId, reserved: seq<AccountId>, selector: u8,
                            draw: nat -> AccountDraw)
    returns (accounts: seq<FuzzAccount>, ghost origin: seq<nat>)
    ensures Kept(DrawnAccounts(idOf, draw, selector % 8 + 1), reserved, accounts, origin)
    ensures forall k :: 0 <= k < |accounts| ==> FromDraw(idOf, accounts[k], draw(origin[k]))
    ensures WellGenerated(idOf, reserved, accounts)
  {
    var n: nat := selector % 8 + 1;
    ghost var drawn := DrawnAccounts(idOf, draw, n);
    var seen: set<AccountId> := {};
    accounts := [];
    origin := [];
    for i := 0 to n
      invariant Kept(drawn[..i], reserved, accounts, origin)
      invariant SeenBefore(drawn, reserved, i, seen)
    {
      var account := Drawn(idOf, draw, i);
      KeptStep(drawn, reserved, accounts, origin, i);
      SeenStep(drawn, reserved, i, seen);
      if account.accountId in reserved || account.accountId in seen {
        continue;
      }
      seen := seen + {account.accountId};
      accounts := accounts + [account];
      origin := origin + [i];
    }
    assert drawn[..n] == drawn;
    KeptAreWellGenerated(idOf, draw, n, reserved, accounts, origin);
  }

  ghost predicate SeenBefore(drawn: seq<FuzzAccount>, reserved: seq<AccountId>, i: nat, seen: set<AccountId>)
    requires i <= |drawn|
  {
    forall id :: id in seen <==> id !in reserved && exists j :: 0 <= j < i && drawn[j].accountId == id
  }

  lemma SeenStep(drawn: seq<FuzzAccount>, reserved: seq<AccountId>, i: nat, seen: set<AccountId>)
    requires i < |drawn| && SeenBefore(drawn, reserved, i, seen)
    ensures var id := drawn[i].accountId;
      && (IsFirst(drawn, reserved, i) <==> id !in reserved && id !in seen)
      && SeenBefore(drawn, reserved, i + 1, if id in reserved || id in seen then seen else seen + {id})
  {}

  lemma KeptStep(drawn: seq<FuzzAccount>, reserved: seq<AccountId>, accounts: seq<FuzzAccount>, origin: seq<nat>,
                 i: nat)
    requires i < |drawn| && Kept(drawn[..i], reserved, accounts, origin)
    ensures IsFirst(drawn, reserved, i) ==> Kept(drawn[..i + 1], reserved, accounts + [drawn[i]], origin + [i])
    ensures !IsFirst(drawn, reserved, i) ==> Kept(drawn[..i + 1], reserved, accounts, origin)
  {
    var longer := drawn[..i + 1];
    forall j | 0 <= j < i ensures IsFirst(longer, reserved, j) <==> IsFirst(drawn[..i], reserved, j) {}
    assert IsFirst(longer, reserved, i) <==> IsFirst(drawn, reserved, i);
    assert i !in origin;
  }

  /** What the callers of the generator rely on. */
  ghost predicate WellGenerated(idOf: PrivateKey -> AccountId, reserved: seq<AccountId>, accounts: seq<FuzzAccount>) {
    && |accounts| <= 8
    && Distinct(Ids(accounts))
    && (forall a :: a in accounts ==>
          a.accountId == idOf(a.privateKey) && a.accountId !in reserved && a.balance <= CAP)
  }

  lemma KeptAreWellGenerated(idOf: PrivateKey -> AccountId, draw: nat -> AccountDraw, n: nat, reserved: seq<AccountId>,
                             accounts: seq<FuzzAccount>, origin: seq<nat>)
    requires n <= 8
    requires Kept(DrawnAccounts(idOf, draw, n), reserved, accounts, origin)
    ensures WellGenerated(idOf, reserved, accounts)
  {
    var drawn := DrawnAccounts(idOf, draw, n);
    forall k, l | 0 <= k < l < |accounts| ensures Ids(accounts)[k] != Ids(accounts)[l] {
      assert origin[l] in origin;
      assert IsFirst(drawn, reserved, origin[l]);
    }
    forall a | a in accounts
      ensures a.accountId == idOf(a.privateKey) && a.accountId !in reserved && a.balance <= CAP
    {
      var k :| 0 <= k < |accounts| && accounts[k] == a;
      assert origin[k] in origin;
      assert IsFirst(drawn, reserved, origin[k]);
    }
    IncreasingIsShort(origin, n);
  }

  lemma {:induction false} IncreasingIsShort(origin: seq<nat>, n: nat)
    requires forall k, l :: 0 <= k < l < |origin| ==> origin[k] < origin[l]
    requires forall k :: 0 <= k < |origin| ==> origin[k] < n
    ensures |origin| <= n
    decreases |origin|
  {
    if origin != [] {
      IncreasingIsShort(origin[..|origin| - 1], origin[|origin| - 1]);
    }
  }

  // ---------- biased_valid_nonce_amount ----------

  function BiasedValidNonceAmount(nonceByte: u8, amountRaw: u128, balance: u128): (r: (u128, u128))
    ensures r.0 <= 3 && r.1 <= balance
    ensures nonceByte <= 3 ==> r.0 == nonceByte
    ensures amountRaw <= balance && balance < U128_MAX ==> r.1 == amountRaw
  {
    (Mod(nonceByte, 4), Mod(amountRaw, SaturatingAdd(balance, 1)))
  }

  /** Nonce and amount are what the raw draws leave modulo 4 and modulo the saturated successor of the balance. */
  lemma BiasedIsRemainder(nonceByte: u8, amountRaw: u128, balance: u128)
    ensures var (nonce, amount) := BiasedValidNonceAmount(nonceByte, amountRaw, balance);
      && Remainder(nonceByte, 4, nonce)
      && Remainder(amountRaw, if balance < U128_MAX then balance + 1 else U128_MAX, amount)
  {
    RemainderIsMod(nonceByte, 4);
    RemainderIsMod(amountRaw, if balance < U128_MAX then balance + 1 else U128_MAX);
  }

  /** Below the largest balance every amount is reachable; at it the saturated modulus loses the top one. */
  lemma BiasedAmountReach(balance: u128, amount: u128)
    ensures (exists raw: u128 :: BiasedValidNonceAmount(0, raw, balance).1 == amount)
      <==> amount <= balance && (balance == U128_MAX ==> amount < U128_MAX)
  {
    if amount <= balance && (balance == U128_MAX ==> amount < U128_MAX) {
      assert BiasedValidNonceAmount(0, amount, balance).1 == amount;
    }
  }

  // ---------- genesis_state ----------

  datatype SystemAccounts = SystemAccounts(
    bridge: (AccountId, Account),
    clocks: seq<(AccountId, Account)>,
    stakeConfig: (AccountId, Account),
    feeState: (AccountId, Account),
    feeEscrowId: AccountId,
    feeInboxId: AccountId,
    feeIds: seq<AccountId>)

  /** `fee_account_ids` names the three fee accounts. */
  ghost predicate FeeIdsComplete(sys: SystemAccounts) {
    AsSet(sys.feeIds) == {sys.feeState.0, sys.feeEscrowId, sys.feeInboxId}
  }

  function Firsts<T>(pairs: seq<(AccountId, T)>): (r: seq<AccountId>)
    ensures |r| == |pairs| && forall i :: 0 <= i < |r| ==> r[i] == pairs[i].0
  {
    seq(|pairs|, i requires 0 <= i < |pairs| => pairs[i].0)
  }

  function ReservedAccountIds(sys: SystemAccounts): seq<AccountId> {
    [sys.bridge.0, sys.stakeConfig.0] + Firsts(sys.clocks) + sys.feeIds
  }

  /** The overlay that genesis chains after the supplied accounts. */
  function Overlay(sys: SystemAccounts): seq<(AccountId, Account)> {
    [sys.bridge] + sys.clocks
    + [sys.stakeConfig, sys.feeState, (sys.feeEscrowId, DEFAULT_ACCOUNT), (sys.feeInboxId, DEFAULT_ACCOUNT)]
  }

  /** Collecting pairs into a hash map: the last write of a key wins. */
  function Collect(pairs: seq<(AccountId, Account)>): Accounts {
    if pairs == [] then map[]
    else Collect(pairs[..|pairs| - 1])[pairs[|pairs| - 1].0 := pairs[|pairs| - 1].1]
  }

  function Funded(balances: seq<(AccountId, u128)>): (r: seq<(AccountId, Account)>)
    ensures |r| == |balances|
  {
    seq(|balances|, i requires 0 <= i < |balances| => (balances[i].0, Account(balances[i].1, 0, Bytes([]))))
  }

  function GenesisAccounts(sys: SystemAccounts, balances: seq<(AccountId, u128)>): Accounts {
    Collect(Funded(balances) + Overlay(sys))
  }

  function InitAccs(accounts: seq<FuzzAccount>): (r: seq<(AccountId, u128)>)
    ensures |r| == |accounts|
  {
    seq(|accounts|, i requires 0 <= i < |accounts| => (accounts[i].accountId, accounts[i].balance))
  }

  lemma {:induction false} CollectReads(pairs: seq<(AccountId, Account)>, i: nat)
    requires i < |pairs|
    requires forall j :: i < j < |pairs| ==> pairs[j].0 != pairs[i].0
    ensures pairs[i].0 in Collect(pairs) && Collect(pairs)[pairs[i].0] == pairs[i].1
    decreases |pairs|
  {
    if i < |pairs| - 1 {
      CollectReads(pairs[..|pairs| - 1], i);
    }
  }

  lemma {:induction false} CollectDomain(pairs: seq<(AccountId, Account)>)
    ensures Collect(pairs).Keys == AsSet(Firsts(pairs))
  {
    if pairs != [] {
      var prefix := pairs[..|pairs| - 1];
      CollectDomain(prefix);
      assert Firsts(pairs) == Firsts(prefix) + [pairs[|pairs| - 1].0];
    }
  }

  /** The reserved ids are exactly the ids genesis populates by itself. */
  lemma ReservedIsOverlay(sys: SystemAccounts)
    requires FeeIdsComplete(sys)
    ensures AsSet(ReservedAccountIds(sys)) == GenesisAccounts(sys, []).Keys
  {
    CollectDomain(Funded([]) + Overlay(sys));
    assert Funded([]) + Overlay(sys) == Overlay(sys);
    OverlayNames(sys);
    forall id ensures id in ReservedAccountIds(sys) <==> id in Firsts(Overlay(sys)) {
      assert id in sys.feeIds <==> id in AsSet(sys.feeIds);
    }
  }

  lemma OverlayNames(sys: SystemAccounts)
    ensures Firsts(Overlay(sys))
         == [sys.bridge.0] + Firsts(sys.clocks) + [sys.stakeConfig.0, sys.feeState.0, sys.feeEscrowId, sys.feeInboxId]
  {}

  /** The balance of every generated account survives the construction of genesis. */
  lemma GenesisReadsBack(sys: SystemAccounts, accounts: seq<FuzzAccount>, k: nat)
    requires FeeIdsComplete(sys) && Distinct(Ids(accounts)) && k < |accounts|
    requires accounts[k].accountId !in ReservedAccountIds(sys)
    ensures Get(GenesisAccounts(sys, InitAccs(accounts)), accounts[k].accountId)
         == Account(accounts[k].balance, 0, Bytes([]))
  {
    var funded := Funded(InitAccs(accounts));
    var pairs := funded + Overlay(sys);
    forall j | k < j < |pairs| ensures pairs[j].0 != pairs[k].0 {
      if j < |funded| {
        assert Ids(accounts)[k] != Ids(accounts)[j];
      } else {
        OverlayIsReserved(sys, j - |funded|);
      }
    }
    CollectReads(pairs, k);
  }

  lemma OverlayIsReserved(sys: SystemAccounts, i: nat)
    requires FeeIdsComplete(sys) && i < |Overlay(sys)|
    ensures Overlay(sys)[i].0 in ReservedAccountIds(sys)
  {}

  /** End to end: what genesis stores for a generated account is an eighth of the raw balance of its draw. */
  lemma DrawIsReadBack(sys: SystemAccounts, idOf: PrivateKey -> AccountId, accounts: seq<FuzzAccount>, k: nat,
                       d: AccountDraw)
    requires FeeIdsComplete(sys) && WellGenerated(idOf, ReservedAccountIds(sys), accounts) && k < |accounts|
    requires FromDraw(idOf, accounts[k], d)
    ensures var stored := Get(GenesisAccounts(sys, InitAccs(accounts)), idOf(d.key));
      8 * stored.balance <= d.raw < 8 * stored.balance + 8 && stored.nonce == 0
  {
    assert accounts[k] in accounts;
    GenesisReadsBack(sys, accounts, k);
  }

  /** The system accounts read back as given, when their ids are distinct: nothing supplied overwrites them. */
  lemma SystemAccountsReadBack(sys: SystemAccounts, balances: seq<(AccountId, u128)>)
    requires Distinct(Firsts(Overlay(sys)))
    ensures var genesis := GenesisAccounts(sys, balances);
      && Get(genesis, sys.bridge.0) == sys.bridge.1
      && (forall i :: 0 <= i < |sys.clocks| ==> Get(genesis, sys.clocks[i].0) == sys.clocks[i].1)
      && Get(genesis, sys.stakeConfig.0) == sys.stakeConfig.1 && Get(genesis, sys.feeState.0) == sys.feeState.1
      && Get(genesis, sys.feeEscrowId) == DEFAULT_ACCOUNT && Get(genesis, sys.feeInboxId) == DEFAULT_ACCOUNT
  {
    var overlay, n := Overlay(sys), |sys.clocks|;
    forall i | 0 <= i < |overlay| ensures Get(GenesisAccounts(sys, balances), overlay[i].0) == overlay[i].1 {
      forall j | i < j < |overlay| ensures overlay[j].0 != overlay[i].0 {
        assert Firsts(overlay)[i] != Firsts(overlay)[j];
      }
      ReservedIsOverwritten(sys, balances, i);
    }
    forall i | 0 <= i < n ensures Get(GenesisAccounts(sys, balances), sys.clocks[i].0) == sys.clocks[i].1 {
      assert overlay[i + 1] == sys.clocks[i];
    }
    assert overlay[0] == sys.bridge && overlay[n + 1] == sys.stakeConfig && overlay[n + 2] == sys.feeState;
    assert overlay[n + 3] == (sys.feeEscrowId, DEFAULT_ACCOUNT) && overlay[n + 4] == (sys.feeInboxId, DEFAULT_ACCOUNT);
  }

  /** Why the exclusion is there: a reserved id reads back whatever the overlay stores, not its balance. */
  lemma ReservedIsOverwritten(sys: SystemAccounts, balances: seq<(AccountId, u128)>, i: nat)
    requires i < |Overlay(sys)|
    requires forall j :: i < j < |Overlay(sys)| ==> Overlay(sys)[j].0 != Overlay(sys)[i].0
    ensures Get(GenesisAccounts(sys, balances), Overlay(sys)[i].0) == Overlay(sys)[i].1
  {
    CollectReads(Funded(balances) + Overlay(sys), |balances| + i);
  }

  /** The total of a generated genesis never overflows: at most 8 balances, each at most an eighth. */
  lemma GenesisTotalFits(sys: SystemAccounts, idOf: PrivateKey -> AccountId, accounts: seq<FuzzAccount>)
    requires FeeIdsComplete(sys) && WellGenerated(idOf, ReservedAccountIds(sys), accounts)
    ensures 0 <= Total(GenesisAccounts(sys, InitAccs(accounts)), AsSet(Ids(accounts))) <= 8 * CAP < U128_MAX
  {
    var genesis := GenesisAccounts(sys, InitAccs(accounts));
    var balances := Balances(genesis, AsSet(Ids(accounts)));
    forall id | id in balances ensures balances[id] <= CAP {
      var k :| 0 <= k < |accounts| && Ids(accounts)[k] == id;
      assert accounts[k] in accounts;
      GenesisReadsBack(sys, accounts, k);
    }
    SumBounded(balances, CAP);
    SumBoundsEntries(balances);
    SetOfSeqIsSmall(Ids(accounts));
    assert |balances| == |balances.Keys|;
    MulMonotone(|balances|, 8, CAP);
  }

  lemma {:induction false} SetOfSeqIsSmall(s: seq<AccountId>)
    ensures |AsSet(s)| <= |s|
  {
    if s != [] {
      var prefix := s[..|s| - 1];
      SetOfSeqIsSmall(prefix);
      assert s == prefix + [s[|s| - 1]];
      assert AsSet(s) == AsSet(prefix) + {s[|s| - 1]};
    }
  }
}
