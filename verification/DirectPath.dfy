/**
 * The direct path: one pass that checks while it writes, with no diff in between.  It is written
 * from the effects that the targets assert of an executed transaction, not from `Validate` and
 * `ApplyDiff`, and it is proved to be the same machine.
 */
module DirectPath {
  import opened Wrappers
  import opened Integers
  import opened Identity
  import opened Protocol
  import opened Ordering
  import opened Privacy
  import opened Builders
  import opened Effects

  // ---------- Transfers ----------

  /** Two writes: the debit together with the nonce, then the credit. */
  function TransferInPlace(env: Env, accounts: Accounts, from: AccountId, to: AccountId, nonce: u128, amount: u128)
    : Option<Accounts>
  {
    var payer := Get(accounts, from);
    if from == to || from in env.systemIds || to in env.systemIds then None
    else if nonce != payer.nonce || nonce == U128_MAX || payer.balance < amount then None
    else
      var paid := accounts[from := Account(payer.balance - amount, nonce + 1, payer.data)];
      var payee := Get(paid, to);
      match CheckedAdd(payee.balance, amount)
      case None => None
      case Some(balance) => Some(paid[to := payee.(balance := balance)])
  }

  // ---------- Shielded transactions ----------

  /** Folds each action into the running accounts; an id that comes up again is a duplicate. */
  function PublicInPlace(env: Env, accounts: Accounts, seen: set<AccountId>, actions: seq<PublicAction>)
    : Option<Accounts>
    decreases |actions|
  {
    if actions == [] then Some(accounts)
    else
      var id := actions[0].accountId;
      if id in seen || id in env.systemIds then None
      else
        match FoldEffects(env, Get(accounts, id), actions[0].effects)
        case None => None
        case Some(account) => PublicInPlace(env, accounts[id := account], seen + {id}, actions[1..])
  }

  /** Each signature declares the nonce from before the transaction and moves the running one by one. */
  function SignInPlace(before: Accounts, accounts: Accounts, signers: seq<AccountId>, nonces: seq<u128>)
    : Option<Accounts>
    decreases |signers|
  {
    if signers == [] || nonces == [] then
      if signers == [] && nonces == [] then Some(accounts) else None
    else
      var account := Get(accounts, signers[0]);
      if nonces[0] != Get(before, signers[0]).nonce || account.nonce == U128_MAX then None
      else
        SignInPlace(before, accounts[signers[0] := account.(nonce := account.nonce + 1)], signers[1..], nonces[1..])
  }

  datatype Notes = Notes(leaves: seq<Commitment>, spent: set<Nullifier>)

  /** Spends and inserts one action at a time, so a repetition inside the message is just a stale entry. */
  function PrivateInPlace(roots: set<Root>, notes: Notes, actions: seq<PrivateAction>): Option<Notes>
    decreases |actions|
  {
    if actions == [] then Some(notes)
    else
      var a := actions[0];
      if a.nullifier in notes.spent || a.commitment in notes.leaves || a.root !in roots then None
      else PrivateInPlace(roots, Notes(notes.leaves + [a.commitment], notes.spent + {a.nullifier}), actions[1..])
  }

  /** Re-reads the image of every disclosed program; an unknown program stops the pass. */
  function Reanchor(claims: seq<Claim>, programs: map<AccountId, ImageId>): Option<seq<Claim>> {
    if claims == [] then Some([])
    else if claims[0].Disclosed? && claims[0].accountId !in programs then None
    else
      match Reanchor(claims[1..], programs)
      case None => None
      case Some(rest) =>
        var c := claims[0];
        Some([if c.Disclosed? then Disclosed(c.accountId, programs[c.accountId]) else c] + rest)
  }

  predicate Verifies(m: Message, claims: seq<Claim>, signers: seq<AccountId>, proof: Proof) {
    proof == BoundTo(Journal(Authorize(m.publicActions, signers), m.privateActions,
                             m.blockWindow, m.timestampWindow, claims))
  }

  /** The accounts part of a shielded transaction: settle in place, then sign in place. */
  function AccountsInPlace(env: Env, s: State, m: Message, signers: seq<AccountId>): Option<Accounts> {
    match PublicInPlace(env, s.accounts, {}, m.publicActions)
    case None => None
    case Some(settled) => SignInPlace(s.accounts, settled, signers, m.nonces)
  }

  function ShieldedInPlace(env: Env, s: State, m: Message, signers: seq<AccountId>, proof: Proof, block: u64,
                           timestamp: u64)
    : Option<State>
  {
    if m.privateActions == [] || !m.blockWindow.Contains(block) || !m.timestampWindow.Contains(timestamp) then None
    else
      match (AccountsInPlace(env, s, m, signers),
             PrivateInPlace(s.rootHistory, Notes(s.commitments, s.spent), m.privateActions),
             Reanchor(m.claims, s.programs))
      case (Some(accounts), Some(notes), Some(claims)) =>
        if !Verifies(m, claims, signers, proof) then None
        else Some(State(accounts, notes.leaves, s.rootHistory + {env.rootOf(notes.leaves)}, notes.spent, s.programs))
      case _ => None
  }

  function ExecuteInPlace(env: Env, s: State, tx: Tx, block: u64, timestamp: u64): Option<State> {
    match tx
    case Transfer(from, to, nonce, amount) =>
      (match TransferInPlace(env, s.accounts, from, to, nonce, amount)
       case None => None
       case Some(accounts) => Some(s.(accounts := accounts)))
    case Private(m, signers, proof) => ShieldedInPlace(env, s, m, signers, proof, block, timestamp)
  }

  // ---------- Each pass against its check and its part of the diff ----------

  lemma TransferChecks(env: Env, accounts: Accounts, from: AccountId, to: AccountId, nonce: u128, amount: u128)
    ensures TransferInPlace(env, accounts, from, to, nonce, amount).Some?
      <==> ValidateTransfer(env, accounts, from, to, nonce, amount).Valid?
  {}

  /** The diff of a transfer, merged into the accounts, is a write of each party. */
  lemma TransferDiff(env: Env, accounts: Accounts, from: AccountId, to: AccountId, nonce: u128, amount: u128)
    requires ValidateTransfer(env, accounts, from, to, nonce, amount).Valid?
    ensures var payer, payee := Get(accounts, from), Get(accounts, to);
      && from != to && nonce == payer.nonce < U128_MAX
      && amount <= payer.balance && payee.balance + amount <= U128_MAX
      && accounts + ValidateTransfer(env, accounts, from, to, nonce, amount).diff.publicDiff
         == accounts[from := payer.(balance := payer.balance - amount)]
                    [to := payee.(balance := payee.balance + amount)]
  {}

  /** The direct path writes the same two accounts, the payer with its next nonce. */
  lemma TransferDirect(env: Env, accounts: Accounts, from: AccountId, to: AccountId, nonce: u128, amount: u128)
    requires TransferInPlace(env, accounts, from, to, nonce, amount).Some?
    ensures var payer, payee := Get(accounts, from), Get(accounts, to);
      && nonce == payer.nonce < U128_MAX && amount <= payer.balance && payee.balance + amount <= U128_MAX
      && TransferInPlace(env, accounts, from, to, nonce, amount).value
         == accounts[from := Account(payer.balance - amount, nonce + 1, payer.data)]
                    [to := payee.(balance := payee.balance + amount)]
  {}

  lemma TransferWrites(env: Env, accounts: Accounts, from: AccountId, to: AccountId, nonce: u128, amount: u128)
    requires ValidateTransfer(env, accounts, from, to, nonce, amount).Valid?
    ensures var written := accounts + ValidateTransfer(env, accounts, from, to, nonce, amount).diff.publicDiff;
      && NoncesCanAdvance(written, [from])
      && TransferInPlace(env, accounts, from, to, nonce, amount) == Some(IncrementNonces(written, [from]))
  {
    TransferChecks(env, accounts, from, to, nonce, amount);
    TransferDiff(env, accounts, from, to, nonce, amount);
    TransferDirect(env, accounts, from, to, nonce, amount);
    var payer, payee := Get(accounts, from), Get(accounts, to);
    SignedBetweenWrites(accounts, from, to, payer.(balance := payer.balance - amount),
                        payee.(balance := payee.balance + amount));
  }

  /** Incrementing the nonce after both writes, or together with the first. */
  lemma SignedBetweenWrites(accounts: Accounts, from: AccountId, to: AccountId, debited: Account, credited: Account)
    requires from != to && debited.nonce < U128_MAX
    ensures NoncesCanAdvance(accounts[from := debited][to := credited], [from])
    ensures IncrementNonces(accounts[from := debited][to := credited], [from])
         == accounts[from := debited.(nonce := debited.nonce + 1)][to := credited]
  {
    SingleSigner(accounts[from := debited][to := credited], from);
  }

  /** One signer moves one nonce. */
  lemma SingleSigner(accounts: Accounts, id: AccountId)
    requires id in accounts && accounts[id].nonce < U128_MAX
    ensures NoncesCanAdvance(accounts, [id])
    ensures IncrementNonces(accounts, [id]) == accounts[id := accounts[id].(nonce := accounts[id].nonce + 1)]
  {
    var after := IncrementNonces(accounts, [id]);
    forall x | x in after ensures after[x] == accounts[id := accounts[id].(nonce := accounts[id].nonce + 1)][x] {
      IncrementReads(accounts, [id], x);
    }
    assert after.Keys == accounts.Keys;
  }

  lemma TransferIsDirect(env: Env, s: State, from: AccountId, to: AccountId, nonce: u128, amount: u128,
                         block: u64, timestamp: u64)
    ensures var tx := Tx.Transfer(from, to, nonce, amount);
      ExecuteInPlace(env, s, tx, block, timestamp)
      == if Accepts(env, s, tx, block, timestamp) then Some(Execute(env, s, tx, block, timestamp)) else None
  {
    TransferChecks(env, s.accounts, from, to, nonce, amount);
    if ValidateTransfer(env, s.accounts, from, to, nonce, amount).Valid? {
      TransferWrites(env, s.accounts, from, to, nonce, amount);
      assert s.commitments + [] == s.commitments && s.spent + {} == s.spent;
    }
  }

  /** The running check finds exactly the repetitions that the check of the whole message finds. */
  lemma {:induction false} PrivateIsDirect(roots: set<Root>, notes: Notes, actions: seq<PrivateAction>)
    ensures PrivateInPlace(roots, notes, actions).Some?
      <==>
      && UniqueActions(actions)
      && (forall a :: a in actions ==> a.nullifier !in notes.spent && a.commitment !in notes.leaves && a.root in roots)
    ensures PrivateInPlace(roots, notes, actions).Some? ==>
      PrivateInPlace(roots, notes, actions).value.leaves == notes.leaves + LeavesOf(actions)
      && PrivateInPlace(roots, notes, actions).value.spent == notes.spent + SpentIn(actions)
    decreases |actions|
  {
    if actions == [] {
    } else {
      var a, rest := actions[0], actions[1..];
      var next := Notes(notes.leaves + [a.commitment], notes.spent + {a.nullifier});
      PrivateIsDirect(roots, next, rest);
      UniqueCons(a, rest);
      assert actions == [a] + rest;
      assert forall x :: x in actions <==> x == a || x in rest;
    }
  }

  function LeavesOf(actions: seq<PrivateAction>): seq<Commitment> {
    if actions == [] then [] else [actions[0].commitment] + LeavesOf(actions[1..])
  }

  function SpentIn(actions: seq<PrivateAction>): set<Nullifier> {
    if actions == [] then {} else {actions[0].nullifier} + SpentIn(actions[1..])
  }

  lemma UniqueCons(a: PrivateAction, rest: seq<PrivateAction>)
    ensures UniqueActions([a] + rest) <==> UniqueActions(rest) && forall b :: b in rest ==> !Collides(a, b)
  {
    var all := [a] + rest;
    if UniqueActions(all) {
      forall i, j | 0 <= i < j < |rest| ensures !Collides(rest[i], rest[j]) {
        assert all[i + 1] == rest[i] && all[j + 1] == rest[j];
      }
      forall b | b in rest ensures !Collides(a, b) {
        var i :| 0 <= i < |rest| && rest[i] == b;
        assert all[0] == a && all[i + 1] == b;
      }
    }
  }

  lemma {:induction false} LeavesAreCommitments(m: Message, n: nat)
    requires n <= |m.privateActions|
    ensures LeavesOf(m.privateActions[n..]) == Commitments(m)[n..]
    ensures SpentIn(m.privateActions[n..]) == set x | x in Nullifiers(m)[n..]
    decreases |m.privateActions| - n
  {
    var tail := m.privateActions[n..];
    if n < |m.privateActions| {
      LeavesAreCommitments(m, n + 1);
      assert tail[1..] == m.privateActions[n + 1..];
      assert Commitments(m)[n..] == [tail[0].commitment] + Commitments(m)[n + 1..];
      assert Nullifiers(m)[n..] == [tail[0].nullifier] + Nullifiers(m)[n + 1..];
    }
  }

  ghost predicate Admitted(env: Env, seen: set<AccountId>, actions: seq<PublicAction>) {
    forall x :: x in actions ==> x.accountId !in seen && x.accountId !in env.systemIds
  }

  /** What the checks of a whole message and its diff give: the settled accounts, if ids and effects pass. */
  ghost function PublicSettled(env: Env, accounts: Accounts, seen: set<AccountId>, actions: seq<PublicAction>)
    : Option<Accounts>
  {
    if DistinctIds(actions) && Admitted(env, seen, actions) && Settle(env, accounts, actions).Some?
    then Some(accounts + Settle(env, accounts, actions).value) else None
  }

  /** Folding into the running accounts is folding each action from the pre-state, for ids that do not repeat. */
  lemma {:induction false} PublicIsDirect(env: Env, accounts: Accounts, seen: set<AccountId>,
                                          actions: seq<PublicAction>)
    ensures PublicInPlace(env, accounts, seen, actions) == PublicSettled(env, accounts, seen, actions)
    decreases |actions|
  {
    if actions == [] {
      assert accounts + map[] == accounts;
    } else {
      var id := actions[0].accountId;
      match FoldEffects(env, Get(accounts, id), actions[0].effects)
      case None =>
      case Some(account) =>
        if id in seen || id in env.systemIds {
          assert actions[0] in actions;
        } else {
          PublicIsDirect(env, accounts[id := account], seen + {id}, actions[1..]);
          SettledCons(env, accounts, seen, actions, account);
        }
    }
  }

  lemma SettledCons(env: Env, accounts: Accounts, seen: set<AccountId>, actions: seq<PublicAction>, account: Account)
    requires actions != [] && actions[0].accountId !in seen && actions[0].accountId !in env.systemIds
    requires FoldEffects(env, Get(accounts, actions[0].accountId), actions[0].effects) == Some(account)
    ensures PublicSettled(env, accounts, seen, actions)
         == PublicSettled(env, accounts[actions[0].accountId := account], seen + {actions[0].accountId}, actions[1..])
  {
    var id, rest := actions[0].accountId, actions[1..];
    DistinctIdsCons(actions);
    AdmittedCons(env, seen, actions);
    if forall x :: x in rest ==> x.accountId != id {
      RestIsUnmoved(env, accounts, id, account, rest);
    }
  }

  /** Writing one account first does not change how the others settle. */
  lemma RestIsUnmoved(env: Env, accounts: Accounts, id: AccountId, account: Account, rest: seq<PublicAction>)
    requires forall x :: x in rest ==> x.accountId != id
    ensures var settled := Settle(env, accounts, rest);
      && Settle(env, accounts[id := account], rest) == settled
      && (settled.Some? ==> accounts[id := account] + settled.value == accounts + settled.value[id := account])
  {
    SettleFrame(env, accounts[id := account], accounts, rest);
    var settled := Settle(env, accounts, rest);
    if settled.Some? {
      assert id !in settled.value;
      assert accounts[id := account] + settled.value == accounts + settled.value[id := account];
    }
  }

  lemma AdmittedCons(env: Env, seen: set<AccountId>, actions: seq<PublicAction>)
    requires actions != [] && Admitted(env, seen, actions[..1])
    ensures Admitted(env, seen + {actions[0].accountId}, actions[1..])
      <==> Admitted(env, seen, actions) && forall x :: x in actions[1..] ==> x.accountId != actions[0].accountId
  {
    assert actions[0] in actions[..1];
    assert forall x :: x in actions <==> x == actions[0] || x in actions[1..];
  }

  lemma DistinctIdsCons(actions: seq<PublicAction>)
    requires actions != []
    ensures DistinctIds(actions)
      <==> DistinctIds(actions[1..]) && forall x :: x in actions[1..] ==> x.accountId != actions[0].accountId
  {
    var rest := actions[1..];
    if DistinctIds(actions) {
      forall x | x in rest ensures x.accountId != actions[0].accountId {
        var i :| 0 <= i < |rest| && rest[i] == x;
        assert actions[i + 1] == x;
      }
    } else {
      var i, j :| 0 <= i < j < |actions| && actions[i].accountId == actions[j].accountId;
      assert actions[j] == rest[j - 1];
      assert i > 0 ==> actions[i] == rest[i - 1];
    }
  }

  /** The nonce that `signers` leave to `id`. */
  function Signed(accounts: Accounts, signers: seq<AccountId>, id: AccountId): nat {
    Get(accounts, id).nonce + multiset(signers)[id]
  }

  /** Signing one at a time is incrementing by multiplicity, and stops exactly where that would overflow. */
  lemma {:induction false} SigningIsDirect(before: Accounts, accounts: Accounts, signers: seq<AccountId>,
                                           nonces: seq<u128>)
    ensures SignInPlace(before, accounts, signers, nonces).Some?
      <==> NoncesMatch(before, nonces, signers) && NoncesCanAdvance(accounts, signers)
    ensures NoncesMatch(before, nonces, signers) && NoncesCanAdvance(accounts, signers) ==>
      SignInPlace(before, accounts, signers, nonces) == Some(IncrementNonces(accounts, signers))
    decreases |signers|
  {
    if signers == [] {
      assert IncrementNonces(accounts, signers) == accounts;
    } else if nonces != [] {
      var account := Get(accounts, signers[0]);
      NoncesMatchCons(before, nonces, signers);
      if account.nonce < U128_MAX {
        var running := accounts[signers[0] := account.(nonce := account.nonce + 1)];
        SigningIsDirect(before, running, signers[1..], nonces[1..]);
        AdvanceCons(accounts, running, signers);
      } else {
        assert multiset(signers)[signers[0]] >= 1;
      }
    }
  }

  lemma NoncesMatchCons(before: Accounts, nonces: seq<u128>, signers: seq<AccountId>)
    requires signers != [] && nonces != []
    ensures NoncesMatch(before, nonces, signers)
      <==> nonces[0] == Get(before, signers[0]).nonce && NoncesMatch(before, nonces[1..], signers[1..])
  {
    if nonces[0] == Get(before, signers[0]).nonce && NoncesMatch(before, nonces[1..], signers[1..]) {
      forall i | 0 <= i < |signers| ensures nonces[i] == Get(before, signers[i]).nonce {
        assert i > 0 ==> nonces[1..][i - 1] == Get(before, signers[1..][i - 1]).nonce;
      }
    }
  }

  lemma SignedCons(accounts: Accounts, running: Accounts, signers: seq<AccountId>, x: AccountId)
    requires signers != [] && Get(accounts, signers[0]).nonce < U128_MAX
    requires running == accounts[signers[0] := Get(accounts, signers[0]).(nonce := Get(accounts, signers[0]).nonce + 1)]
    ensures Signed(running, signers[1..], x) == Signed(accounts, signers, x)
  {
    assert signers == [signers[0]] + signers[1..];
  }

  lemma AdvanceIffSigned(accounts: Accounts, signers: seq<AccountId>)
    ensures NoncesCanAdvance(accounts, signers) <==> forall x :: Signed(accounts, signers, x) <= U128_MAX
  {
    if NoncesCanAdvance(accounts, signers) {
      forall x ensures Signed(accounts, signers, x) <= U128_MAX {
        assert x !in signers ==> multiset(signers)[x] == 0;
      }
    } else {
      var x :| x in signers && Get(accounts, x).nonce + multiset(signers)[x] > U128_MAX;
      assert Signed(accounts, signers, x) > U128_MAX;
    }
  }

  lemma IncrementReads(accounts: Accounts, signers: seq<AccountId>, x: AccountId)
    requires NoncesCanAdvance(accounts, signers) && x in IncrementNonces(accounts, signers)
    ensures IncrementNonces(accounts, signers)[x] == Get(accounts, x).(nonce := Signed(accounts, signers, x))
  {
    assert x !in signers ==> multiset(signers)[x] == 0;
  }

  lemma AdvanceCons(accounts: Accounts, running: Accounts, signers: seq<AccountId>)
    requires signers != [] && Get(accounts, signers[0]).nonce < U128_MAX
    requires running == accounts[signers[0] := Get(accounts, signers[0]).(nonce := Get(accounts, signers[0]).nonce + 1)]
    ensures NoncesCanAdvance(running, signers[1..]) <==> NoncesCanAdvance(accounts, signers)
    ensures NoncesCanAdvance(accounts, signers) ==>
      IncrementNonces(running, signers[1..]) == IncrementNonces(accounts, signers)
  {
    var rest := signers[1..];
    forall x ensures Signed(running, rest, x) == Signed(accounts, signers, x) {
      SignedCons(accounts, running, signers, x);
    }
    AdvanceIffSigned(running, rest);
    AdvanceIffSigned(accounts, signers);
    if NoncesCanAdvance(accounts, signers) {
      IncrementCons(accounts, running, signers);
    }
  }

  lemma IncrementKeys(accounts: Accounts, running: Accounts, signers: seq<AccountId>)
    requires signers != [] && running.Keys == accounts.Keys + {signers[0]}
    requires NoncesCanAdvance(running, signers[1..]) && NoncesCanAdvance(accounts, signers)
    ensures IncrementNonces(running, signers[1..]).Keys == IncrementNonces(accounts, signers).Keys
  {
    assert signers == [signers[0]] + signers[1..];
  }

  lemma IncrementCons(accounts: Accounts, running: Accounts, signers: seq<AccountId>)
    requires signers != [] && Get(accounts, signers[0]).nonce < U128_MAX
    requires running == accounts[signers[0] := Get(accounts, signers[0]).(nonce := Get(accounts, signers[0]).nonce + 1)]
    requires NoncesCanAdvance(running, signers[1..]) && NoncesCanAdvance(accounts, signers)
    ensures IncrementNonces(running, signers[1..]) == IncrementNonces(accounts, signers)
  {
    var left, right := IncrementNonces(running, signers[1..]), IncrementNonces(accounts, signers);
    IncrementKeys(accounts, running, signers);
    forall x | x in left ensures left[x] == right[x] {
      SignedCons(accounts, running, signers, x);
      IncrementReads(running, signers[1..], x);
      IncrementReads(accounts, signers, x);
    }
  }

  lemma {:induction false} ReanchorIsDirect(claims: seq<Claim>, programs: map<AccountId, ImageId>)
    ensures Reanchor(claims, programs).Some? <==> forall c :: c in claims && c.Disclosed? ==> c.accountId in programs
    ensures Reanchor(claims, programs).Some? ==> Reanchor(claims, programs).value == AnchorAll(claims, programs)
  {
    if claims != [] {
      ReanchorIsDirect(claims[1..], programs);
      assert forall c :: c in claims <==> c == claims[0] || c in claims[1..];
      assert AnchorAll(claims, programs) == [Anchor(claims[0], programs)] + AnchorAll(claims[1..], programs);
    }
  }

  // ---------- The whole step ----------

  lemma NotesAreDirect(s: State, m: Message)
    ensures var notes := PrivateInPlace(s.rootHistory, Notes(s.commitments, s.spent), m.privateActions);
      && (notes.Some? <==>
            Distinct(Nullifiers(m)) && Distinct(Commitments(m)) && CommitmentsNew(s, m) && NullifiersValid(s, m))
      && (notes.Some? ==>
            notes.value == Notes(s.commitments + Commitments(m), s.spent + set n | n in Nullifiers(m)))
  {
    PrivateIsDirect(s.rootHistory, Notes(s.commitments, s.spent), m.privateActions);
    UniqueActionsAreUnique(m);
    LeavesAreCommitments(m, 0);
    assert m.privateActions[0..] == m.privateActions;
    assert Commitments(m)[0..] == Commitments(m) && Nullifiers(m)[0..] == Nullifiers(m);
  }

  lemma IdsAreDirect(env: Env, m: Message)
    ensures DistinctIds(m.publicActions) && Admitted(env, {}, m.publicActions)
      <==> Distinct(PublicIds(m)) && forall id :: id in PublicIds(m) ==> id !in env.systemIds
  {
    var ids := PublicIds(m);
    if Distinct(ids) && forall id :: id in ids ==> id !in env.systemIds {
      forall i, j | 0 <= i < j < |m.publicActions|
        ensures m.publicActions[i].accountId != m.publicActions[j].accountId
      {
        assert ids[i] != ids[j];
      }
      forall x | x in m.publicActions ensures x.accountId !in env.systemIds {
        var i :| 0 <= i < |m.publicActions| && m.publicActions[i] == x;
        assert ids[i] in ids;
      }
    }
  }

  /** What the signing pass sees: settlement has not moved the nonces. */
  lemma SettledCanAdvance(env: Env, s: State, m: Message, signers: seq<AccountId>)
    requires Settle(env, s.accounts, m.publicActions).Some?
    ensures NoncesCanAdvance(s.accounts + Settle(env, s.accounts, m.publicActions).value, signers)
      <==> NoncesCanAdvance(s.accounts, signers)
  {
    SettleKeepsNonces(env, s.accounts, m.publicActions);
    var settled := s.accounts + Settle(env, s.accounts, m.publicActions).value;
    assert forall id :: Get(settled, id).nonce == Get(s.accounts, id).nonce;
  }

  lemma AccountsAreDirect(env: Env, s: State, m: Message, signers: seq<AccountId>)
    ensures var settled := Settle(env, s.accounts, m.publicActions);
      && (AccountsInPlace(env, s, m, signers).Some?
          <==>
          && Distinct(PublicIds(m)) && (forall id :: id in PublicIds(m) ==> id !in env.systemIds)
          && settled.Some? && NoncesMatch(s.accounts, m.nonces, signers) && NoncesCanAdvance(s.accounts, signers))
      && (AccountsInPlace(env, s, m, signers).Some? ==>
            && NoncesCanAdvance(s.accounts + settled.value, signers)
            && AccountsInPlace(env, s, m, signers).value == IncrementNonces(s.accounts + settled.value, signers))
  {
    PublicIsDirect(env, s.accounts, {}, m.publicActions);
    IdsAreDirect(env, m);
    if Settle(env, s.accounts, m.publicActions).Some? {
      var settled := s.accounts + Settle(env, s.accounts, m.publicActions).value;
      SettledCanAdvance(env, s, m, signers);
      SigningIsDirect(s.accounts, settled, signers, m.nonces);
    }
  }

  lemma ShieldedIsDirect(env: Env, s: State, m: Message, signers: seq<AccountId>, proof: Proof, block: u64,
                         timestamp: u64)
    ensures ShieldedInPlace(env, s, m, signers, proof, block, timestamp)
         == match ValidatePrivate(env, s, m, signers, proof, block, timestamp)
            case Valid(diff) => if Applicable(s, diff) then Some(ApplyDiff(env, s, diff)) else None
            case Invalid(_) => None
  {
    AccountsAreDirect(env, s, m, signers);
    NotesAreDirect(s, m);
    ReanchorIsDirect(m.claims, s.programs);
  }

  /**
   * The two paths are one machine: for every state, transaction and clock the direct step accepts
   * exactly what validation accepts, and leaves exactly the state that applying the diff leaves.
   */
  lemma DirectIsSplit(env: Env, s: State, tx: Tx, block: u64, timestamp: u64)
    ensures ExecuteInPlace(env, s, tx, block, timestamp)
         == if Accepts(env, s, tx, block, timestamp) then Some(Execute(env, s, tx, block, timestamp)) else None
  {
    match tx
    case Transfer(from, to, nonce, amount) => TransferIsDirect(env, s, from, to, nonce, amount, block, timestamp);
    case Private(m, signers, proof) =>
      ShieldedIsDirect(env, s, m, signers, proof, block, timestamp);
      if Accepts(env, s, tx, block, timestamp) {
        ValidIsApplicable(env, s, tx, block, timestamp);
      }
  }
}
