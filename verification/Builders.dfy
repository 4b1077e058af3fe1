/** What the generated privacy-preserving transactions guarantee about their validation. */
module Builders {
  import opened Wrappers
  import opened Integers
  import opened Identity
  import opened Protocol
  import opened Runs
  import opened Ordering
  import opened Privacy
  import opened Effects

  lemma UniqueActionsAreUnique(m: Message)
    ensures UniqueActions(m.privateActions) <==> Distinct(Nullifiers(m)) && Distinct(Commitments(m))
  {
    if Distinct(Nullifiers(m)) && Distinct(Commitments(m)) {
      forall i, j | 0 <= i < j < |m.privateActions| ensures !Collides(m.privateActions[i], m.privateActions[j]) {
        assert Nullifiers(m)[i] != Nullifiers(m)[j] && Commitments(m)[i] != Commitments(m)[j];
      }
    }
    if UniqueActions(m.privateActions) {
      forall i, j | 0 <= i < j < |m.privateActions|
        ensures Nullifiers(m)[i] != Nullifiers(m)[j] && Commitments(m)[i] != Commitments(m)[j]
      {
        assert !Collides(m.privateActions[i], m.privateActions[j]);
      }
    }
  }

  /** The shape of every generated message, for all draws. */
  lemma GeneratedShape(env: Env, idOf: PrivateKey -> AccountId, state: State,
                       accounts: seq<FuzzAccount>, d: PrivacyDraws, tx: Tx)
    requires Generated(env, idOf, state, accounts, d, tx)
    ensures |tx.signers| <= 3 && |tx.signers| <= |accounts| && Distinct(tx.signers)
    ensures forall id :: id in tx.signers ==> exists a :: a in accounts && idOf(a.privateKey) == id
    ensures NoncesMatch(state.accounts, tx.message.nonces, tx.signers)
    ensures |tx.message.publicActions| <= 6
    ensures 1 <= |tx.message.privateActions| <= 3
    ensures EntriesUnique(tx.message)
  {
    UniqueActionsAreUnique(tx.message);
    var n := SignerCount(accounts, d);
    assert n <= 3 && n <= |accounts|;
    forall id | id in tx.signers ensures exists a :: a in accounts && idOf(a.privateKey) == id {
      var i :| 0 <= i < n && SignerDraws(idOf, accounts, d, n)[i] == id;
      assert accounts[d.signerIndex(i) % |accounts|] in accounts;
    }
    assert |PublicIds(tx.message)| == |tx.message.publicActions|;
  }

  /**
   * Checks 1, 2 and 3c pass by construction, and check 4 unless the proof was drawn as garbage: a
   * generated transaction can only be turned down for the reasons the generator means to explore.
   */
  lemma GeneratedRejections(env: Env, idOf: PrivateKey -> AccountId, state: State, accounts: seq<FuzzAccount>,
                            d: PrivacyDraws, tx: Tx, block: u64, timestamp: u64)
    requires Generated(env, idOf, state, accounts, d, tx)
    requires !Accepts(env, state, tx, block, timestamp)
    ensures var reason := Validate(env, state, tx, block, timestamp).reject;
      && reason in {SystemAccount, OutOfValidityWindow, InvalidProof, CommitmentAlreadySeen, NullifierInvalid,
                    NonceOverflow, EffectRejected}
      && (reason == InvalidProof ==> d.proofSelector % 8 == 0)
  {
    GeneratedShape(env, idOf, state, accounts, d, tx);
    RemainingReasons(env, state, tx, block, timestamp);
  }

  lemma RemainingReasons(env: Env, s: State, tx: Tx, block: u64, timestamp: u64)
    requires tx.Private? && tx.message.privateActions != [] && EntriesUnique(tx.message)
    requires NoncesMatch(s.accounts, tx.message.nonces, tx.signers) && tx.message.claims == []
    requires !Accepts(env, s, tx, block, timestamp)
    ensures var reason := Validate(env, s, tx, block, timestamp).reject;
      && reason in {SystemAccount, OutOfValidityWindow, InvalidProof, CommitmentAlreadySeen, NullifierInvalid,
                    NonceOverflow, EffectRejected}
      && (reason == InvalidProof ==> tx.proof != SynthesizePassingProof(tx.message, s.programs, tx.signers))
  {}

  /** Debits and credits must stay in range at every prefix; with another program involved, settlement decides. */
  ghost predicate EffectsPass(env: Env, account: Account, effects: seq<Effect>) {
    if NativeOnly(env, effects) then StaysInRange(account.balance, effects)
    else FoldEffects(env, account, effects).Some?
  }

  /** What the generator leaves to chance about the acceptance of a well-shaped message. */
  ghost predicate ChoicesPass(env: Env, s: State, m: Message, signers: seq<AccountId>, block: u64, timestamp: u64) {
    && m.blockWindow.Contains(block) && m.timestampWindow.Contains(timestamp)
    && (forall id :: id in PublicIds(m) ==> id !in env.systemIds)
    && ActionsAdmissible(s, m.privateActions)
    && (forall id :: id in signers ==> Get(s.accounts, id).nonce < U128_MAX)
    && (forall x :: x in m.publicActions ==> EffectsPass(env, Get(s.accounts, x.accountId), x.effects))
  }

  lemma SettlesIffAllPass(env: Env, accounts: Accounts, actions: seq<PublicAction>)
    ensures Settle(env, accounts, actions).Some?
      <==> forall x :: x in actions ==> EffectsPass(env, Get(accounts, x.accountId), x.effects)
  {
    SettlesIffAllFold(env, accounts, actions);
    forall x | x in actions && NativeOnly(env, x.effects)
      ensures FoldEffects(env, Get(accounts, x.accountId), x.effects).Some?
        <==> StaysInRange(Get(accounts, x.accountId).balance, x.effects)
    {
      SettlementIsExact(env, Get(accounts, x.accountId), x.effects);
    }
  }

  lemma ShapedAcceptance(env: Env, s: State, m: Message, signers: seq<AccountId>, proof: Proof, block: u64,
                         timestamp: u64)
    requires m.claims == [] && m.privateActions != [] && EntriesUnique(m)
    requires Distinct(signers) && NoncesMatch(s.accounts, m.nonces, signers)
    ensures Accepts(env, s, Private(m, signers, proof), block, timestamp)
      <==> proof == SynthesizePassingProof(m, s.programs, signers) && ChoicesPass(env, s, m, signers, block, timestamp)
  {
    UniqueActionsAreUnique(m);
    SettlesIffAllPass(env, s.accounts, m.publicActions);
    assert ProgramsKnown(m, s.programs);
    forall id | id in signers ensures multiset(signers)[id] == 1 {
      DistinctOnce(signers, id);
    }
  }

  predicate NativeDraws(d: EffectsDraw) {
    forall k: nat :: k < d.count % 3 ==> d.effect(k).selector % 4 != 0
  }

  function DrawnNatives(d: EffectsDraw): (r: seq<NativeEffect>)
    ensures |r| == d.count % 3
    ensures forall k :: 0 <= k < |r| ==>
      r[k] == if d.effect(k).debit then Debit(d.effect(k).amount) else Credit(d.effect(k).amount)
  {
    seq(d.count % 3, k requires 0 <= k =>
      if d.effect(k).debit then Debit(d.effect(k).amount) else Credit(d.effect(k).amount))
  }

  /** On draws without another program, what passes is decided by the drawn debits and credits alone. */
  lemma DrawnEffectsPass(env: Env, account: Account, d: EffectsDraw)
    requires NativeDraws(d)
    ensures EffectsPass(env, account, ArbPublicEffects(env.nativeProgram, d))
      <==> PrefixesInRange(account.balance, DrawnNatives(d))
  {
    var effects := ArbPublicEffects(env.nativeProgram, d);
    forall e | e in effects ensures IsNative(env, e) && e.payload.Decodes? {
      var k :| 0 <= k < |effects| && effects[k] == e;
    }
    assert Payloads(effects) == DrawnNatives(d);
  }

  /**
   * Exactly which generated transactions are accepted: the proof is the synthesised one, the clock is
   * inside both windows, no public id is a system account, the actions are fresh and rooted, the
   * signers have nonces left and the effects of every public id pass, which for native draws means
   * that no prefix of the drawn debits and credits leaves the range of a balance.
   */
  lemma GeneratedAcceptance(env: Env, idOf: PrivateKey -> AccountId, state: State, accounts: seq<FuzzAccount>,
                            d: PrivacyDraws, tx: Tx, block: u64, timestamp: u64)
    requires Generated(env, idOf, state, accounts, d, tx)
    ensures Accepts(env, state, tx, block, timestamp)
      <==>
      && (d.proofSelector % 8 == 0 ==> d.garbage == SynthesizePassingProof(tx.message, state.programs, tx.signers))
      && ChoicesPass(env, state, tx.message, tx.signers, block, timestamp)
    ensures forall i :: 0 <= i < |tx.message.publicActions| && NativeDraws(d.effects(i)) ==>
      var account := Get(state.accounts, tx.message.publicActions[i].accountId);
      EffectsPass(env, account, tx.message.publicActions[i].effects)
      <==> PrefixesInRange(account.balance, DrawnNatives(d.effects(i)))
  {
    GeneratedShape(env, idOf, state, accounts, d, tx);
    ShapedAcceptance(env, state, tx.message, tx.signers, tx.proof, block, timestamp);
    forall i | 0 <= i < |tx.message.publicActions| && NativeDraws(d.effects(i))
      ensures var account := Get(state.accounts, tx.message.publicActions[i].accountId);
        EffectsPass(env, account, tx.message.publicActions[i].effects)
        <==> PrefixesInRange(account.balance, DrawnNatives(d.effects(i)))
    {
      DrawnEffectsPass(env, Get(state.accounts, tx.message.publicActions[i].accountId), d.effects(i));
    }
  }

  /** The journal of the message as it stands, its disclosed images not re-read from the chain. */
  function JournalAsStated(m: Message, signers: seq<AccountId>): Journal {
    Journal(Authorize(m.publicActions, signers), m.privateActions, m.blockWindow, m.timestampWindow, m.claims)
  }

  /**
   * What re-anchoring is for: of an acceptable message, a proof bound to the images that the message
   * itself discloses passes exactly when each of them is the image on chain.
   */
  lemma StatedImagesMustBeLive(env: Env, s: State, m: Message, signers: seq<AccountId>, block: u64, timestamp: u64)
    requires Accepts(env, s, Private(m, signers, SynthesizePassingProof(m, s.programs, signers)), block, timestamp)
    ensures Accepts(env, s, Private(m, signers, BoundTo(JournalAsStated(m, signers))), block, timestamp)
      <==>
      forall c :: c in m.claims && c.Disclosed? ==> c.accountId in s.programs && s.programs[c.accountId] == c.imageId
  {
    assert ProgramsKnown(m, s.programs);
    var anchored := AnchorAll(m.claims, s.programs);
    if anchored == m.claims {
      forall c | c in m.claims && c.Disclosed? ensures s.programs[c.accountId] == c.imageId {
        var i :| 0 <= i < |m.claims| && m.claims[i] == c;
        assert anchored[i] == c;
      }
    } else {
      assert exists i :: 0 <= i < |m.claims| && anchored[i] != m.claims[i];
    }
  }

  /** A reported reason is a reason: the check it names does fail. */
  lemma ShieldedReasonIsHonest(env: Env, s: State, m: Message, signers: seq<AccountId>, proof: Proof, block: u64,
                               timestamp: u64)
    requires !Accepts(env, s, Private(m, signers, proof), block, timestamp)
    ensures match ValidatePrivate(env, s, m, signers, proof, block, timestamp).reject
      case NoPrivateActions => |m.privateActions| == 0
      case DuplicateEntries => !EntriesUnique(m)
      case SystemAccount => exists id :: id in PublicIds(m) && id in env.systemIds
      case NonceMismatch => !NoncesMatch(s.accounts, m.nonces, signers)
      case OutOfValidityWindow => !m.blockWindow.Contains(block) || !m.timestampWindow.Contains(timestamp)
      case UnknownProgram => !ProgramsKnown(m, s.programs)
      case InvalidProof => proof != SynthesizePassingProof(m, s.programs, signers)
      case CommitmentAlreadySeen => !CommitmentsNew(s, m)
      case NullifierInvalid => !NullifiersValid(s, m)
      case NonceOverflow => !NoncesCanAdvance(s.accounts, signers)
      case EffectRejected =>
        exists x :: x in m.publicActions && FoldEffects(env, Get(s.accounts, x.accountId), x.effects).None?
      case _ => false
  {
    SettlesIffAllFold(env, s.accounts, m.publicActions);
  }

  lemma TransferReasonIsHonest(env: Env, accounts: Accounts, from: AccountId, to: AccountId, nonce: u128, amount: u128)
    requires ValidateTransfer(env, accounts, from, to, nonce, amount).Invalid?
    ensures match ValidateTransfer(env, accounts, from, to, nonce, amount).reject
      case SystemAccount => from in env.systemIds || to in env.systemIds
      case SelfTransfer => from == to
      case NonceMismatch => nonce != Get(accounts, from).nonce
      case InsufficientBalance => amount > Get(accounts, from).balance
      case RecipientOverflow => Get(accounts, to).balance + amount > U128_MAX
      case NonceOverflow => Get(accounts, from).nonce == U128_MAX
      case _ => false
  {}

  /** The image that a disclosed claim is bound to: the one on chain, or its own if the program is unknown. */
  function BoundImage(c: Claim, programs: map<AccountId, ImageId>): ImageId
    requires c.Disclosed?
  {
    if c.accountId in programs then programs[c.accountId] else c.imageId
  }

  /**
   * When a proof outlives the programs it was synthesised against: for any two program maps at all,
   * however they came to differ, exactly when every disclosed program has the same image in both.
   * Without disclosed claims check 4 is settled once and for all.
   */
  lemma ProofSurvivesIffImagesDo(m: Message, signers: seq<AccountId>, before: map<AccountId, ImageId>,
                                 after: map<AccountId, ImageId>)
    ensures SynthesizePassingProof(m, before, signers) == BoundTo(JournalFor(m, after, signers))
      <==> forall c :: c in m.claims && c.Disclosed? ==> BoundImage(c, before) == BoundImage(c, after)
    ensures (forall c :: c in m.claims ==> c.Undisclosed?) ==>
      SynthesizePassingProof(m, before, signers) == BoundTo(JournalFor(m, after, signers))
  {
    ProofTransfers(m, before, signers, m, after, signers);
    if forall i :: 0 <= i < |m.claims| ==> Anchor(m.claims[i], before) == Anchor(m.claims[i], after) {
      forall c | c in m.claims && c.Disclosed? ensures BoundImage(c, before) == BoundImage(c, after) {
        var i :| 0 <= i < |m.claims| && m.claims[i] == c;
        assert Anchor(m.claims[i], before) == Anchor(m.claims[i], after);
      }
    }
  }

  // ---------- The pure-private pair ----------

  /** One signer, no public actions, unbounded windows, no claims. */
  function BuildPurePrivateTx(s: State, signer: AccountId, actions: seq<PrivateAction>): Tx {
    var m := Message([], [Get(s.accounts, signer).nonce], actions, UNBOUNDED, UNBOUNDED, []);
    Private(m, [signer], SynthesizePassingProof(m, s.programs, [signer]))
  }

  /** What is left to decide the fate of a pure-private transaction: its private actions only. */
  ghost predicate ActionsAdmissible(s: State, actions: seq<PrivateAction>) {
    && actions != []
    && UniqueActions(actions)
    && (forall a :: a in actions ==>
          a.commitment !in s.commitments && a.nullifier !in s.spent && a.root in s.rootHistory)
  }

  lemma PurePrivateAcceptance(env: Env, s: State, signer: AccountId, actions: seq<PrivateAction>, block: u64,
                              timestamp: u64)
    ensures Accepts(env, s, BuildPurePrivateTx(s, signer, actions), block, timestamp)
      <==> ActionsAdmissible(s, actions) && Get(s.accounts, signer).nonce < U128_MAX
  {
    var tx := BuildPurePrivateTx(s, signer, actions);
    UniqueActionsAreUnique(tx.message);
    assert multiset([signer])[signer] == 1;
    assert Distinct(PublicIds(tx.message));
  }

  lemma PurePrivateIndependent(s: State, b: AccountId, c: AccountId, actionsB: seq<PrivateAction>,
                               actionsC: seq<PrivateAction>)
    requires b != c
    requires forall x, y :: x in actionsB && y in actionsC ==> !Collides(x, y)
    ensures Independent(BuildPurePrivateTx(s, b, actionsB), BuildPurePrivateTx(s, c, actionsC))
  {
    var tb, tc := BuildPurePrivateTx(s, b, actionsB), BuildPurePrivateTx(s, c, actionsC);
    forall i, j | 0 <= i < |actionsB| && 0 <= j < |actionsC|
      ensures actionsB[i].nullifier != actionsC[j].nullifier && actionsB[i].commitment != actionsC[j].commitment
    {
      assert !Collides(actionsB[i], actionsC[j]);
    }
    forall n | n in NullifiersOf(tb) ensures n !in NullifiersOf(tc) {
      var i :| 0 <= i < |actionsB| && actionsB[i].nullifier == n;
    }
    forall x | x in CommitmentsOf(tb) ensures x !in CommitmentsOf(tc) {
      var i :| 0 <= i < |actionsB| && actionsB[i].commitment == x;
    }
  }

  /**
   * Two pure-private transactions of different signers with nothing in common are both accepted in
   * either order, and the two final states differ only in leaf order and root history.
   */
  lemma PurePrivateCommute(env: Env, s: State, b: AccountId, c: AccountId, actionsB: seq<PrivateAction>,
                           actionsC: seq<PrivateAction>, block: u64, timestamp: u64)
    requires b != c
    requires forall x, y :: x in actionsB && y in actionsC ==> !Collides(x, y)
    requires ActionsAdmissible(s, actionsB) && ActionsAdmissible(s, actionsC)
    requires Get(s.accounts, b).nonce < U128_MAX && Get(s.accounts, c).nonce < U128_MAX
    ensures var tb, tc := BuildPurePrivateTx(s, b, actionsB), BuildPurePrivateTx(s, c, actionsC);
      && Accepted(env, s, Block([tb, tc], block, timestamp)) == [tb, tc]
      && Accepted(env, s, Block([tc, tb], block, timestamp)) == [tc, tb]
      && ObservablyEqual(Run(env, s, Block([tb, tc], block, timestamp)), Run(env, s, Block([tc, tb], block, timestamp)))
  {
    var tb, tc := BuildPurePrivateTx(s, b, actionsB), BuildPurePrivateTx(s, c, actionsC);
    PurePrivateAcceptance(env, s, b, actionsB, block, timestamp);
    PurePrivateAcceptance(env, s, c, actionsC, block, timestamp);
    PurePrivateIndependent(s, b, c, actionsB, actionsC);
    assert tb.signers[0] != tc.signers[0];
    assert multiset([tb, tc]) == multiset([tc, tb]);
    IndependentCommute(env, s, [tb, tc], [tc, tb], block, timestamp);
  }

  // ---------- The conflicting pair ----------

  datatype PairDraws = PairDraws(i: u8, j: u8, nullifier: Nullifier, commitmentB: Commitment, commitmentC: Commitment,
                                 ciphertextB: nat, ciphertextC: nat)

  /** Two different indices into a list of at least two accounts, whatever the draws. */
  function PairIndices(i: u8, j: u8, len: nat): (r: (nat, nat))
    requires len >= 2
    ensures r.0 < len && r.1 < len && r.0 != r.1
    ensures Mod(i, len) != Mod(j, len) ==> r == (Mod(i, len), Mod(j, len))
    ensures Mod(i, len) == Mod(j, len) ==> r.0 == Mod(i, len) && (r.1 == r.0 + 1 || (r.0 == len - 1 && r.1 == 0))
  {
    var first, second := Mod(i, len), Mod(j, len);
    if first == second then (first, Mod(first + 1, len)) else (first, second)
  }

  function ArbConflictingNullifierPair(env: Env, idOf: PrivateKey -> AccountId, s: State,
                                       accounts: seq<FuzzAccount>, d: PairDraws): Option<(Tx, Tx)>
  {
    if |accounts| < 2 then None
    else
      var (i, j) := PairIndices(d.i, d.j, |accounts|);
      var b, c := idOf(accounts[i].privateKey), idOf(accounts[j].privateKey);
      if b == c || d.commitmentB == d.commitmentC then None
      else
        Some((BuildPurePrivateTx(s, b, [PrivateAction(d.nullifier, LiveRoot(env, s), d.commitmentB, d.ciphertextB)]),
              BuildPurePrivateTx(s, c, [PrivateAction(d.nullifier, LiveRoot(env, s), d.commitmentC, d.ciphertextC)])))
  }

  /** Accounts whose ids are those of their keys, as `arbitrary_fuzz_state` produces them. */
  ghost predicate Keyed(idOf: PrivateKey -> AccountId, accounts: seq<FuzzAccount>) {
    forall a :: a in accounts ==> a.accountId == idOf(a.privateKey)
  }

  /**
   * On generated accounts the builder fails exactly when there is no room for two signers or the two
   * commitments coincide: the index repair leaves nothing to the distinctness guard.
   */
  lemma PairIsBuilt(env: Env, idOf: PrivateKey -> AccountId, s: State, accounts: seq<FuzzAccount>, d: PairDraws)
    requires Keyed(idOf, accounts) && Distinct(Ids(accounts))
    ensures ArbConflictingNullifierPair(env, idOf, s, accounts, d).Some?
      <==> |accounts| >= 2 && d.commitmentB != d.commitmentC
  {}

  /**
   * Who signs the two halves and what they carry: the first half is signed by the account that `d.i`
   * selects, the second by the one that `d.j` selects or, on a clash, by the next one; both spend the
   * drawn nullifier at the live root, each with its own drawn commitment, at the live nonce.
   */
  lemma PairIsDrawn(env: Env, idOf: PrivateKey -> AccountId, s: State, accounts: seq<FuzzAccount>, d: PairDraws,
                    i: nat, j: nat)
    requires |accounts| >= 2 && Remainder(d.i, |accounts|, i) && Remainder(d.j, |accounts|, j)
    requires ArbConflictingNullifierPair(env, idOf, s, accounts, d).Some?
    ensures var (b, c) := ArbConflictingNullifierPair(env, idOf, s, accounts, d).value;
      var other := if i != j then j else if i + 1 < |accounts| then i + 1 else 0;
      && b.Private? && c.Private?
      && b.signers == [idOf(accounts[i].privateKey)] && c.signers == [idOf(accounts[other].privateKey)]
      && b.message.privateActions
         == [PrivateAction(d.nullifier, env.rootOf(s.commitments), d.commitmentB, d.ciphertextB)]
      && c.message.privateActions
         == [PrivateAction(d.nullifier, env.rootOf(s.commitments), d.commitmentC, d.ciphertextC)]
      && b.message.nonces == [Get(s.accounts, b.signers[0]).nonce]
      && c.message.nonces == [Get(s.accounts, c.signers[0]).nonce]
      && b.message.publicActions == [] && c.message.publicActions == []
      && b.message.claims == [] && c.message.claims == []
      && b.message.blockWindow == b.message.timestampWindow == Window(None, None)
      && c.message.blockWindow == c.message.timestampWindow == Window(None, None)
  {
    RemainderIsMod(d.i, |accounts|);
    RemainderIsMod(d.j, |accounts|);
    RemainderIsUnique(d.i, |accounts|, i, Mod(d.i, |accounts|));
    RemainderIsUnique(d.j, |accounts|, j, Mod(d.j, |accounts|));
  }

  /**
   * In any state whose live root is known, each half of the pair is acceptable exactly when its own
   * commitment and the shared nullifier are fresh, and in both orders exactly one half is accepted
   * if either is acceptable: never both.
   */
  lemma PairOutcome(env: Env, idOf: PrivateKey -> AccountId, s: State, accounts: seq<FuzzAccount>, d: PairDraws,
                    block: u64, timestamp: u64)
    requires LiveRootKnown(env, s)
    requires ArbConflictingNullifierPair(env, idOf, s, accounts, d).Some?
    ensures var (b, c) := ArbConflictingNullifierPair(env, idOf, s, accounts, d).value;
      && b.signers != c.signers
      && (Accepts(env, s, b, block, timestamp) <==> PairHalfFresh(s, d.nullifier, d.commitmentB, b.signers[0]))
      && (Accepts(env, s, c, block, timestamp) <==> PairHalfFresh(s, d.nullifier, d.commitmentC, c.signers[0]))
      && |Accepted(env, s, Block([b, c], block, timestamp))| == |Accepted(env, s, Block([c, b], block, timestamp))|
      && |Accepted(env, s, Block([b, c], block, timestamp))| ==
           (if Accepts(env, s, b, block, timestamp) || Accepts(env, s, c, block, timestamp) then 1 else 0)
  {
    var (b, c) := ArbConflictingNullifierPair(env, idOf, s, accounts, d).value;
    var root := LiveRoot(env, s);
    PairHalf(env, s, b.signers[0], PrivateAction(d.nullifier, root, d.commitmentB, d.ciphertextB), block, timestamp);
    PairHalf(env, s, c.signers[0], PrivateAction(d.nullifier, root, d.commitmentC, d.ciphertextC), block, timestamp);
    PairConflicts(env, s, b, c, d.nullifier, block, timestamp);
  }

  lemma PairHalf(env: Env, s: State, signer: AccountId, action: PrivateAction, block: u64, timestamp: u64)
    requires action.root in s.rootHistory
    ensures var tx := BuildPurePrivateTx(s, signer, [action]);
      && (Accepts(env, s, tx, block, timestamp) <==> PairHalfFresh(s, action.nullifier, action.commitment, signer))
      && action.nullifier in NullifiersOf(tx)
  {
    PurePrivateAcceptance(env, s, signer, [action], block, timestamp);
    assert Nullifiers(BuildPurePrivateTx(s, signer, [action]).message)[0] == action.nullifier;
  }

  lemma PairConflicts(env: Env, s: State, b: Tx, c: Tx, n: Nullifier, block: u64, timestamp: u64)
    requires n in NullifiersOf(b) && n in NullifiersOf(c)
    ensures |Accepted(env, s, Block([b, c], block, timestamp))| == |Accepted(env, s, Block([c, b], block, timestamp))|
    ensures |Accepted(env, s, Block([b, c], block, timestamp))| ==
              (if Accepts(env, s, b, block, timestamp) || Accepts(env, s, c, block, timestamp) then 1 else 0)
  {
    assert n in NullifiersOf(b) * NullifiersOf(c) && n in NullifiersOf(c) * NullifiersOf(b);
    assert multiset([b, c]) == multiset([c, b]);
    ConflictingAcceptanceIsOrderIndependent(env, s, [b, c], [c, b], block, timestamp);
    assert b in [b, c] && c in [b, c];
  }

  ghost predicate PairHalfFresh(s: State, nullifier: Nullifier, commitment: Commitment, signer: AccountId) {
    nullifier !in s.spent && commitment !in s.commitments && Get(s.accounts, signer).nonce < U128_MAX
  }
}
