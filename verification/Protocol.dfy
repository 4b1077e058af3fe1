/**
 * The state machine that the harness drives, as far as the harness spells it out: native transfers
 * (checks listed in the lockstep target) and privacy-preserving transactions (numbered checks in
 * `privacy.rs`).  A transaction is validated into a diff, and a diff is applied in two steps:
 * write the accounts, then increment the nonce of every signer.
 */
module Protocol {
  import opened Wrappers
  import opened Integers
  import opened Identity

  // ---------- State ----------

  /** The non-native shards of an account: opaque bytes, or the record of the clock program. */
  datatype Data = Bytes(raw: seq<nat>) | ClockRecord(blockId: u64, timestamp: u64)

  datatype Account = Account(balance: u128, nonce: u128, data: Data)

  const DEFAULT_ACCOUNT: Account := Account(0, 0, Bytes([]))

  datatype Nullifier = Nullifier(tag: nat)
  datatype Commitment = Commitment(tag: nat)
  datatype Root = Root(tag: nat)
  datatype ImageId = ImageId(tag: nat)

  type Accounts = map<AccountId, Account>

  datatype State = State(
    accounts: Accounts,
    commitments: seq<Commitment>,   // insertion order of the commitment tree
    rootHistory: set<Root>,
    spent: set<Nullifier>,
    programs: map<AccountId, ImageId>)

  /** An account that was never written reads as the default account. */
  function Get(accounts: Accounts, id: AccountId): Account {
    if id in accounts then accounts[id] else DEFAULT_ACCOUNT
  }

  /**
   * What is not visible from the harness: the tree hash, the programs other than the native token,
   * and the ids of the system accounts.  Every theorem holds for every choice of it.
   */
  datatype Env = Env(
    rootOf: seq<Commitment> -> Root,
    settleForeign: (Effect, u128, Data) -> Option<(u128, Data)>,
    nativeProgram: AccountId,
    clockId: AccountId,
    systemIds: set<AccountId>)

  // ---------- Transactions ----------

  datatype NativeEffect = Debit(amount: u128) | Credit(amount: u128)

  /** The bytes of an effect, seen through the decoder of native effects. */
  datatype Payload = Decodes(native: NativeEffect) | Undecodable(raw: seq<nat>)

  datatype Effect = Effect(program: AccountId, shard: AccountId, payload: Payload)
  datatype PublicAction = PublicAction(accountId: AccountId, effects: seq<Effect>)
  datatype PrivateAction = PrivateAction(nullifier: Nullifier, root: Root, commitment: Commitment, ciphertext: nat)
  datatype Claim = Disclosed(accountId: AccountId, imageId: ImageId) | Undisclosed(tag: nat)

  /** Half-open interval; an absent bound is unbounded. */
  datatype Window = Window(from: Option<u64>, to: Option<u64>) {
    predicate Contains(x: u64) {
      && (from.Some? ==> from.value <= x)
      && (to.Some? ==> x < to.value)
    }
  }

  const UNBOUNDED := Window(None, None)

  datatype Message = Message(
    publicActions: seq<PublicAction>,
    nonces: seq<u128>,
    privateActions: seq<PrivateAction>,
    blockWindow: Window,
    timestampWindow: Window,
    claims: seq<Claim>)

  datatype AuthorizedAction = AuthorizedAction(accountId: AccountId, isAuthorized: bool, effects: seq<Effect>)

  /** The circuit output that a proof is bound to.  The nonces are not part of it. */
  datatype Journal = Journal(
    publicActions: seq<AuthorizedAction>,
    privateActions: seq<PrivateAction>,
    blockWindow: Window,
    timestampWindow: Window,
    claims: seq<Claim>)

  /** A proof is the journal it is bound to, or bytes that decode to no receipt. */
  datatype Proof = BoundTo(journal: Journal) | Garbage(raw: seq<nat>)

  datatype Tx =
    | Transfer(from: AccountId, to: AccountId, nonce: u128, amount: u128)
    | Private(message: Message, signers: seq<AccountId>, proof: Proof)

  datatype Reject =
    | SystemAccount | SelfTransfer | NonceMismatch | InsufficientBalance | RecipientOverflow
    | NoPrivateActions | DuplicateEntries | OutOfValidityWindow | UnknownProgram | InvalidProof
    | CommitmentAlreadySeen | NullifierInvalid | EffectRejected | NonceOverflow

  datatype Diff = Diff(
    publicDiff: Accounts,
    signers: seq<AccountId>,
    newCommitments: seq<Commitment>,
    newNullifiers: set<Nullifier>)

  datatype Validation = Valid(diff: Diff) | Invalid(reject: Reject)

  // ---------- Projections of a transaction ----------

  function PublicIds(m: Message): seq<AccountId> {
    seq(|m.publicActions|, i requires 0 <= i < |m.publicActions| => m.publicActions[i].accountId)
  }

  function Nullifiers(m: Message): seq<Nullifier> {
    seq(|m.privateActions|, i requires 0 <= i < |m.privateActions| => m.privateActions[i].nullifier)
  }

  function Commitments(m: Message): seq<Commitment> {
    seq(|m.privateActions|, i requires 0 <= i < |m.privateActions| => m.privateActions[i].commitment)
  }

  function NullifiersOf(tx: Tx): set<Nullifier> {
    if tx.Private? then set n | n in Nullifiers(tx.message) else {}
  }

  function CommitmentsOf(tx: Tx): seq<Commitment> {
    if tx.Private? then Commitments(tx.message) else []
  }

  function SignersOf(tx: Tx): seq<AccountId> {
    if tx.Private? then tx.signers else [tx.from]
  }

  // ---------- Reconstruction of the journal (check 4) ----------

  function Authorize(actions: seq<PublicAction>, signers: seq<AccountId>): (r: seq<AuthorizedAction>) {
    seq(|actions|, i requires 0 <= i < |actions| =>
      AuthorizedAction(actions[i].accountId, actions[i].accountId in signers, actions[i].effects))
  }

  /** A disclosed claim is re-anchored to the image stored on chain; an unknown program keeps its claim. */
  function Anchor(claim: Claim, programs: map<AccountId, ImageId>): Claim {
    if claim.Disclosed? && claim.accountId in programs
    then Disclosed(claim.accountId, programs[claim.accountId])
    else claim
  }

  function AnchorAll(claims: seq<Claim>, programs: map<AccountId, ImageId>): (r: seq<Claim>) {
    seq(|claims|, i requires 0 <= i < |claims| => Anchor(claims[i], programs))
  }

  function JournalFor(m: Message, programs: map<AccountId, ImageId>, signers: seq<AccountId>): Journal {
    Journal(Authorize(m.publicActions, signers), m.privateActions, m.blockWindow, m.timestampWindow,
            AnchorAll(m.claims, programs))
  }

  // ---------- Settlement of public effects ----------

  function ApplyNative(balance: u128, effect: NativeEffect): Option<u128> {
    match effect
    case Debit(amount) => CheckedSub(balance, amount)
    case Credit(amount) => CheckedAdd(balance, amount)
  }

  predicate IsNative(env: Env, effect: Effect) {
    effect.program == env.nativeProgram && effect.shard == env.nativeProgram
  }

  /** Effects touch the shards of an account only, never its nonce. */
  function ApplyEffect(env: Env, account: Account, effect: Effect): Option<Account> {
    if IsNative(env, effect) then
      match effect.payload
      case Undecodable(_) => None
      case Decodes(native) =>
        (match ApplyNative(account.balance, native)
         case None => None
         case Some(balance) => Some(account.(balance := balance)))
    else
      match env.settleForeign(effect, account.balance, account.data)
      case None => None
      case Some(r) => Some(account.(balance := r.0, data := r.1))
  }

  function FoldEffects(env: Env, account: Account, effects: seq<Effect>): Option<Account>
    decreases |effects|
  {
    if effects == [] then Some(account)
    else
      match ApplyEffect(env, account, effects[0])
      case None => None
      case Some(next) => FoldEffects(env, next, effects[1..])
  }

  /** The accounts written by the public actions, each folded from its own pre-state. */
  function Settle(env: Env, accounts: Accounts, actions: seq<PublicAction>): Option<Accounts> {
    if actions == [] then Some(map[])
    else
      match (FoldEffects(env, Get(accounts, actions[0].accountId), actions[0].effects),
             Settle(env, accounts, actions[1..]))
      case (Some(account), Some(rest)) => Some(rest[actions[0].accountId := account])
      case _ => None
  }

  // ---------- Validation ----------

  predicate EntriesUnique(m: Message) {
    Distinct(PublicIds(m)) && Distinct(Nullifiers(m)) && Distinct(Commitments(m))
  }

  predicate NoncesMatch(accounts: Accounts, nonces: seq<u128>, signers: seq<AccountId>) {
    && |nonces| == |signers|
    && forall i :: 0 <= i < |signers| ==> nonces[i] == Get(accounts, signers[i]).nonce
  }

  predicate ProgramsKnown(m: Message, programs: map<AccountId, ImageId>) {
    forall c :: c in m.claims && c.Disclosed? ==> c.accountId in programs
  }

  predicate CommitmentsNew(s: State, m: Message) {
    forall a :: a in m.privateActions ==> a.commitment !in s.commitments
  }

  predicate NullifiersValid(s: State, m: Message) {
    forall a :: a in m.privateActions ==> a.nullifier !in s.spent && a.root in s.rootHistory
  }

  /** Every signer's nonce can still be incremented. */
  predicate NoncesCanAdvance(accounts: Accounts, signers: seq<AccountId>) {
    forall id :: id in signers ==> Get(accounts, id).nonce + multiset(signers)[id] <= U128_MAX
  }

  function ValidatePrivate(env: Env, s: State, m: Message, signers: seq<AccountId>, proof: Proof,
                                 block: u64, timestamp: u64): Validation
  {
    if m.privateActions == [] then Invalid(NoPrivateActions)                              // check 1
    else if !EntriesUnique(m) then Invalid(DuplicateEntries)                              // check 2
    else if exists id :: id in PublicIds(m) && id in env.systemIds then Invalid(SystemAccount)
    else if !NoncesMatch(s.accounts, m.nonces, signers) then Invalid(NonceMismatch)       // check 3c
    else if !(m.blockWindow.Contains(block) && m.timestampWindow.Contains(timestamp)) then
      Invalid(OutOfValidityWindow)
    else if !ProgramsKnown(m, s.programs) then Invalid(UnknownProgram)
    else if proof != BoundTo(JournalFor(m, s.programs, signers)) then Invalid(InvalidProof) // check 4
    else if !CommitmentsNew(s, m) then Invalid(CommitmentAlreadySeen)                     // check 5
    else if !NullifiersValid(s, m) then Invalid(NullifierInvalid)                         // check 6
    else if !NoncesCanAdvance(s.accounts, signers) then Invalid(NonceOverflow)
    else
      match Settle(env, s.accounts, m.publicActions)
      case None => Invalid(EffectRejected)
      case Some(written) => Valid(Diff(written, signers, Commitments(m), set n | n in Nullifiers(m)))
  }

  function ValidateTransfer(env: Env, accounts: Accounts, from: AccountId, to: AccountId, nonce: u128, amount: u128)
    : Validation
  {
    var payer, payee := Get(accounts, from), Get(accounts, to);
    if from in env.systemIds || to in env.systemIds then Invalid(SystemAccount)
    else if from == to then Invalid(SelfTransfer)
    else if nonce != payer.nonce then Invalid(NonceMismatch)
    else if CheckedSub(payer.balance, amount).None? then Invalid(InsufficientBalance)
    else if CheckedAdd(payee.balance, amount).None? then Invalid(RecipientOverflow)
    else if payer.nonce == U128_MAX then Invalid(NonceOverflow)
    else
      Valid(Diff(map[from := payer.(balance := payer.balance - amount),
                     to := payee.(balance := payee.balance + amount)],
                 [from], [], {}))
  }

  function Validate(env: Env, s: State, tx: Tx, block: u64, timestamp: u64): Validation {
    match tx
    case Transfer(from, to, nonce, amount) => ValidateTransfer(env, s.accounts, from, to, nonce, amount)
    case Private(m, signers, proof) => ValidatePrivate(env, s, m, signers, proof, block, timestamp)
  }

  // ---------- Application of a diff ----------

  /** The nonce of every account in the list of signers advances, once per occurrence. */
  function IncrementNonces(accounts: Accounts, signers: seq<AccountId>): (r: Accounts)
    requires NoncesCanAdvance(accounts, signers)
  {
    map id | id in accounts.Keys + (set x | x in signers) ::
      Get(accounts, id).(nonce := if id in signers then Get(accounts, id).nonce + multiset(signers)[id]
                                  else Get(accounts, id).nonce)
  }

  /** A diff that can be applied: the nonces of its signers do not run out. */
  predicate Applicable(s: State, diff: Diff) {
    NoncesCanAdvance(s.accounts + diff.publicDiff, diff.signers)
  }

  function ApplyDiff(env: Env, s: State, diff: Diff): State
    requires Applicable(s, diff)
  {
    var commitments := s.commitments + diff.newCommitments;
    State(IncrementNonces(s.accounts + diff.publicDiff, diff.signers),
          commitments,
          if diff.newCommitments == [] then s.rootHistory else s.rootHistory + {env.rootOf(commitments)},
          s.spent + diff.newNullifiers,
          s.programs)
  }

  predicate Accepts(env: Env, s: State, tx: Tx, block: u64, timestamp: u64) {
    Validate(env, s, tx, block, timestamp).Valid?
  }

  lemma {:induction false} SettleKeepsNonces(env: Env, accounts: Accounts, actions: seq<PublicAction>)
    ensures var r := Settle(env, accounts, actions);
      r.Some? ==> forall id :: id in r.value ==> r.value[id].nonce == Get(accounts, id).nonce
  {
    if actions != [] {
      SettleKeepsNonces(env, accounts, actions[1..]);
      FoldKeepsNonce(env, Get(accounts, actions[0].accountId), actions[0].effects);
    }
  }

  lemma {:induction false} FoldKeepsNonce(env: Env, account: Account, effects: seq<Effect>)
    ensures var r := FoldEffects(env, account, effects); r.Some? ==> r.value.nonce == account.nonce
    decreases |effects|
  {
    if effects != [] {
      match ApplyEffect(env, account, effects[0])
      case None =>
      case Some(next) => FoldKeepsNonce(env, next, effects[1..]);
    }
  }

  /** Whatever is validated can be applied: the second step of applying never overflows a nonce. */
  lemma ValidIsApplicable(env: Env, s: State, tx: Tx, block: u64, timestamp: u64)
    requires Accepts(env, s, tx, block, timestamp)
    ensures Applicable(s, Validate(env, s, tx, block, timestamp).diff)
  {
    if tx.Private? {
      SettleKeepsNonces(env, s.accounts, tx.message.publicActions);
    } else {
      assert multiset([tx.from])[tx.from] == 1;
    }
  }

  /**
   * `execute_check_on_state`: on rejection the state is left as it was.  `DirectPath` writes the step
   * without a diff and proves it the same.
   */
  function Execute(env: Env, s: State, tx: Tx, block: u64, timestamp: u64): State {
    match Validate(env, s, tx, block, timestamp)
    case Invalid(_) => s
    case Valid(diff) => ValidIsApplicable(env, s, tx, block, timestamp); ApplyDiff(env, s, diff)
  }
}
