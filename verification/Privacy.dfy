/** The builders of privacy-preserving transactions (`privacy.rs`), for arbitrary draws. */
module Privacy {
  import opened Wrappers
  import opened Integers
  import opened Identity
  import opened Dedup
  import opened Protocol

  function LiveRoot(env: Env, s: State): Root {
    env.rootOf(s.commitments)
  }

  // ---------- Proofs ----------

  /** The proof bound to the journal that the validator will rebuild for (message, state, signers). */
  function SynthesizePassingProof(m: Message, programs: map<AccountId, ImageId>, signers: seq<AccountId>): Proof {
    BoundTo(JournalFor(m, programs, signers))
  }

  /**
   * Exactly when a proof synthesised for one triple verifies for another: the two must agree on
   * everything the journal carries.  Nonces are absent from it, signers enter only through the
   * authorisation of public accounts, and the state only through re-anchored claims.
   */
  lemma ProofTransfers(m: Message, programs: map<AccountId, ImageId>, signers: seq<AccountId>,
                       m': Message, programs': map<AccountId, ImageId>, signers': seq<AccountId>)
    ensures SynthesizePassingProof(m, programs, signers) == BoundTo(JournalFor(m', programs', signers'))
      <==>
      && m.publicActions == m'.publicActions
      && (forall id :: id in PublicIds(m) ==> (id in signers <==> id in signers'))
      && m.privateActions == m'.privateActions
      && m.blockWindow == m'.blockWindow && m.timestampWindow == m'.timestampWindow
      && |m.claims| == |m'.claims|
      && (forall i :: 0 <= i < |m.claims| ==> Anchor(m.claims[i], programs) == Anchor(m'.claims[i], programs'))
  {
    var left, right := Authorize(m.publicActions, signers), Authorize(m'.publicActions, signers');
    if left == right {
      forall i | 0 <= i < |left|
        ensures m.publicActions[i] == m'.publicActions[i]
        ensures m.publicActions[i].accountId in signers <==> m.publicActions[i].accountId in signers'
      {
        assert left[i] == right[i];
      }
      forall id | id in PublicIds(m) ensures id in signers <==> id in signers' {
        var i :| 0 <= i < |PublicIds(m)| && PublicIds(m)[i] == id;
      }
    }
    if m.publicActions == m'.publicActions && forall id :: id in PublicIds(m) ==> (id in signers <==> id in signers') {
      forall i | 0 <= i < |left| ensures left[i] == right[i] {
        assert PublicIds(m)[i] in PublicIds(m);
      }
    }
    AnchorsAgree(m.claims, programs, m'.claims, programs');
  }

  lemma AnchorsAgree(a: seq<Claim>, p: map<AccountId, ImageId>, b: seq<Claim>, q: map<AccountId, ImageId>)
    ensures AnchorAll(a, p) == AnchorAll(b, q)
      <==> |a| == |b| && forall i :: 0 <= i < |a| ==> Anchor(a[i], p) == Anchor(b[i], q)
  {
    if AnchorAll(a, p) == AnchorAll(b, q) {
      forall i | 0 <= i < |a| ensures Anchor(a[i], p) == Anchor(b[i], q) {
        assert AnchorAll(a, p)[i] == AnchorAll(b, q)[i];
      }
    }
  }

  // ---------- Pieces of a message ----------

  datatype WindowDraw = WindowDraw(selector: u8, from: Option<u8>, to: Option<u8>)

  /** Unbounded for three selectors of four; an empty interval falls back to unbounded. */
  function ArbValidityWindow(d: WindowDraw): (w: Window)
    ensures w.from.Some? ==> w.from.value < 8
    ensures w.to.Some? ==> w.to.value < 8
    ensures w.from.Some? && w.to.Some? ==> w.from.value < w.to.value
  {
    if d.selector % 4 != 0 then UNBOUNDED
    else
      var from := if d.from.Some? then Some(d.from.value % 8) else None;
      var to := if d.to.Some? then Some(d.to.value % 8) else None;
      if from.Some? && to.Some? && from.value >= to.value then UNBOUNDED else Window(from, to)
  }

  /**
   * Falling back on `from >= to` is not quite enough to keep windows open: a window admits some
   * block exactly when it is not the draw without a lower bound whose upper bound reduces to zero.
   */
  lemma WindowAdmitsSomeBlock(d: WindowDraw)
    ensures (exists x: u64 :: ArbValidityWindow(d).Contains(x))
      <==> !(d.selector % 4 == 0 && d.from.None? && d.to.Some? && d.to.value % 8 == 0)
  {
    var w := ArbValidityWindow(d);
    var x: u64 := if w.from.Some? then w.from.value else 0;
    if w.to.None? || x < w.to.value {
      assert w.Contains(x);
    }
  }

  /** Equal in the nullifier or in the commitment: either alone trips validator check 2. */
  predicate Collides(a: PrivateAction, b: PrivateAction) {
    a.nullifier == b.nullifier || a.commitment == b.commitment
  }

  predicate UniqueActions(actions: seq<PrivateAction>) {
    forall i, j :: 0 <= i < j < |actions| ==> !Collides(actions[i], actions[j])
  }

  method PushPrivateActionIfUnique(actions: seq<PrivateAction>, action: PrivateAction) returns (r: seq<PrivateAction>)
    ensures r == actions <==> exists a :: a in actions && Collides(a, action)
    ensures r == actions || r == actions + [action]
    ensures UniqueActions(actions) ==> UniqueActions(r)
  {
    var any := false;
    for i := 0 to |actions|
      invariant any <==> exists j :: 0 <= j < i && Collides(actions[j], action)
    {
      if Collides(actions[i], action) {
        any := true;
      }
    }
    if any {
      r := actions;
      assert exists a :: a in actions && Collides(a, action);
    } else {
      r := actions + [action];
      assert |r| != |actions|;
    }
  }

  /** Greedy selection: an action is kept unless it collides with one kept before it. */
  function KeepUnique(drawn: seq<PrivateAction>): (r: seq<PrivateAction>)
    ensures UniqueActions(r)
    ensures |r| <= |drawn| && (drawn != [] ==> r != [])
    ensures forall a :: a in drawn ==> a in r || exists b :: b in r && Collides(b, a)
  {
    if drawn == [] then []
    else
      var last := drawn[|drawn| - 1];
      var prefix := KeepUnique(drawn[..|drawn| - 1]);
      assert drawn == drawn[..|drawn| - 1] + [last];
      if exists a :: a in prefix && Collides(a, last) then prefix else prefix + [last]
  }

  datatype ActionDraw = ActionDraw(
    nullifier: Nullifier, useLiveRoot: bool, root: Root, commitment: Commitment, ciphertext: nat)

  function ArbPrivateAction(d: ActionDraw, liveRoot: Root): PrivateAction {
    PrivateAction(d.nullifier, if d.useLiveRoot then liveRoot else d.root, d.commitment, d.ciphertext)
  }

  datatype EffectDraw = EffectDraw(selector: u8, foreign: Effect, amount: u128, debit: bool)

  function ArbEffect(nativeProgram: AccountId, d: EffectDraw): Effect {
    if d.selector % 4 == 0 then d.foreign
    else Effect(nativeProgram, nativeProgram, Decodes(if d.debit then Debit(d.amount) else Credit(d.amount)))
  }

  datatype EffectsDraw = EffectsDraw(count: u8, effect: nat -> EffectDraw)

  function ArbPublicEffects(nativeProgram: AccountId, d: EffectsDraw): seq<Effect> {
    seq(d.count % 3, i requires 0 <= i => ArbEffect(nativeProgram, d.effect(i)))
  }

  // ---------- The transaction builder ----------

  datatype PrivacyDraws = PrivacyDraws(
    signerCount: u8,
    signerIndex: nat -> u8,
    includeSigners: bool,
    extraCount: u8,
    extraKnown: nat -> bool,
    extraIndex: nat -> u8,
    extraId: nat -> AccountId,
    effects: nat -> EffectsDraw,
    privateCount: u8,
    action: nat -> ActionDraw,
    blockWindow: WindowDraw,
    timestampWindow: WindowDraw,
    proofSelector: u8,
    garbage: Proof)

  function Min(a: nat, b: nat): nat { if a <= b then a else b }

  function SignerCount(accounts: seq<FuzzAccount>, d: PrivacyDraws): nat {
    var maxSigners := Min(|accounts|, 3);
    if maxSigners == 0 then 0 else d.signerCount % (maxSigners + 1)
  }

  function SignerDraws(idOf: PrivateKey -> AccountId, accounts: seq<FuzzAccount>, d: PrivacyDraws, n: nat)
    : (r: seq<AccountId>)
    requires n > 0 ==> accounts != []
    ensures |r| == n
  {
    seq(n, i requires 0 <= i && accounts != [] => idOf(accounts[d.signerIndex(i) % |accounts|].privateKey))
  }

  function ExtraDraws(accounts: seq<FuzzAccount>, d: PrivacyDraws, n: nat): (r: seq<AccountId>)
    ensures |r| == n
  {
    seq(n, i requires 0 <= i => ExtraDraw(accounts, d, i))
  }

  /** A known account, whose effects are observable, or a random id. */
  function ExtraDraw(accounts: seq<FuzzAccount>, d: PrivacyDraws, i: nat): AccountId {
    if accounts != [] && d.extraKnown(i) then accounts[d.extraIndex(i) % |accounts|].accountId else d.extraId(i)
  }

  lemma ExtraDrawsStep(start: seq<AccountId>, accounts: seq<FuzzAccount>, d: PrivacyDraws, n: nat)
    ensures KeepFirst(start + ExtraDraws(accounts, d, n + 1))
      == var prefix := KeepFirst(start + ExtraDraws(accounts, d, n));
         if ExtraDraw(accounts, d, n) in prefix then prefix else prefix + [ExtraDraw(accounts, d, n)]
  {
    ExtraDrawsSnoc(start, accounts, d, n);
    KeepFirstStep(start + ExtraDraws(accounts, d, n), ExtraDraw(accounts, d, n));
  }

  lemma ExtraDrawsSnoc(start: seq<AccountId>, accounts: seq<FuzzAccount>, d: PrivacyDraws, n: nat)
    ensures start + ExtraDraws(accounts, d, n + 1)
         == start + ExtraDraws(accounts, d, n) + [ExtraDraw(accounts, d, n)]
  {}

  function ActionDraws(d: PrivacyDraws, liveRoot: Root, n: nat): (r: seq<PrivateAction>)
    ensures |r| == n
  {
    seq(n, i requires 0 <= i => ArbPrivateAction(d.action(i), liveRoot))
  }

  function LiveNonces(accounts: Accounts, ids: seq<AccountId>): (r: seq<u128>)
    ensures NoncesMatch(accounts, r, ids)
  {
    seq(|ids|, i requires 0 <= i < |ids| => Get(accounts, ids[i]).nonce)
  }

  /** `tx` is the transaction that the draws `d` determine against the live `state`. */
  ghost predicate Generated(env: Env, idOf: PrivateKey -> AccountId, state: State,
                            accounts: seq<FuzzAccount>, d: PrivacyDraws, tx: Tx)
  {
    && tx.Private?
    && tx.signers == KeepFirst(SignerDraws(idOf, accounts, d, SignerCount(accounts, d)))
    && (var m := tx.message;
        && m.nonces == LiveNonces(state.accounts, tx.signers)
        && PublicIds(m) == KeepFirst((if d.includeSigners then tx.signers else [])
                                     + ExtraDraws(accounts, d, d.extraCount % 4))
        && (forall i :: 0 <= i < |m.publicActions| ==>
              m.publicActions[i].effects == ArbPublicEffects(env.nativeProgram, d.effects(i)))
        && m.privateActions == KeepUnique(ActionDraws(d, LiveRoot(env, state),
                                                      if d.privateCount % 4 == 0 then 1 else d.privateCount % 4))
        && m.blockWindow == ArbValidityWindow(d.blockWindow)
        && m.timestampWindow == ArbValidityWindow(d.timestampWindow)
        && m.claims == []
        && tx.proof == if d.proofSelector % 8 == 0 then d.garbage
                       else SynthesizePassingProof(m, state.programs, tx.signers))
  }

  method ArbPrivacyPreservingTx(env: Env, idOf: PrivateKey -> AccountId, state: State,
                                accounts: seq<FuzzAccount>, d: PrivacyDraws)
    returns (tx: Tx)
    ensures Generated(env, idOf, state, accounts, d, tx)
  {
    var signers := CollectSigners(idOf, accounts, d);
    var nonces := LiveNonces(state.accounts, signers);
    var ids: seq<AccountId> := [];
    if d.includeSigners {
      ids := signers;
    }
    ids := AddExtraIds(accounts, d, ids);
    var publicActions := seq(|ids|, i requires 0 <= i < |ids| =>
      PublicAction(ids[i], ArbPublicEffects(env.nativeProgram, d.effects(i))));
    var privateActions := CollectPrivateActions(d, LiveRoot(env, state));
    var m := Message(publicActions, nonces, privateActions, ArbValidityWindow(d.blockWindow),
                     ArbValidityWindow(d.timestampWindow), []);
    assert PublicIds(m) == ids;
    tx := Private(m, signers,
      if d.proofSelector % 8 == 0 then d.garbage else SynthesizePassingProof(m, state.programs, signers));
  }

  method CollectSigners(idOf: PrivateKey -> AccountId, accounts: seq<FuzzAccount>, d: PrivacyDraws)
    returns (signers: seq<AccountId>)
    ensures signers == KeepFirst(SignerDraws(idOf, accounts, d, SignerCount(accounts, d)))
  {
    var nSigners := SignerCount(accounts, d);
    signers := [];
    for i := 0 to nSigners
      invariant signers == KeepFirst(SignerDraws(idOf, accounts, d, i))
    {
      var id := idOf(accounts[d.signerIndex(i) % |accounts|].privateKey);
      KeepFirstStep(SignerDraws(idOf, accounts, d, i), id);
      assert SignerDraws(idOf, accounts, d, i + 1) == SignerDraws(idOf, accounts, d, i) + [id];
      if id !in signers {
        signers := signers + [id];
      }
    }
  }

  method AddExtraIds(accounts: seq<FuzzAccount>, d: PrivacyDraws, start: seq<AccountId>) returns (ids: seq<AccountId>)
    requires Distinct(start)
    ensures ids == KeepFirst(start + ExtraDraws(accounts, d, d.extraCount % 4))
  {
    ids := start;
    ExtraDrawsStart(accounts, d, start);
    var n: nat := d.extraCount % 4;
    for i := 0 to n
      invariant ids == KeepFirst(start + ExtraDraws(accounts, d, i))
    {
      var id := ExtraDraw(accounts, d, i);
      ExtraDrawsStep(start, accounts, d, i);
      if id !in ids {
        ids := ids + [id];
      }
    }
  }

  lemma ExtraDrawsStart(accounts: seq<FuzzAccount>, d: PrivacyDraws, start: seq<AccountId>)
    requires Distinct(start)
    ensures KeepFirst(start + ExtraDraws(accounts, d, 0)) == start
  {
    assert start + ExtraDraws(accounts, d, 0) == start;
    KeepFirstOfDistinct(start);
  }

  method CollectPrivateActions(d: PrivacyDraws, liveRoot: Root) returns (actions: seq<PrivateAction>)
    ensures actions == KeepUnique(ActionDraws(d, liveRoot, if d.privateCount % 4 == 0 then 1 else d.privateCount % 4))
  {
    actions := [];
    for i := 0 to d.privateCount % 4
      invariant actions == KeepUnique(ActionDraws(d, liveRoot, i))
    {
      var action := ArbPrivateAction(d.action(i), liveRoot);
      assert ActionDraws(d, liveRoot, i + 1)[..i] == ActionDraws(d, liveRoot, i);
      actions := PushPrivateActionIfUnique(actions, action);
    }
    if actions == [] {
      actions := actions + [ArbPrivateAction(d.action(0), liveRoot)];
      assert ActionDraws(d, liveRoot, 1)[..0] == [];
    }
  }
}
