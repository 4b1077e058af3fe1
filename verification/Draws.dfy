/**
 * What a generated privacy-preserving transaction contains, said from the draws alone: which
 * accounts sign, which ids are public, what each private action and each window is.
 */
module Draws {
  import opened Integers
  import opened Identity
  import opened Protocol
  import opened Runs
  import opened Privacy
  import opened Builders

  // ---------- Private actions ----------

  /** Two draws collide when they name the same nullifier or the same commitment. */
  predicate DrawsCollide(a: ActionDraw, b: ActionDraw) {
    a.nullifier == b.nullifier || a.commitment == b.commitment
  }

  /**
   * `origin` lists, in draw order, exactly the draws that collide with no draw listed before them.
   */
  ghost predicate KeptActions(draw: nat -> ActionDraw, n: nat, origin: seq<nat>) {
    && (forall k, l :: 0 <= k < l < |origin| ==> origin[k] < origin[l])
    && (forall k :: 0 <= k < |origin| ==> origin[k] < n)
    && (forall j :: 0 <= j < n ==> (j in origin <==> Unlike(draw, origin, j)))
  }

  ghost predicate Unlike(draw: nat -> ActionDraw, origin: seq<nat>, j: nat) {
    forall i :: i in origin && i < j ==> !DrawsCollide(draw(i), draw(j))
  }

  /** The action of a draw: its own nullifier and commitment, and the live root exactly if it says so. */
  ghost predicate IsAction(a: PrivateAction, d: ActionDraw, live: Root) {
    && a.nullifier == d.nullifier && a.commitment == d.commitment && a.ciphertext == d.ciphertext
    && (d.useLiveRoot ==> a.root == live)
    && (!d.useLiveRoot ==> a.root == d.root)
  }

  ghost predicate ReadsActions(actions: seq<PrivateAction>, draw: nat -> ActionDraw, live: Root, origin: seq<nat>) {
    && |actions| == |origin|
    && forall k :: 0 <= k < |origin| ==> IsAction(actions[k], draw(origin[k]), live)
  }

  lemma {:induction false} KeptFromDraws(d: PrivacyDraws, live: Root, n: nat) returns (origin: seq<nat>)
    ensures KeptActions(d.action, n, origin)
    ensures ReadsActions(KeepUnique(ActionDraws(d, live, n)), d.action, live, origin)
    decreases n
  {
    if n == 0 {
      origin := [];
    } else {
      var before := KeptFromDraws(d, live, n - 1);
      var kept, last := KeepUnique(ActionDraws(d, live, n - 1)), ArbPrivateAction(d.action(n - 1), live);
      KeepStep(d, live, n - 1);
      KeptCollides(kept, d.action, live, before, last, n - 1);
      ReadsStep(kept, d.action, live, before, last, n - 1);
      OriginStep(d.action, n - 1, before);
      origin := if Unlike(d.action, before, n - 1) then before + [n - 1] else before;
    }
  }

  lemma KeepStep(d: PrivacyDraws, live: Root, n: nat)
    ensures var kept, last := KeepUnique(ActionDraws(d, live, n)), ArbPrivateAction(d.action(n), live);
      KeepUnique(ActionDraws(d, live, n + 1))
      == if exists a :: a in kept && Collides(a, last) then kept else kept + [last]
  {
    assert ActionDraws(d, live, n + 1)[..n] == ActionDraws(d, live, n);
  }

  lemma ReadsStep(kept: seq<PrivateAction>, draw: nat -> ActionDraw, live: Root, origin: seq<nat>,
                  last: PrivateAction, n: nat)
    requires ReadsActions(kept, draw, live, origin) && IsAction(last, draw(n), live)
    ensures ReadsActions(kept + [last], draw, live, origin + [n])
  {}

  lemma OriginStep(draw: nat -> ActionDraw, n: nat, before: seq<nat>)
    requires KeptActions(draw, n, before)
    ensures KeptActions(draw, n + 1, if Unlike(draw, before, n) then before + [n] else before)
  {
    var origin := if Unlike(draw, before, n) then before + [n] else before;
    assert n !in before;
    forall j | 0 <= j <= n ensures Unlike(draw, origin, j) <==> Unlike(draw, before, j) {
      assert forall i :: i in origin && i < j <==> i in before && i < j;
    }
  }

  lemma KeptCollides(kept: seq<PrivateAction>, draw: nat -> ActionDraw, live: Root, origin: seq<nat>,
                     last: PrivateAction, n: nat)
    requires ReadsActions(kept, draw, live, origin) && IsAction(last, draw(n), live)
    requires forall k :: 0 <= k < |origin| ==> origin[k] < n
    ensures (exists a :: a in kept && Collides(a, last)) <==> !Unlike(draw, origin, n)
  {
    if a :| a in kept && Collides(a, last) {
      var k :| 0 <= k < |kept| && kept[k] == a;
      assert origin[k] in origin && DrawsCollide(draw(origin[k]), draw(n));
    }
    if i :| i in origin && i < n && DrawsCollide(draw(i), draw(n)) {
      var k :| 0 <= k < |origin| && origin[k] == i;
      assert kept[k] in kept && Collides(kept[k], last);
    }
  }

  /** How many actions are drawn: the fallback draw makes up for none. */
  function ActionCount(d: PrivacyDraws): nat {
    if d.privateCount % 4 == 0 then 1 else d.privateCount % 4
  }

  /**
   * The private actions of a generated transaction are those of the draws that collide with no
   * earlier kept one, each with the nullifier, the commitment and the root that its draw chose.
   */
  lemma GeneratedActions(env: Env, idOf: PrivateKey -> AccountId, state: State, accounts: seq<FuzzAccount>,
                         d: PrivacyDraws, tx: Tx)
    returns (origin: seq<nat>)
    requires Generated(env, idOf, state, accounts, d, tx)
    ensures KeptActions(d.action, ActionCount(d), origin)
    ensures ReadsActions(tx.message.privateActions, d.action, env.rootOf(state.commitments), origin)
  {
    origin := KeptFromDraws(d, env.rootOf(state.commitments), ActionCount(d));
  }

  /**
   * Checks 5 and 6 from the draws: with a known live root, the kept draws pass exactly when every
   * nullifier is unspent, every commitment new, and every root live or already in the history.
   */
  ghost predicate DrawsAdmissible(s: State, draw: nat -> ActionDraw, origin: seq<nat>) {
    forall k :: 0 <= k < |origin| ==> DrawAdmissible(s, draw(origin[k]))
  }

  predicate DrawAdmissible(s: State, d: ActionDraw) {
    d.nullifier !in s.spent && d.commitment !in s.commitments && (d.useLiveRoot || d.root in s.rootHistory)
  }

  lemma AdmissibleFromDraws(env: Env, s: State, actions: seq<PrivateAction>, draw: nat -> ActionDraw, origin: seq<nat>)
    requires LiveRootKnown(env, s) && actions != [] && UniqueActions(actions)
    requires ReadsActions(actions, draw, env.rootOf(s.commitments), origin)
    ensures ActionsAdmissible(s, actions) <==> DrawsAdmissible(s, draw, origin)
  {
    if ActionsAdmissible(s, actions) {
      forall k | 0 <= k < |origin| ensures DrawAdmissible(s, draw(origin[k])) {
        assert actions[k] in actions;
      }
    }
    if DrawsAdmissible(s, draw, origin) {
      forall a | a in actions
        ensures a.commitment !in s.commitments && a.nullifier !in s.spent && a.root in s.rootHistory
      {
        var k :| 0 <= k < |actions| && actions[k] == a;
        assert DrawAdmissible(s, draw(origin[k]));
      }
    }
  }

  /** Acceptance of a generated transaction, its private actions read off the draws. */
  lemma AcceptanceFromDraws(env: Env, idOf: PrivateKey -> AccountId, state: State, accounts: seq<FuzzAccount>,
                            d: PrivacyDraws, tx: Tx, block: u64, timestamp: u64)
    returns (origin: seq<nat>)
    requires Generated(env, idOf, state, accounts, d, tx) && LiveRootKnown(env, state)
    ensures KeptActions(d.action, ActionCount(d), origin)
    ensures Accepts(env, state, tx, block, timestamp)
      <==>
      && (d.proofSelector % 8 == 0 ==> d.garbage == SynthesizePassingProof(tx.message, state.programs, tx.signers))
      && WindowAdmits(d.blockWindow, block) && WindowAdmits(d.timestampWindow, timestamp)
      && DrawsAdmissible(state, d.action, origin)
      && (forall id :: id in PublicIds(tx.message) ==> id !in env.systemIds)
      && (forall id :: id in tx.signers ==> Get(state.accounts, id).nonce < U128_MAX)
      && (forall x :: x in tx.message.publicActions ==> EffectsPass(env, Get(state.accounts, x.accountId), x.effects))
  {
    origin := GeneratedActions(env, idOf, state, accounts, d, tx);
    GeneratedAcceptance(env, idOf, state, accounts, d, tx, block, timestamp);
    GeneratedShape(env, idOf, state, accounts, d, tx);
    UniqueActionsAreUnique(tx.message);
    AdmissibleFromDraws(env, state, tx.message.privateActions, d.action, origin);
    WindowIsDrawn(d.blockWindow, block);
    WindowIsDrawn(d.timestampWindow, timestamp);
  }

  // ---------- Windows ----------

  /** The bounds of a draw, each reduced below 8, unless it is one of the unbounded or out of order. */
  predicate WindowAdmits(d: WindowDraw, x: u64) {
    || d.selector % 4 != 0
    || (d.from.Some? && d.to.Some? && d.from.value % 8 >= d.to.value % 8)
    || ((d.from.Some? ==> d.from.value % 8 <= x) && (d.to.Some? ==> x < d.to.value % 8))
  }

  lemma WindowIsDrawn(d: WindowDraw, x: u64)
    ensures ArbValidityWindow(d).Contains(x) <==> WindowAdmits(d, x)
  {}

  // ---------- Signers and public ids ----------

  function DrawnSignerCount(accounts: seq<FuzzAccount>, d: PrivacyDraws): nat {
    if |accounts| == 0 then 0 else if |accounts| < 3 then d.signerCount % (|accounts| + 1) else d.signerCount % 4
  }

  /** Draw `i` picks this account as a signer. */
  ghost predicate PicksSigner(idOf: PrivateKey -> AccountId, accounts: seq<FuzzAccount>, d: PrivacyDraws, i: nat,
                              id: AccountId)
  {
    && i < DrawnSignerCount(accounts, d) && accounts != []
    && id == idOf(accounts[d.signerIndex(i) % |accounts|].privateKey)
  }

  /** Draw `i` picks this extra public id: that of a known account if it says so and there is one, or a random one. */
  ghost predicate PicksExtra(accounts: seq<FuzzAccount>, d: PrivacyDraws, i: nat, id: AccountId) {
    && i < d.extraCount % 4
    && (accounts != [] && d.extraKnown(i) ==> id == accounts[d.extraIndex(i) % |accounts|].accountId)
    && (accounts == [] || !d.extraKnown(i) ==> id == d.extraId(i))
  }

  /** Exactly the picked accounts sign, and exactly the included signers and the picked ids are public. */
  lemma GeneratedParties(env: Env, idOf: PrivateKey -> AccountId, state: State, accounts: seq<FuzzAccount>,
                         d: PrivacyDraws, tx: Tx, id: AccountId)
    requires Generated(env, idOf, state, accounts, d, tx)
    ensures id in tx.signers <==> exists i :: PicksSigner(idOf, accounts, d, i, id)
    ensures id in PublicIds(tx.message)
      <==> (d.includeSigners && id in tx.signers) || exists i :: PicksExtra(accounts, d, i, id)
  {
    SignerPicks(idOf, accounts, d, id);
    ExtraPicks(accounts, d, id);
  }

  lemma SignerPicks(idOf: PrivateKey -> AccountId, accounts: seq<FuzzAccount>, d: PrivacyDraws, id: AccountId)
    ensures id in SignerDraws(idOf, accounts, d, SignerCount(accounts, d))
      <==> exists i :: PicksSigner(idOf, accounts, d, i, id)
  {
    var picks := SignerDraws(idOf, accounts, d, SignerCount(accounts, d));
    assert |picks| == DrawnSignerCount(accounts, d);
    if id in picks {
      var i :| 0 <= i < |picks| && picks[i] == id;
      assert PicksSigner(idOf, accounts, d, i, id);
    }
    if i: nat :| PicksSigner(idOf, accounts, d, i, id) {
      assert picks[i] == id;
    }
  }

  lemma ExtraPicks(accounts: seq<FuzzAccount>, d: PrivacyDraws, id: AccountId)
    ensures id in ExtraDraws(accounts, d, d.extraCount % 4) <==> exists i :: PicksExtra(accounts, d, i, id)
  {
    var extra := ExtraDraws(accounts, d, d.extraCount % 4);
    if id in extra {
      var i :| 0 <= i < |extra| && extra[i] == id;
      assert PicksExtra(accounts, d, i, id);
    }
    if i: nat :| PicksExtra(accounts, d, i, id) {
      assert extra[i] == id;
    }
  }

  // ---------- Effects ----------

  /** What an effect draw stands for: one in four another program's, the others a debit or a credit. */
  ghost predicate IsEffect(nativeProgram: AccountId, e: Effect, d: EffectDraw) {
    && (d.selector % 4 == 0 ==> e == d.foreign)
    && (d.selector % 4 != 0 ==>
          && e.program == nativeProgram && e.shard == nativeProgram
          && e.payload == Decodes(if d.debit then Debit(d.amount) else Credit(d.amount)))
  }

  lemma GeneratedEffects(env: Env, idOf: PrivateKey -> AccountId, state: State, accounts: seq<FuzzAccount>,
                         d: PrivacyDraws, tx: Tx, i: nat)
    requires Generated(env, idOf, state, accounts, d, tx) && i < |tx.message.publicActions|
    ensures var effects := tx.message.publicActions[i].effects;
      && |effects| == d.effects(i).count % 3
      && forall k :: 0 <= k < |effects| ==> IsEffect(env.nativeProgram, effects[k], d.effects(i).effect(k))
  {}

  // ---------- The journal ----------

  /** A public account is authorised in the journal exactly if it signed; ids and effects are the message's own. */
  lemma AuthorizedIffSigned(m: Message, programs: map<AccountId, ImageId>, signers: seq<AccountId>, i: nat)
    requires i < |m.publicActions|
    ensures var action := JournalFor(m, programs, signers).publicActions[i];
      && action.accountId == m.publicActions[i].accountId && action.effects == m.publicActions[i].effects
      && (action.isAuthorized <==> exists k :: 0 <= k < |signers| && signers[k] == action.accountId)
  {}
}
