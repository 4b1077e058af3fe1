/** Why the lockstep oracle is sound: invariants of the model over schedules of any length. */
module LockstepProofs {
  import opened Wrappers
  import opened Integers
  import opened Identity
  import opened Sums
  import opened Generators
  import opened Lockstep

  // ---------- Runs of the model ----------

  ghost function RunModel(accs: seq<FuzzAccount>, l: Lock, cmds: seq<Command>): (r: Lock)
    requires Covers(accs, l.book)
    ensures r.book.Keys == l.book.Keys && Covers(accs, r.book)
    decreases |cmds|
  {
    if cmds == [] then l else RunModel(accs, StepOf(accs, l, cmds[0]), cmds[1..])
  }

  /** The transfer accepted by one command, if any. */
  ghost function AcceptedIn(accs: seq<FuzzAccount>, l: Lock, cmd: Command): Option<Sent>
    requires Covers(accs, l.book)
  {
    if cmd.Transfer? && PredictedFor(l.book, Resolve(accs, l.book, cmd)).Accept?
    then Some(Resolve(accs, l.book, cmd)) else None
  }

  /** All accepted transfers of a schedule that were sent by `id`, in order. */
  ghost function SentBy(accs: seq<FuzzAccount>, l: Lock, cmds: seq<Command>, id: AccountId): (r: seq<Sent>)
    requires Covers(accs, l.book)
    ensures |r| <= |cmds|
    decreases |cmds|
  {
    if cmds == [] then []
    else
      var later := SentBy(accs, StepOf(accs, l, cmds[0]), cmds[1..], id);
      var t := AcceptedIn(accs, l, cmds[0]);
      if t.Some? && t.value.from == id then [t.value] + later else later
  }

  /**
   * What one command may do.  Only an accepted transfer changes the book, by moving its amount and
   * one nonce; the clock moves by the jump, by one, or not at all for a replay of nothing.
   */
  lemma StepEffect(accs: seq<FuzzAccount>, l: Lock, cmd: Command, id: AccountId)
    requires Covers(accs, l.book) && id in l.book
    ensures var t, next := AcceptedIn(accs, l, cmd), StepOf(accs, l, cmd);
      && (t.None? ==> next.book == l.book && next.last == l.last)
      && (t.Some? ==>
            && next.last == t
            && next.book[id].balance as int == l.book[id].balance as int
                 + (if id == t.value.to then t.value.amount else 0) - (if id == t.value.from then t.value.amount else 0)
            && next.book[id].nonce
                 == if id == t.value.from then WrappingAdd(l.book[id].nonce, 1) else l.book[id].nonce)
    ensures var n := if cmd.AdvanceBlock? then 1 + cmd.jump else if cmd.ReplayLast? && l.last.None? then 0 else 1;
      var next := StepOf(accs, l, cmd);
      next.blockId == WrappingAdd64(l.blockId, n) && next.timestamp == WrappingAdd64(l.timestamp, 1000 * n)
  {
    if cmd.Transfer? {
      ResolvedIsTransferable(accs, l.book, cmd);
    }
  }

  // ---------- Conservation and bounds ----------

  function BalancesIn(book: Book): (m: map<AccountId, int>)
    ensures m.Keys == book.Keys
  {
    map id | id in book :: book[id].balance
  }

  ghost function TotalOf(book: Book): int {
    Sum(BalancesIn(book))
  }

  lemma TransferConserves(book: Book, from: AccountId, to: AccountId, amount: u128)
    requires Transferable(book, from, to, amount)
    ensures TotalOf(Transferred(book, from, to, amount)) == TotalOf(book)
  {
    var m := BalancesIn(book);
    var payer, payee := book[from].balance - amount, book[to].balance + amount;
    assert BalancesIn(Transferred(book, from, to, amount)) == m[from := payer][to := payee];
    SumUpdateTwo(m, from, to, payer, payee);
  }

  /** The total is the same after any schedule. */
  lemma {:induction false} ScheduleConserves(accs: seq<FuzzAccount>, l: Lock, cmds: seq<Command>)
    requires Covers(accs, l.book)
    ensures TotalOf(RunModel(accs, l, cmds).book) == TotalOf(l.book)
    decreases |cmds|
  {
    if cmds != [] {
      ScheduleConserves(accs, StepOf(accs, l, cmds[0]), cmds[1..]);
      if cmds[0].Transfer? {
        var t := Resolve(accs, l.book, cmds[0]);
        ResolvedIsTransferable(accs, l.book, cmds[0]);
        if PredictedFor(l.book, t).Accept? {
          TransferConserves(l.book, t.from, t.to, t.amount);
        }
      }
    }
  }

  lemma {:induction false} BookOfEntries(init: seq<(AccountId, u128)>)
    ensures forall id :: id in BookOf(init) ==>
      BookOf(init)[id].nonce == 0 && exists i :: 0 <= i < |init| && init[i] == (id, BookOf(init)[id].balance)
    ensures |BookOf(init)| <= |init|
  {
    if init != [] {
      var prefix := init[..|init| - 1];
      BookOfEntries(prefix);
      assert BookOf(init).Keys == BookOf(prefix).Keys + {init[|init| - 1].0};
      assert |BookOf(init).Keys| == |BookOf(init)| && |BookOf(prefix).Keys| == |BookOf(prefix)|;
      forall id | id in BookOf(init)
        ensures exists i :: 0 <= i < |init| && init[i] == (id, BookOf(init)[id].balance)
      {
        if id == init[|init| - 1].0 {
          assert init[|init| - 1] == (id, BookOf(init)[id].balance);
        } else {
          var i :| 0 <= i < |prefix| && prefix[i] == (id, BookOf(prefix)[id].balance);
          assert init[i] == (id, BookOf(init)[id].balance);
        }
      }
    }
  }

  lemma StartIsBounded(idOf: PrivateKey -> AccountId, reserved: seq<AccountId>, accs: seq<FuzzAccount>)
    requires WellGenerated(idOf, reserved, accs)
    ensures 0 <= TotalOf(Start(accs).book) <= 8 * CAP
    ensures forall id :: id in Start(accs).book ==> Start(accs).book[id].nonce == 0
  {
    var book := Start(accs).book;
    BookOfEntries(InitAccs(accs));
    forall id | id in book ensures BalancesIn(book)[id] <= CAP {
      var i :| 0 <= i < |accs| && InitAccs(accs)[i] == (id, book[id].balance);
      assert accs[i] in accs;
    }
    SumBounded(BalancesIn(book), CAP);
    SumBoundsEntries(BalancesIn(book));
    assert |BalancesIn(book).Keys| == |book.Keys|;
    MulMonotone(|BalancesIn(book)|, 8, CAP);
  }

  lemma PairBelowTotal(book: Book, a: AccountId, b: AccountId)
    requires a in book && b in book && a != b
    ensures book[a].balance + book[b].balance as int <= TotalOf(book)
  {
    var m := BalancesIn(book);
    SumRemove(m, a);
    SumRemove(m - {a}, b);
    SumBoundsEntries(m - {a} - {b});
  }

  /** A state that some schedule reaches from some generated genesis. */
  ghost predicate Reachable(idOf: PrivateKey -> AccountId, reserved: seq<AccountId>, accs: seq<FuzzAccount>,
                            cmds: seq<Command>, l: Lock)
  {
    && WellGenerated(idOf, reserved, accs)
    && Covers(accs, Start(accs).book)
    && l == RunModel(accs, Start(accs), cmds)
  }

  /** The run-wide bound: the total supply never changes, and stays at most 8 * (MAX / 8) < MAX. */
  lemma SupplyIsBounded(idOf: PrivateKey -> AccountId, reserved: seq<AccountId>, accs: seq<FuzzAccount>,
                        cmds: seq<Command>, l: Lock)
    requires Reachable(idOf, reserved, accs, cmds, l)
    ensures TotalOf(l.book) == TotalOf(Start(accs).book) <= 8 * CAP < U128_MAX
  {
    ScheduleConserves(accs, Start(accs), cmds);
    StartIsBounded(idOf, reserved, accs);
  }

  /** With it every balance is bounded, and every pair of balances. */
  lemma BalancesAreBounded(idOf: PrivateKey -> AccountId, reserved: seq<AccountId>, accs: seq<FuzzAccount>,
                           cmds: seq<Command>, l: Lock, a: AccountId, b: AccountId)
    requires Reachable(idOf, reserved, accs, cmds, l)
    requires a in l.book && b in l.book && a != b
    ensures l.book[a].balance + l.book[b].balance as int <= TotalOf(l.book) <= 8 * CAP < U128_MAX
  {
    SupplyIsBounded(idOf, reserved, accs, cmds, l);
    PairBelowTotal(l.book, a, b);
  }

  /** The recipient-overflow branch is dead: nonce and sender balance alone decide. */
  lemma OverflowBranchIsDead(idOf: PrivateKey -> AccountId, reserved: seq<AccountId>, accs: seq<FuzzAccount>,
                             cmds: seq<Command>, l: Lock, from: AccountId, to: AccountId, nonce: u128, amount: u128)
    requires Reachable(idOf, reserved, accs, cmds, l)
    requires from in l.book && to in l.book && from != to
    ensures amount <= Balance(l.book, from) ==> Balance(l.book, to) + amount <= 8 * CAP < U128_MAX
    ensures Predicted(l.book, from, to, nonce, amount).Accept?
      <==> nonce == Nonce(l.book, from) && amount <= Balance(l.book, from)
  {
    BalancesAreBounded(idOf, reserved, accs, cmds, l, from, to);
  }

  /** An account that the model does not know holds nothing and has signed nothing. */
  lemma UnknownAccounts(book: Book, from: AccountId, to: AccountId, nonce: u128, amount: u128)
    ensures from !in book ==> (Predicted(book, from, to, nonce, amount).Accept? <==> nonce == 0 && amount == 0)
    ensures to !in book ==>
      (Predicted(book, from, to, nonce, amount).Accept?
       <==> nonce == Nonce(book, from) && amount <= Balance(book, from))
  {}

  // ---------- The command grammar means what it says ----------

  /** `Excessive` overshoots exactly below the largest balance; at it, saturation makes it the balance itself. */
  lemma ExcessiveOvershoots(raw: u128, balance: u128)
    ensures ResolveAmount(Excessive(raw), balance) > balance <==> balance < U128_MAX
    ensures balance == U128_MAX ==> ResolveAmount(Excessive(raw), balance) == balance
  {}

  lemma OffIsNeverCurrent(d: u8, current: u128)
    ensures ResolveNonce(Off(d), current) != current
  {}

  /**
   * In every reachable state the biased kinds do what the grammar promises: the valid ones are
   * accepted, `Off` is rejected despite wrapping, and `Excessive` despite saturating.
   */
  lemma KindsDecide(idOf: PrivateKey -> AccountId, reserved: seq<AccountId>, accs: seq<FuzzAccount>,
                    cmds: seq<Command>, l: Lock, cmd: Command)
    requires Reachable(idOf, reserved, accs, cmds, l) && cmd.Transfer?
    ensures var verdict := PredictedFor(l.book, Resolve(accs, l.book, cmd));
      && (cmd.nonce.Correct? && (cmd.amount.Zero? || cmd.amount.WithinBalance? || cmd.amount.All?) ==> verdict.Accept?)
      && (cmd.nonce.Off? ==> verdict.Reject?)
      && (cmd.amount.Excessive? ==> verdict.Reject?)
  {
    var t := Resolve(accs, l.book, cmd);
    ResolvedIsTransferable(accs, l.book, cmd);
    OverflowBranchIsDead(idOf, reserved, accs, cmds, l, t.from, t.to, t.nonce, t.amount);
    BalancesAreBounded(idOf, reserved, accs, cmds, l, t.from, t.to);
    if cmd.nonce.Off? { OffIsNeverCurrent(cmd.nonce.delta, Nonce(l.book, t.from)); }
    if cmd.amount.Excessive? { ExcessiveOvershoots(cmd.amount.raw, Balance(l.book, t.from)); }
  }

  /** The residue that selects recipient `idx`. */
  function RecipientResidue(fromIdx: nat, idx: nat, len: nat): nat
    requires fromIdx < len && idx < len && idx != fromIdx
  {
    if idx > fromIdx then idx - fromIdx - 1 else idx + len - fromIdx - 1
  }

  /** Residues modulo `len - 1` correspond one to one to the indices other than the sender. */
  lemma RecipientBijection(raw: nat, fromIdx: nat, idx: nat, len: nat)
    requires len >= 2 && fromIdx < len && idx < len && idx != fromIdx
    ensures RecipientResidue(fromIdx, idx, len) < len - 1
    ensures ResolveRecipient(raw, fromIdx, len) == idx <==> Mod(raw, len - 1) == RecipientResidue(fromIdx, idx, len)
  {}

  // ---------- Nonces ----------

  /** The counter after `n` increments from `first`. */
  function CountedUp(first: u128, n: nat): u128
    decreases n
  {
    if n == 0 then first else CountedUp(WrappingAdd(first, 1), n - 1)
  }

  /** Increments are counted modulo 2^128. */
  lemma {:induction false} CountedUpWraps(first: u128, n: nat)
    ensures CountedUp(first, n) == Wrap128(first + n)
    decreases n
  {
    if n > 0 {
      CountedUpWraps(WrappingAdd(first, 1), n - 1);
    }
  }

  /** `sent` declares the nonces that follow `first`, one each. */
  ghost predicate Consecutive(sent: seq<Sent>, id: AccountId, first: u128) {
    forall k :: 0 <= k < |sent| ==> sent[k].from == id && sent[k].nonce == CountedUp(first, k)
  }

  /** A counter that went from `first` to `end` by one increment for each of `sent`. */
  ghost predicate LedgerHolds(sent: seq<Sent>, id: AccountId, first: u128, end: u128) {
    end == CountedUp(first, |sent|) && Consecutive(sent, id, first)
  }

  lemma LedgerCons(t: Sent, later: seq<Sent>, first: u128, end: u128)
    requires t.nonce == first && LedgerHolds(later, t.from, WrappingAdd(first, 1), end)
    ensures LedgerHolds([t] + later, t.from, first, end)
  {}

  /**
   * Over any schedule a nonce counts the accepted transfers its account has sent, and those
   * transfers declared consecutive nonces, each once.
   */
  lemma {:induction false} NonceLedger(accs: seq<FuzzAccount>, l: Lock, cmds: seq<Command>, id: AccountId)
    requires Covers(accs, l.book) && id in l.book
    ensures var sent := SentBy(accs, l, cmds, id);
      LedgerHolds(sent, id, l.book[id].nonce, RunModel(accs, l, cmds).book[id].nonce)
    decreases |cmds|
  {
    if cmds != [] {
      var next := StepOf(accs, l, cmds[0]);
      NonceLedger(accs, next, cmds[1..], id);
      StepNonce(accs, l, cmds[0], id);
      var t := AcceptedIn(accs, l, cmds[0]);
      if t.Some? && t.value.from == id {
        var later, end := SentBy(accs, next, cmds[1..], id), RunModel(accs, l, cmds);
        LedgerCons(t.value, later, l.book[id].nonce, end.book[id].nonce);
      }
    }
  }

  lemma StepNonce(accs: seq<FuzzAccount>, l: Lock, cmd: Command, id: AccountId)
    requires Covers(accs, l.book) && id in l.book
    ensures var t := AcceptedIn(accs, l, cmd);
      && (t.Some? && t.value.from == id ==>
            && t.value.nonce == l.book[id].nonce
            && StepOf(accs, l, cmd).book[id].nonce == WrappingAdd(l.book[id].nonce, 1))
      && (t.None? || t.value.from != id ==> StepOf(accs, l, cmd).book[id].nonce == l.book[id].nonce)
  {}

  /**
   * From a generated genesis, in schedules too short to wrap the counter: the nonce is exactly the
   * count of accepted transfers, which declared 0, 1, 2, ... each once.
   */
  lemma NonceIsAcceptedCount(idOf: PrivateKey -> AccountId, reserved: seq<AccountId>, accs: seq<FuzzAccount>,
                             cmds: seq<Command>, l: Lock, id: AccountId)
    requires Reachable(idOf, reserved, accs, cmds, l) && id in l.book && |cmds| <= U128_MAX
    ensures var sent := SentBy(accs, Start(accs), cmds, id);
      && l.book[id].nonce == |sent|
      && forall k :: 0 <= k < |sent| ==> sent[k].from == id && sent[k].nonce == k
  {
    StartIsBounded(idOf, reserved, accs);
    NonceLedger(accs, Start(accs), cmds, id);
    var sent := SentBy(accs, Start(accs), cmds, id);
    CountedUpWraps(0, |sent|);
    forall k | 0 <= k < |sent| ensures sent[k].nonce == k {
      CountedUpWraps(0, k);
    }
  }

  /**
   * When an accepted transfer would pass the nonce check again: exactly after its sender has had a
   * multiple of 2^128 transfers accepted since, itself included.  In particular not in any shorter
   * schedule, so it is rejected at every later state.
   */
  lemma AcceptedTransferGoesStale(accs: seq<FuzzAccount>, l: Lock, cmd: Command, later: seq<Command>)
    requires Covers(accs, l.book) && AcceptedIn(accs, l, cmd).Some?
    ensures var t := AcceptedIn(accs, l, cmd).value;
      var next := StepOf(accs, l, cmd);
      var end := RunModel(accs, next, later);
      && (Nonce(end.book, t.from) == t.nonce <==> Wrap128(|SentBy(accs, next, later, t.from)| + 1) == 0)
      && (|later| < U128_MAX ==> PredictedFor(end.book, t).Reject?)
  {
    var t := AcceptedIn(accs, l, cmd).value;
    ResolvedIsTransferable(accs, l.book, cmd);
    var next := StepOf(accs, l, cmd);
    StepNonce(accs, l, cmd, t.from);
    NonceLedger(accs, next, later, t.from);
    ReturnsOnlyByWrapping(t.nonce, |SentBy(accs, next, later, t.from)| + 1);
  }

  lemma ReturnsOnlyByWrapping(nonce: u128, n: nat)
    ensures CountedUp(nonce, n) == nonce <==> Wrap128(n) == 0
    ensures 0 < n <= U128_MAX ==> CountedUp(nonce, n) != nonce
  {
    CountedUpWraps(nonce, n);
    WrapsToItself(nonce, n);
  }

  lemma {:induction false} WrapsToItself(nonce: u128, n: nat)
    ensures Wrap128(nonce + n) == nonce <==> Wrap128(n) == 0
  {
    if n > U128_MAX {
      WrapsToItself(nonce, n - (U128_MAX + 1));
    }
  }

  // ---------- ReplayLast ----------

  /** The recorded transaction is exactly one nonce behind its sender. */
  ghost predicate LastIsStale(l: Lock) {
    l.last.Some? ==>
      l.last.value.from in l.book && l.book[l.last.value.from].nonce == WrappingAdd(l.last.value.nonce, 1)
  }

  /** Hence replaying it is rejected in every reachable state, in schedules of any length at all. */
  lemma {:induction false} ReplayLastIsRejected(accs: seq<FuzzAccount>, l: Lock, cmds: seq<Command>)
    requires Covers(accs, l.book) && LastIsStale(l)
    ensures var end := RunModel(accs, l, cmds);
      LastIsStale(end) && (end.last.Some? ==> PredictedFor(end.book, end.last.value).Reject?)
    decreases |cmds|
  {
    if cmds != [] {
      if cmds[0].Transfer? {
        ResolvedIsTransferable(accs, l.book, cmds[0]);
      }
      ReplayLastIsRejected(accs, StepOf(accs, l, cmds[0]), cmds[1..]);
    }
  }

  // ---------- The clock ----------

  /** A bounded schedule never wraps the clock: ids only grow, and the timestamp follows the block id. */
  lemma {:induction false} ClockNeverWraps(accs: seq<FuzzAccount>, l: Lock, cmds: seq<Command>)
    requires Covers(accs, l.book)
    requires l.blockId >= 1 && l.timestamp == 1000 * (l.blockId - 1)
    requires l.timestamp + 256_000 * |cmds| <= U64_MAX
    ensures var end := RunModel(accs, l, cmds);
      && l.blockId <= end.blockId <= l.blockId + 256 * |cmds|
      && end.timestamp == 1000 * (end.blockId - 1)
    decreases |cmds|
  {
    if cmds != [] {
      ClockNeverWraps(accs, StepOf(accs, l, cmds[0]), cmds[1..]);
    }
  }
}
