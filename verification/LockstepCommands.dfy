/**
 * What the command grammar decodes to, said without the decoder: who pays, who is paid, which nonce
 * is declared and which amount is asked for, straight from the fields of a command.
 */
module LockstepCommands {
  import opened Wrappers
  import opened Integers
  import opened Identity
  import opened Lockstep
  import opened LockstepProofs

  // ---------- What a command says ----------

  function Larger(a: nat, b: nat): nat { if a <= b then b else a }

  function Smaller(a: nat, b: nat): nat { if a <= b then a else b }

  /** The nonce that a kind declares for a sender whose nonce is `current`. */
  ghost predicate Declares(kind: NonceKind, current: u128, nonce: u128) {
    match kind
    case Correct => nonce == current
    case Off(delta) => nonce == CountedUp(current, Larger(delta, 1))
    case RawNonce(n) => nonce == n
  }

  /** The amount that a kind asks of a sender who holds `balance`. */
  ghost predicate Asks(kind: AmountKind, balance: u128, amount: u128) {
    match kind
    case Zero => amount == 0
    case WithinBalance(raw) => Remainder(raw, Smaller(balance + 1, U128_MAX), amount)
    case All => amount == balance
    case Excessive(raw) =>
      exists extra :: Remainder(raw, 1024, extra) && amount == Smaller(balance + 1 + extra, U128_MAX)
    case RawAmount(n) => amount == n
  }

  /** The account at `to` is the one that a command with this payer and recipient field pays. */
  ghost predicate Pays(accs: seq<FuzzAccount>, cmd: Command, from: nat, to: nat)
    requires cmd.Transfer? && |accs| >= 2
  {
    && Remainder(cmd.from, |accs|, from)
    && to < |accs| && to != from
    && Remainder(cmd.to, |accs| - 1, RecipientResidue(from, to, |accs|))
  }

  // ---------- The decoder says the same ----------

  lemma {:induction false} CountedUpByFew(current: u128, n: nat)
    requires n <= U8_MAX
    ensures CountedUp(current, n) == WrappingAdd(current, n)
    decreases n
  {
    if n > 0 {
      CountedUpByFew(WrappingAdd(current, 1), n - 1);
    }
  }

  lemma NonceIsDeclared(kind: NonceKind, current: u128, nonce: u128)
    ensures Declares(kind, current, nonce) <==> nonce == ResolveNonce(kind, current)
  {
    if kind.Off? {
      CountedUpByFew(current, Larger(kind.delta, 1));
    }
  }

  lemma AmountIsAsked(kind: AmountKind, balance: u128, amount: u128)
    ensures Asks(kind, balance, amount) <==> amount == ResolveAmount(kind, balance)
  {
    match kind
    case WithinBalance(raw) =>
      var m := SaturatingAdd(balance, 1);
      RemainderIsMod(raw, m);
      if Remainder(raw, m, amount) { RemainderIsUnique(raw, m, amount, Mod(raw, m)); }
    case Excessive(raw) =>
      RemainderIsMod(raw, 1024);
      if extra :| Remainder(raw, 1024, extra) && amount == Smaller(balance + 1 + extra, U128_MAX) {
        RemainderIsUnique(raw, 1024, extra, Mod(raw, 1024));
      }
    case Zero =>
    case All =>
    case RawAmount(_) =>
  }

  lemma PartiesAreDecoded(accs: seq<FuzzAccount>, book: Book, cmd: Command, from: nat, to: nat)
    requires cmd.Transfer? && |accs| >= 2 && Pays(accs, cmd, from, to)
    ensures Resolve(accs, book, cmd).from == accs[from].accountId
    ensures Resolve(accs, book, cmd).to == accs[to].accountId
  {
    RemainderIsMod(cmd.from, |accs|);
    RemainderIsUnique(cmd.from, |accs|, from, Mod(cmd.from, |accs|));
    RemainderIsMod(cmd.to, |accs| - 1);
    RemainderIsUnique(cmd.to, |accs| - 1, RecipientResidue(from, to, |accs|), Mod(cmd.to, |accs| - 1));
    RecipientBijection(cmd.to, from, to, |accs|);
  }

  // ---------- One transfer command ----------

  /** What a transfer between these parties must do to the model. */
  ghost predicate MovesBook(before: Lock, after: Lock, payer: AccountId, payee: AccountId, nonce: u128, amount: u128)
    requires payer in before.book && payee in before.book
  {
    var p, q := before.book[payer], before.book[payee];
    if nonce == p.nonce && amount <= p.balance && q.balance + amount <= U128_MAX then
      && after.last == Some(Sent(payer, payee, nonce, amount))
      && after.book.Keys == before.book.Keys
      && after.book[payer] == Entry(p.balance - amount, CountedUp(p.nonce, 1))
      && after.book[payee] == Entry(q.balance + amount, q.nonce)
      && (forall id :: id in before.book && id != payer && id != payee ==> after.book[id] == before.book[id])
    else
      after.book == before.book && after.last == before.last
  }

  /**
   * The meaning of a transfer command: the account selected by `from` pays the one selected by `to`,
   * with the declared nonce and the asked amount, if nonce, cover and head room allow, and nothing
   * moves otherwise.
   */
  lemma TransferMeaning(accs: seq<FuzzAccount>, l: Lock, cmd: Command, from: nat, to: nat, nonce: u128, amount: u128)
    requires cmd.Transfer? && Covers(accs, l.book) && Pays(accs, cmd, from, to)
    requires accs[from].accountId in l.book && accs[to].accountId in l.book
    requires Declares(cmd.nonce, l.book[accs[from].accountId].nonce, nonce)
    requires Asks(cmd.amount, l.book[accs[from].accountId].balance, amount)
    ensures accs[from].accountId != accs[to].accountId
    ensures MovesBook(l, StepOf(accs, l, cmd), accs[from].accountId, accs[to].accountId, nonce, amount)
  {
    PartiesAreDecoded(accs, l.book, cmd, from, to);
    NonceIsDeclared(cmd.nonce, l.book[accs[from].accountId].nonce, nonce);
    AmountIsAsked(cmd.amount, l.book[accs[from].accountId].balance, amount);
    ResolvedIsTransferable(accs, l.book, cmd);
    assert CountedUp(l.book[accs[from].accountId].nonce, 1) == WrappingAdd(l.book[accs[from].accountId].nonce, 1);
  }

  /** Every transfer command has such a meaning. */
  lemma MeaningExists(accs: seq<FuzzAccount>, l: Lock, cmd: Command)
    returns (from: nat, to: nat, nonce: u128, amount: u128)
    requires cmd.Transfer? && Covers(accs, l.book)
    ensures Pays(accs, cmd, from, to)
    ensures accs[from].accountId in l.book && accs[to].accountId in l.book
    ensures Declares(cmd.nonce, l.book[accs[from].accountId].nonce, nonce)
    ensures Asks(cmd.amount, l.book[accs[from].accountId].balance, amount)
  {
    from := Mod(cmd.from, |accs|);
    to := ResolveRecipient(cmd.to, from, |accs|);
    assert accs[from] in accs && accs[to] in accs;
    RemainderIsMod(cmd.from, |accs|);
    RemainderIsMod(cmd.to, |accs| - 1);
    RecipientBijection(cmd.to, from, to, |accs|);
    nonce := ResolveNonce(cmd.nonce, l.book[accs[from].accountId].nonce);
    NonceIsDeclared(cmd.nonce, l.book[accs[from].accountId].nonce, nonce);
    amount := ResolveAmount(cmd.amount, l.book[accs[from].accountId].balance);
    AmountIsAsked(cmd.amount, l.book[accs[from].accountId].balance, amount);
  }

  /** What the loop demands of the machine for such a command: that verdict, and the accounts after that move. */
  lemma TransferIsChecked(accs: seq<FuzzAccount>, l: Lock, cmd: Command, o: Observation, from: nat, to: nat,
                          nonce: u128, amount: u128, after: Lock)
    requires cmd.Transfer? && Covers(accs, l.book) && Pays(accs, cmd, from, to)
    requires accs[from].accountId in l.book && accs[to].accountId in l.book
    requires Declares(cmd.nonce, l.book[accs[from].accountId].nonce, nonce)
    requires Asks(cmd.amount, l.book[accs[from].accountId].balance, amount)
    requires MovesBook(l, after, accs[from].accountId, accs[to].accountId, nonce, amount)
    ensures var p, q := l.book[accs[from].accountId], l.book[accs[to].accountId];
      ObservationOk(accs, l, cmd, o)
      <==>
      && (o.accepted <==> nonce == p.nonce && amount <= p.balance && q.balance + amount <= U128_MAX)
      && Agrees(after.book, o.after)
  {
    TransferMeaning(accs, l, cmd, from, to, nonce, amount);
    PartiesAreDecoded(accs, l.book, cmd, from, to);
    NonceIsDeclared(cmd.nonce, l.book[accs[from].accountId].nonce, nonce);
    AmountIsAsked(cmd.amount, l.book[accs[from].accountId].balance, amount);
    SameMove(l, StepOf(accs, l, cmd), after, accs[from].accountId, accs[to].accountId, nonce, amount);
  }

  lemma SameMove(before: Lock, a: Lock, b: Lock, payer: AccountId, payee: AccountId, nonce: u128, amount: u128)
    requires payer in before.book && payee in before.book
    requires MovesBook(before, a, payer, payee, nonce, amount) && MovesBook(before, b, payer, payee, nonce, amount)
    ensures a.book == b.book
  {
    assert a.book.Keys == b.book.Keys;
    forall id | id in a.book ensures a.book[id] == b.book[id] {}
  }

  // ---------- The reach of the amounts ----------

  /** `WithinBalance` moves the raw amount itself when it is covered, and reaches every covered amount. */
  lemma WithinBalanceReach(balance: u128, amount: u128)
    ensures amount <= balance < U128_MAX ==> Asks(WithinBalance(amount), balance, amount)
    ensures (exists raw: u128 :: Asks(WithinBalance(raw), balance, amount))
      <==> amount <= balance && (balance == U128_MAX ==> amount < U128_MAX)
  {
    if amount <= balance && (balance == U128_MAX ==> amount < U128_MAX) {
      assert amount == Times(0, Smaller(balance + 1, U128_MAX)) + amount;
      assert Asks(WithinBalance(amount), balance, amount);
    }
  }
}
