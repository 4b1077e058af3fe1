/** The lockstep target: the reference model, the command grammar, and the comparing loop. */
module Lockstep {
  import opened Wrappers
  import opened Integers
  import opened Identity
  import opened Protocol
  import opened Generators

  // ---------- The reference model ----------

  datatype Entry = Entry(balance: u128, nonce: u128)
  type Book = map<AccountId, Entry>

  function Balance(book: Book, id: AccountId): u128 {
    if id in book then book[id].balance else 0
  }

  function Nonce(book: Book, id: AccountId): u128 {
    if id in book then book[id].nonce else 0
  }

  datatype Prediction = Reject | Accept(amount: u128)

  /** The complete acceptance rule of a native transfer between distinct accounts. */
  function Predicted(book: Book, from: AccountId, to: AccountId, nonce: u128, amount: u128): Prediction {
    if nonce == Nonce(book, from) && amount <= Balance(book, from) && Balance(book, to) + amount <= U128_MAX
    then Accept(amount) else Reject
  }

  predicate Transferable(book: Book, from: AccountId, to: AccountId, amount: u128) {
    && from != to && from in book && to in book
    && amount <= book[from].balance && book[to].balance + amount <= U128_MAX
  }

  function Transferred(book: Book, from: AccountId, to: AccountId, amount: u128): Book
    requires Transferable(book, from, to, amount)
  {
    book[from := Entry(book[from].balance - amount, WrappingAdd(book[from].nonce, 1))]
        [to := Entry(book[to].balance + amount, book[to].nonce)]
  }

  /** Collecting the genesis list: the last entry of an id wins, every nonce starts at zero. */
  function BookOf(accounts: seq<(AccountId, u128)>): Book {
    if accounts == [] then map[]
    else BookOf(accounts[..|accounts| - 1])[accounts[|accounts| - 1].0 := Entry(accounts[|accounts| - 1].1, 0)]
  }

  class Model {
    var accounts: Book

    constructor (init: seq<(AccountId, u128)>)
      ensures accounts == BookOf(init)
    {
      var book: Book := map[];
      for i := 0 to |init|
        invariant book == BookOf(init[..i])
      {
        assert init[..i + 1][..i] == init[..i];
        book := book[init[i].0 := Entry(init[i].1, 0)];
      }
      assert init[..|init|] == init;
      accounts := book;
    }

    method Predict(from: AccountId, to: AccountId, declaredNonce: u128, amount: u128) returns (p: Prediction)
      ensures p == Predicted(accounts, from, to, declaredNonce, amount)
    {
      if declaredNonce != Nonce(accounts, from) {
        return Reject;
      }
      if amount > Balance(accounts, from) {
        return Reject;
      }
      if CheckedAdd(Balance(accounts, to), amount).None? {
        return Reject;
      }
      p := Accept(amount);
    }

    method ApplyTransfer(from: AccountId, to: AccountId, amount: u128)
      requires Transferable(accounts, from, to, amount)
      modifies this
      ensures accounts == Transferred(old(accounts), from, to, amount)
    {
      var payer, payee := accounts[from], accounts[to];
      accounts := accounts[from := Entry(payer.balance - amount, WrappingAdd(payer.nonce, 1))];
      accounts := accounts[to := Entry(payee.balance + amount, payee.nonce)];
    }
  }

  // ---------- The command grammar ----------

  datatype NonceKind = Correct | Off(delta: u8) | RawNonce(nonce: u128)
  datatype AmountKind = Zero | WithinBalance(raw: u128) | All | Excessive(raw: u128) | RawAmount(amount: u128)

  datatype Command =
    | Transfer(from: u8, to: u8, nonce: NonceKind, amount: AmountKind)
    | AdvanceBlock(jump: u8)
    | ReplayLast

  function ResolveRecipient(raw: nat, fromIdx: nat, len: nat): (r: nat)
    requires len >= 2 && fromIdx < len
    ensures r < len && r != fromIdx
  {
    var offset := 1 + Mod(raw, len - 1);
    Wrap(fromIdx + offset, len)
  }

  /** Remainder of a value below twice the modulus. */
  function Wrap(x: nat, len: nat): (r: nat)
    requires len > 0 && x < 2 * len
    ensures r == if x < len then x else x - len
  {
    if x >= len then
      ModOnce(x, len);
      x % len
    else x % len
  }

  lemma ModOnce(x: nat, len: nat)
    requires 0 < len <= x < 2 * len
    ensures x % len == x - len
  {}

  function ResolveNonce(kind: NonceKind, current: u128): u128 {
    match kind
    case Correct => current
    case Off(d) => WrappingAdd(current, if d >= 1 then d else 1)
    case RawNonce(n) => n
  }

  function ResolveAmount(kind: AmountKind, balance: u128): u128 {
    match kind
    case Zero => 0
    case WithinBalance(raw) => Mod(raw, SaturatingAdd(balance, 1))
    case All => balance
    case Excessive(raw) => SaturatingAdd(SaturatingAdd(balance, 1), Mod(raw, 1024))
    case RawAmount(n) => n
  }

  // ---------- A schedule, as the model sees it ----------

  datatype Sent = Sent(from: AccountId, to: AccountId, nonce: u128, amount: u128)

  datatype Lock = Lock(book: Book, blockId: u64, timestamp: u64, last: Option<Sent>)

  function Start(accs: seq<FuzzAccount>): Lock {
    Lock(BookOf(InitAccs(accs)), 1, 0, None)
  }

  /** At least two accounts with distinct ids, all of them in the book. */
  ghost predicate Covers(accs: seq<FuzzAccount>, book: Book) {
    && |accs| >= 2 && Distinct(Ids(accs))
    && forall a :: a in accs ==> a.accountId in book
  }

  function Resolve(accs: seq<FuzzAccount>, book: Book, cmd: Command): (t: Sent)
    requires cmd.Transfer? && |accs| >= 2
  {
    var fromIdx := Mod(cmd.from, |accs|);
    var toIdx := ResolveRecipient(cmd.to, fromIdx, |accs|);
    var from, to := accs[fromIdx].accountId, accs[toIdx].accountId;
    Sent(from, to, ResolveNonce(cmd.nonce, Nonce(book, from)), ResolveAmount(cmd.amount, Balance(book, from)))
  }

  function PredictedFor(book: Book, t: Sent): Prediction {
    Predicted(book, t.from, t.to, t.nonce, t.amount)
  }

  lemma ResolvedIsTransferable(accs: seq<FuzzAccount>, book: Book, cmd: Command)
    requires cmd.Transfer? && Covers(accs, book)
    ensures var t := Resolve(accs, book, cmd);
      && t.from != t.to && t.from in book && t.to in book
      && t.from in Ids(accs) && t.to in Ids(accs)
      && (PredictedFor(book, t).Accept? ==> Transferable(book, t.from, t.to, t.amount))
  {}

  function Tick(l: Lock, n: nat): Lock
    requires n <= 256
  {
    l.(blockId := WrappingAdd64(l.blockId, n), timestamp := WrappingAdd64(l.timestamp, 1000 * n))
  }

  /** One command applied to the model. */
  ghost function StepOf(accs: seq<FuzzAccount>, l: Lock, cmd: Command): (r: Lock)
    requires Covers(accs, l.book)
    ensures r.book.Keys == l.book.Keys && Covers(accs, r.book)
  {
    match cmd
    case AdvanceBlock(jump) => Tick(l, 1 + jump)
    case ReplayLast => if l.last.None? then l else Tick(l, 1)
    case Transfer(_, _, _, _) =>
      var t := Resolve(accs, l.book, cmd);
      ResolvedIsTransferable(accs, l.book, cmd);
      if PredictedFor(l.book, t).Accept?
      then Tick(l.(book := Transferred(l.book, t.from, t.to, t.amount), last := Some(t)), 1)
      else Tick(l, 1)
  }

  // ---------- The comparison ----------

  /** What the machine under test reported for one command, and the accounts it then held. */
  datatype Observation = Observation(accepted: bool, after: Accounts)

  /** ModelStateAgreement. */
  ghost predicate Agrees(book: Book, accounts: Accounts) {
    forall id :: id in book ==>
      Get(accounts, id).balance == book[id].balance && Get(accounts, id).nonce == book[id].nonce
  }

  ghost predicate ObservationOk(accs: seq<FuzzAccount>, l: Lock, cmd: Command, o: Observation)
    requires Covers(accs, l.book)
  {
    match cmd
    case AdvanceBlock(_) => Agrees(l.book, o.after)
    case ReplayLast => l.last.None? || (!o.accepted && Agrees(l.book, o.after))
    case Transfer(_, _, _, _) =>
      && (o.accepted <==> PredictedFor(l.book, Resolve(accs, l.book, cmd)).Accept?)
      && Agrees(StepOf(accs, l, cmd).book, o.after)
  }

  ghost predicate LockstepPasses(accs: seq<FuzzAccount>, l: Lock, cmds: seq<Command>, observed: seq<Observation>)
    requires Covers(accs, l.book) && |observed| == |cmds|
    decreases |cmds|
  {
    cmds == [] ||
    (ObservationOk(accs, l, cmds[0], observed[0])
     && LockstepPasses(accs, StepOf(accs, l, cmds[0]), cmds[1..], observed[1..]))
  }

  method AssertStateAgreement(accounts: Accounts, model: Model) returns (ok: bool)
    ensures ok <==> Agrees(model.accounts, accounts)
  {
    var left := model.accounts.Keys;
    while left != {}
      invariant left <= model.accounts.Keys
      invariant forall id :: id in model.accounts && id !in left ==>
        Get(accounts, id).balance == model.accounts[id].balance && Get(accounts, id).nonce == model.accounts[id].nonce
    {
      var id :| id in left;
      var account := Get(accounts, id);
      if account.balance != model.accounts[id].balance || account.nonce != model.accounts[id].nonce {
        return false;
      }
      left := left - {id};
    }
    ok := true;
  }

  datatype Verdict = Dropped | Passed | Violation(step: nat)

  /**
   * The comparing loop.  The verdict is that of the declarative agreement of the observed run with
   * the model, command by command.
   */
  method RunLockstep(accs: seq<FuzzAccount>, cmds: seq<Command>, observed: seq<Observation>) returns (v: Verdict)
    requires |observed| == |cmds| && Distinct(Ids(accs))
    ensures v.Dropped? <==> |accs| < 2
    ensures |accs| >= 2 ==> Covers(accs, Start(accs).book)
    ensures |accs| >= 2 ==> (v.Passed? <==> LockstepPasses(accs, Start(accs), cmds, observed))
  {
    if |accs| < 2 {
      return Dropped;
    }
    StartCovers(accs);
    var model := new Model(InitAccs(accs));
    var blockId: u64, timestamp: u64 := 1, 0;
    var last: Option<Sent> := None;
    for i := 0 to |cmds|
      invariant fresh(model)
      invariant Covers(accs, model.accounts)
      invariant LockstepPasses(accs, Start(accs), cmds, observed)
            <==> LockstepPasses(accs, Lock(model.accounts, blockId, timestamp, last), cmds[i..], observed[i..])
    {
      ghost var l := Lock(model.accounts, blockId, timestamp, last);
      assert cmds[i..][1..] == cmds[i + 1..] && observed[i..][1..] == observed[i + 1..];
      var cmd, o := cmds[i], observed[i];
      var ok;
      match cmd {
        case AdvanceBlock(jump) =>
          blockId := WrappingAdd64(blockId, 1 + jump);
          timestamp := WrappingAdd64(timestamp, 1000 * (1 + jump));
          ok := AssertStateAgreement(o.after, model);
        case ReplayLast =>
          if last.None? { continue; }
          if o.accepted { return Violation(i); }
          blockId := WrappingAdd64(blockId, 1);
          timestamp := WrappingAdd64(timestamp, 1000);
          ok := AssertStateAgreement(o.after, model);
        case Transfer(_, _, _, _) =>
          var t := Resolve(accs, model.accounts, cmd);
          ResolvedIsTransferable(accs, model.accounts, cmd);
          var prediction := model.Predict(t.from, t.to, t.nonce, t.amount);
          if o.accepted != prediction.Accept? { return Violation(i); }
          if prediction.Accept? {
            model.ApplyTransfer(t.from, t.to, prediction.amount);
            last := Some(t);
          }
          blockId := WrappingAdd64(blockId, 1);
          timestamp := WrappingAdd64(timestamp, 1000);
          ok := AssertStateAgreement(o.after, model);
      }
      assert StepOf(accs, l, cmd) == Lock(model.accounts, blockId, timestamp, last);
      if !ok { return Violation(i); }
    }
    v := Passed;
  }

  lemma {:induction false} BookOfKeys(accounts: seq<(AccountId, u128)>)
    ensures BookOf(accounts).Keys == AsSet(Firsts(accounts))
  {
    if accounts != [] {
      var prefix := accounts[..|accounts| - 1];
      BookOfKeys(prefix);
      assert Firsts(accounts) == Firsts(prefix) + [accounts[|accounts| - 1].0];
    }
  }

  lemma StartCovers(accs: seq<FuzzAccount>)
    requires |accs| >= 2 && Distinct(Ids(accs))
    ensures Covers(accs, Start(accs).book)
  {
    BookOfKeys(InitAccs(accs));
    forall a | a in accs ensures a.accountId in Start(accs).book {
      var i :| 0 <= i < |accs| && accs[i] == a;
      assert Firsts(InitAccs(accs))[i] == a.accountId;
    }
  }
}
