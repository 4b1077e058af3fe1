/** When the order of transactions matters: conflicting lists, and lists that commute. */
module Ordering {
  import opened Integers
  import opened Identity
  import opened Protocol
  import opened Runs

  /** The transactions of one block: all submitted at the same clock. */
  function Block(txs: seq<Tx>, block: u64, timestamp: u64): (subs: seq<Submission>)
    ensures |subs| == |txs|
    ensures forall i :: 0 <= i < |txs| ==> subs[i] == Submission(txs[i], block, timestamp)
  {
    if txs == [] then [] else [Submission(txs[0], block, timestamp)] + Block(txs[1..], block, timestamp)
  }

  // ---------- Conflicting transactions ----------

  /** Any two different members declare a common nullifier. */
  ghost predicate Conflicting(txs: seq<Tx>) {
    forall x, y :: x in txs && y in txs && x != y ==> NullifiersOf(x) * NullifiersOf(y) != {}
  }

  function FirstAcceptable(env: Env, s: State, txs: seq<Tx>, block: u64, timestamp: u64): seq<Tx> {
    if txs == [] then []
    else if Accepts(env, s, txs[0], block, timestamp) then [txs[0]]
    else FirstAcceptable(env, s, txs[1..], block, timestamp)
  }

  lemma {:induction false} AllRejected(env: Env, s: State, txs: seq<Tx>, block: u64, timestamp: u64)
    requires forall t :: t in txs ==> !Accepts(env, s, t, block, timestamp)
    ensures Accepted(env, s, Block(txs, block, timestamp)) == []
  {
    if txs != [] {
      AllRejected(env, s, txs[1..], block, timestamp);
      assert Block(txs, block, timestamp)[1..] == Block(txs[1..], block, timestamp);
    }
  }

  lemma ConflictBlocks(env: Env, s: State, a: Tx, t: Tx, block: u64, timestamp: u64)
    requires Accepts(env, s, a, block, timestamp)
    requires t == a || NullifiersOf(a) * NullifiersOf(t) != {}
    ensures !Accepts(env, Execute(env, s, a, block, timestamp), t, block, timestamp)
  {
    var next := Execute(env, s, a, block, timestamp);
    if t == a {
      AcceptedOnlyOnce(env, s, Submission(a, block, timestamp), [], block, timestamp);
    } else {
      ExecuteEffect(env, s, a, block, timestamp);
      var n :| n in NullifiersOf(a) * NullifiersOf(t);
      SpentNullifierBlocks(env, next, t, n, block, timestamp);
    }
  }

  /** First come, first served: of conflicting transactions exactly the first acceptable one is accepted. */
  lemma {:induction false} FirstComeFirstServed(env: Env, s: State, txs: seq<Tx>, block: u64, timestamp: u64)
    requires Conflicting(txs)
    ensures Accepted(env, s, Block(txs, block, timestamp)) == FirstAcceptable(env, s, txs, block, timestamp)
  {
    if txs != [] {
      var a, rest := txs[0], txs[1..];
      assert Block(txs, block, timestamp)[1..] == Block(rest, block, timestamp);
      if Accepts(env, s, a, block, timestamp) {
        var next := Execute(env, s, a, block, timestamp);
        forall t | t in rest ensures !Accepts(env, next, t, block, timestamp) {
          ConflictBlocks(env, s, a, t, block, timestamp);
        }
        AllRejected(env, next, rest, block, timestamp);
      } else {
        FirstComeFirstServed(env, s, rest, block, timestamp);
      }
    }
  }

  lemma {:induction false} FirstAcceptableCount(env: Env, s: State, txs: seq<Tx>, block: u64, timestamp: u64)
    ensures |FirstAcceptable(env, s, txs, block, timestamp)|
         == if exists t :: t in txs && Accepts(env, s, t, block, timestamp) then 1 else 0
  {
    if txs != [] {
      FirstAcceptableCount(env, s, txs[1..], block, timestamp);
      assert forall t :: t in txs <==> t == txs[0] || t in txs[1..];
    }
  }

  /**
   * OrderIndependentAcceptance and NoDoubleSpend for lists of any length: of conflicting
   * transactions one is accepted if any is acceptable in the base state, none otherwise, and that
   * count is the same for every permutation.
   */
  lemma {:induction false} ConflictingAcceptanceIsOrderIndependent(
    env: Env, s: State, txs: seq<Tx>, permuted: seq<Tx>, block: u64, timestamp: u64)
    requires Conflicting(txs) && multiset(txs) == multiset(permuted)
    ensures var n := |Accepted(env, s, Block(txs, block, timestamp))|;
      && n == (if exists t :: t in txs && Accepts(env, s, t, block, timestamp) then 1 else 0)
      && n == |Accepted(env, s, Block(permuted, block, timestamp))|
  {
    assert forall t :: t in permuted <==> t in multiset(permuted);
    assert forall t :: t in txs <==> t in multiset(txs);
    FirstComeFirstServed(env, s, txs, block, timestamp);
    FirstComeFirstServed(env, s, permuted, block, timestamp);
    FirstAcceptableCount(env, s, txs, block, timestamp);
    FirstAcceptableCount(env, s, permuted, block, timestamp);
  }

  // ---------- Independent transactions ----------

  /** The accounts that a transaction reads or writes. */
  function Footprint(tx: Tx): set<AccountId> {
    match tx
    case Transfer(from, to, _, _) => {from, to}
    case Private(m, signers, _) => (set x | x in signers) + (set x | x in PublicIds(m))
  }

  ghost predicate Independent(a: Tx, b: Tx) {
    && Footprint(a) !! Footprint(b)
    && NullifiersOf(a) !! NullifiersOf(b)
    && (forall c :: c in CommitmentsOf(a) ==> c !in CommitmentsOf(b))
  }

  /** The roots that the nullifiers of a transaction are bound to. */
  function RootsOf(tx: Tx): set<Root> {
    if tx.Private? then set x | x in tx.message.privateActions :: x.root else {}
  }

  /** To `tx`, state `t` looks like `s`: they agree on all that its validation reads. */
  ghost predicate LooksAlike(s: State, t: State, tx: Tx) {
    && (forall id :: id in Footprint(tx) ==> Get(t.accounts, id) == Get(s.accounts, id))
    && t.programs == s.programs
    && (forall r :: r in RootsOf(tx) ==> (r in t.rootHistory <==> r in s.rootHistory))
    && (forall n :: n in NullifiersOf(tx) ==> (n in t.spent <==> n in s.spent))
    && (forall c :: c in CommitmentsOf(tx) ==> (c in t.commitments <==> c in s.commitments))
  }

  lemma {:induction false} SettleFrame(env: Env, a: Accounts, b: Accounts, actions: seq<PublicAction>)
    requires forall x :: x in actions ==> Get(a, x.accountId) == Get(b, x.accountId)
    ensures Settle(env, a, actions) == Settle(env, b, actions)
    ensures var r := Settle(env, a, actions);
      r.Some? ==> forall id :: id in r.value ==> exists i :: 0 <= i < |actions| && actions[i].accountId == id
  {
    if actions != [] {
      SettleFrame(env, a, b, actions[1..]);
    }
  }

  lemma FreshnessFrame(s: State, t: State, tx: Tx)
    requires tx.Private? && LooksAlike(s, t, tx)
    ensures CommitmentsNew(t, tx.message) == CommitmentsNew(s, tx.message)
    ensures NullifiersValid(t, tx.message) == NullifiersValid(s, tx.message)
  {
    var m := tx.message;
    forall x | x in m.privateActions
      ensures x.commitment in t.commitments <==> x.commitment in s.commitments
      ensures x.nullifier in t.spent <==> x.nullifier in s.spent
      ensures x.root in t.rootHistory <==> x.root in s.rootHistory
    {
      var i :| 0 <= i < |m.privateActions| && m.privateActions[i] == x;
      assert Commitments(m)[i] in CommitmentsOf(tx);
      assert Nullifiers(m)[i] in NullifiersOf(tx);
      assert x.root in RootsOf(tx);
    }
  }

  lemma AccountsFrame(env: Env, s: State, t: State, tx: Tx)
    requires tx.Private? && LooksAlike(s, t, tx)
    ensures Settle(env, t.accounts, tx.message.publicActions) == Settle(env, s.accounts, tx.message.publicActions)
    ensures NoncesMatch(t.accounts, tx.message.nonces, tx.signers)
         == NoncesMatch(s.accounts, tx.message.nonces, tx.signers)
    ensures NoncesCanAdvance(t.accounts, tx.signers) == NoncesCanAdvance(s.accounts, tx.signers)
  {
    var m := tx.message;
    forall x | x in m.publicActions ensures Get(s.accounts, x.accountId) == Get(t.accounts, x.accountId) {
      var i :| 0 <= i < |m.publicActions| && m.publicActions[i] == x;
      assert PublicIds(m)[i] in PublicIds(m);
    }
    SettleFrame(env, s.accounts, t.accounts, m.publicActions);
  }

  /** In any state that looks alike a transaction validates to the very same outcome, diff or reason. */
  lemma ValidateFrame(env: Env, s: State, t: State, tx: Tx, block: u64, timestamp: u64)
    requires LooksAlike(s, t, tx)
    ensures Validate(env, t, tx, block, timestamp) == Validate(env, s, tx, block, timestamp)
  {
    if tx.Private? {
      FreshnessFrame(s, t, tx);
      AccountsFrame(env, s, t, tx);
    }
  }

  /** A diff writes inside the footprint of its transaction only. */
  lemma DiffWithinFootprint(env: Env, s: State, tx: Tx, block: u64, timestamp: u64)
    requires Accepts(env, s, tx, block, timestamp)
    ensures var diff := Validate(env, s, tx, block, timestamp).diff;
      diff.publicDiff.Keys <= Footprint(tx) && forall x :: x in diff.signers ==> x in Footprint(tx)
  {
    if tx.Private? {
      var m := tx.message;
      SettleFrame(env, s.accounts, s.accounts, m.publicActions);
      forall id | id in Validate(env, s, tx, block, timestamp).diff.publicDiff ensures id in Footprint(tx) {
        var i :| 0 <= i < |m.publicActions| && m.publicActions[i].accountId == id;
        assert PublicIds(m)[i] == id;
      }
    }
  }

  /** Accounts outside the footprint keep their value. */
  lemma ExecuteOutsideFootprint(env: Env, s: State, tx: Tx, block: u64, timestamp: u64, id: AccountId)
    requires id !in Footprint(tx)
    ensures Get(Execute(env, s, tx, block, timestamp).accounts, id) == Get(s.accounts, id)
  {
    if Accepts(env, s, tx, block, timestamp) {
      ValidIsApplicable(env, s, tx, block, timestamp);
      DiffWithinFootprint(env, s, tx, block, timestamp);
    }
  }

  /** Inside the footprint, executing in a state that looks alike gives the same accounts. */
  lemma {:induction false} ExecuteInsideFootprint(env: Env, s: State, t: State, tx: Tx, block: u64, timestamp: u64,
                                                  id: AccountId)
    requires LooksAlike(s, t, tx) && id in Footprint(tx)
    ensures Get(Execute(env, t, tx, block, timestamp).accounts, id)
         == Get(Execute(env, s, tx, block, timestamp).accounts, id)
  {
    ValidateFrame(env, s, t, tx, block, timestamp);
    if Accepts(env, s, tx, block, timestamp) {
      ValidIsApplicable(env, s, tx, block, timestamp);
      ValidIsApplicable(env, t, tx, block, timestamp);
      var diff := Validate(env, s, tx, block, timestamp).diff;
      assert Get(s.accounts + diff.publicDiff, id) == Get(t.accounts + diff.publicDiff, id);
      assert id !in diff.signers ==> multiset(diff.signers)[id] == 0;
    }
  }

  /** Of an acceptable transaction every root is known already. */
  lemma AcceptedKnowsRoots(env: Env, s: State, tx: Tx, block: u64, timestamp: u64)
    requires Accepts(env, s, tx, block, timestamp)
    ensures RootsOf(tx) <= s.rootHistory
  {}

  /** Executing `a` is invisible to an independent `b`, unless it records a root that `b` was waiting for. */
  lemma IndependentLooksAlike(env: Env, s: State, a: Tx, b: Tx, block: u64, timestamp: u64)
    requires Independent(a, b)
    requires RootsOf(b) * Execute(env, s, a, block, timestamp).rootHistory <= s.rootHistory
    ensures LooksAlike(s, Execute(env, s, a, block, timestamp), b)
  {
    if Accepts(env, s, a, block, timestamp) {
      ExecuteEffect(env, s, a, block, timestamp);
    }
    forall id | id in Footprint(b)
      ensures Get(Execute(env, s, a, block, timestamp).accounts, id) == Get(s.accounts, id)
    {
      ExecuteOutsideFootprint(env, s, a, block, timestamp, id);
    }
  }

  ghost predicate AllIndependent(txs: seq<Tx>) {
    && Distinct(txs)
    && forall x, y :: x in txs && y in txs && x != y ==> Independent(x, y)
  }

  ghost predicate AllAcceptable(env: Env, s: State, txs: seq<Tx>, block: u64, timestamp: u64) {
    forall x :: x in txs ==> Accepts(env, s, x, block, timestamp)
  }

  /** Each account ends as the one transaction that touches it leaves it, or unchanged. */
  ghost predicate AccountsComposed(env: Env, s: State, txs: seq<Tx>, end: State, block: u64, timestamp: u64) {
    && (forall x, id :: x in txs && id in Footprint(x) ==>
          Get(end.accounts, id) == Get(Execute(env, s, x, block, timestamp).accounts, id))
    && (forall id :: (forall x :: x in txs ==> id !in Footprint(x)) ==>
          Get(end.accounts, id) == Get(s.accounts, id))
  }

  /** Executing `x` from either state leaves the same accounts inside its footprint. */
  ghost predicate SameOutcome(env: Env, s: State, t: State, x: Tx, block: u64, timestamp: u64) {
    var left, right := Execute(env, s, x, block, timestamp), Execute(env, t, x, block, timestamp);
    forall id :: id in Footprint(x) ==> Get(left.accounts, id) == Get(right.accounts, id)
  }

  lemma StillAcceptable(env: Env, s: State, txs: seq<Tx>, block: u64, timestamp: u64)
    requires txs != [] && AllIndependent(txs) && AllAcceptable(env, s, txs, block, timestamp)
    ensures var next := Execute(env, s, txs[0], block, timestamp);
      && AllIndependent(txs[1..])
      && AllAcceptable(env, next, txs[1..], block, timestamp)
      && (forall x :: x in txs[1..] ==> SameOutcome(env, s, next, x, block, timestamp))
      && (forall x :: x in txs[1..] ==> Footprint(txs[0]) !! Footprint(x))
  {
    var next := Execute(env, s, txs[0], block, timestamp);
    forall x | x in txs[1..]
      ensures Accepts(env, next, x, block, timestamp)
      ensures Footprint(txs[0]) !! Footprint(x)
      ensures SameOutcome(env, s, next, x, block, timestamp)
    {
      assert x in txs && x != txs[0];
      AcceptedKnowsRoots(env, s, x, block, timestamp);
      IndependentLooksAlike(env, s, txs[0], x, block, timestamp);
      ValidateFrame(env, s, next, x, block, timestamp);
      forall id | id in Footprint(x) {
        ExecuteInsideFootprint(env, s, next, x, block, timestamp, id);
      }
    }
  }

  /** Independent transactions that are each acceptable in the base state are all accepted, in any order. */
  lemma {:induction false} IndependentAllAccepted(env: Env, s: State, txs: seq<Tx>, block: u64, timestamp: u64)
    requires AllIndependent(txs) && AllAcceptable(env, s, txs, block, timestamp)
    ensures Accepted(env, s, Block(txs, block, timestamp)) == txs
    ensures AccountsComposed(env, s, txs, Run(env, s, Block(txs, block, timestamp)), block, timestamp)
    decreases |txs|
  {
    if txs != [] {
      var next, rest := Execute(env, s, txs[0], block, timestamp), txs[1..];
      assert Block(txs, block, timestamp)[1..] == Block(rest, block, timestamp);
      StillAcceptable(env, s, txs, block, timestamp);
      IndependentAllAccepted(env, next, rest, block, timestamp);
      ComposeOne(env, s, txs, Run(env, next, Block(rest, block, timestamp)), block, timestamp);
    }
  }

  lemma ComposeOne(env: Env, s: State, txs: seq<Tx>, end: State, block: u64, timestamp: u64)
    requires txs != []
    requires var next := Execute(env, s, txs[0], block, timestamp);
      && AccountsComposed(env, next, txs[1..], end, block, timestamp)
      && (forall x :: x in txs[1..] ==> SameOutcome(env, s, next, x, block, timestamp))
      && (forall x :: x in txs[1..] ==> Footprint(txs[0]) !! Footprint(x))
    ensures AccountsComposed(env, s, txs, end, block, timestamp)
  {
    var next := Execute(env, s, txs[0], block, timestamp);
    forall id | forall x :: x in txs[1..] ==> id !in Footprint(x)
      ensures Get(end.accounts, id) == Get(next.accounts, id)
    {}
    forall x, id | x in txs && id in Footprint(x)
      ensures Get(end.accounts, id) == Get(Execute(env, s, x, block, timestamp).accounts, id)
    {
      if x in txs[1..] {
        assert SameOutcome(env, s, next, x, block, timestamp);
      } else {
        assert x == txs[0];
      }
    }
    forall id | forall x :: x in txs ==> id !in Footprint(x)
      ensures Get(end.accounts, id) == Get(s.accounts, id)
    {
      assert txs[0] in txs;
      ExecuteOutsideFootprint(env, s, txs[0], block, timestamp, id);
    }
  }

  /** Equal except for the order of the commitment leaves and the recorded roots. */
  ghost predicate ObservablyEqual(a: State, b: State) {
    && (forall id :: Get(a.accounts, id) == Get(b.accounts, id))
    && a.spent == b.spent
    && (forall c :: c in a.commitments <==> c in b.commitments)
    && a.programs == b.programs
  }

  lemma {:induction false} CommittedByMembers(txs: seq<Tx>, c: Commitment)
    ensures c in CommittedBy(txs) <==> exists x :: x in txs && c in CommitmentsOf(x)
  {
    if txs != [] {
      CommittedByMembers(txs[1..], c);
      assert forall x :: x in txs <==> x == txs[0] || x in txs[1..];
    }
  }

  lemma SpentByMembers(txs: seq<Tx>, n: Nullifier)
    ensures n in SpentBy(txs) <==> exists x :: x in txs && n in NullifiersOf(x)
  {}

  /**
   * Independent transactions, public or shielded, commute: every permutation accepts all of them
   * and ends in states that differ only in leaf order and root history.
   */
  lemma IndependentCommute(env: Env, s: State, txs: seq<Tx>, permuted: seq<Tx>, block: u64, timestamp: u64)
    requires AllIndependent(txs) && AllAcceptable(env, s, txs, block, timestamp)
    requires multiset(txs) == multiset(permuted)
    ensures Accepted(env, s, Block(txs, block, timestamp)) == txs
    ensures Accepted(env, s, Block(permuted, block, timestamp)) == permuted
    ensures ObservablyEqual(Run(env, s, Block(txs, block, timestamp)), Run(env, s, Block(permuted, block, timestamp)))
  {
    SameMembers(txs, permuted);
    IndependentAllAccepted(env, s, txs, block, timestamp);
    IndependentAllAccepted(env, s, permuted, block, timestamp);
    RunIsComposed(env, s, txs, block, timestamp);
    RunIsComposed(env, s, permuted, block, timestamp);
    SameComposition(env, s, txs, permuted, Run(env, s, Block(txs, block, timestamp)),
                    Run(env, s, Block(permuted, block, timestamp)), block, timestamp);
  }

  lemma SameMembers(txs: seq<Tx>, permuted: seq<Tx>)
    requires multiset(txs) == multiset(permuted) && Distinct(txs)
    ensures forall x :: x in txs <==> x in permuted
    ensures Distinct(permuted)
  {
    assert forall t :: t in permuted <==> t in multiset(permuted);
    assert forall t :: t in txs <==> t in multiset(txs);
    DistinctMultiplicity(txs);
    MultiplicityDistinct(permuted);
  }

  lemma {:induction false} DistinctMultiplicity<T>(s: seq<T>)
    requires Distinct(s)
    ensures forall x :: multiset(s)[x] <= 1
  {
    if s != [] {
      DistinctMultiplicity(s[1..]);
      assert s == [s[0]] + s[1..];
      assert s[0] !in s[1..];
    }
  }

  lemma MultiplicityDistinct<T>(s: seq<T>)
    requires forall x :: multiset(s)[x] <= 1
    ensures Distinct(s)
  {
    forall i, j | 0 <= i < j < |s| ensures s[i] != s[j] {
      assert s == s[..j] + s[j..];
      assert s[i] in multiset(s[..j]) && s[j] in multiset(s[j..]);
      assert multiset(s)[s[j]] == multiset(s[..j])[s[j]] + multiset(s[j..])[s[j]];
    }
  }

  /** The whole outcome of accepting all of `txs`, said without any order. */
  ghost predicate Composed(env: Env, s: State, txs: seq<Tx>, end: State, block: u64, timestamp: u64) {
    && AccountsComposed(env, s, txs, end, block, timestamp)
    && end.spent == s.spent + SpentBy(txs)
    && end.commitments == s.commitments + CommittedBy(txs)
    && end.programs == s.programs
  }

  lemma RunIsComposed(env: Env, s: State, txs: seq<Tx>, block: u64, timestamp: u64)
    requires Accepted(env, s, Block(txs, block, timestamp)) == txs
    requires AccountsComposed(env, s, txs, Run(env, s, Block(txs, block, timestamp)), block, timestamp)
    ensures Composed(env, s, txs, Run(env, s, Block(txs, block, timestamp)), block, timestamp)
  {
    var subs := Block(txs, block, timestamp);
    SpentSetIsAccounted(env, s, subs);
    CommitmentTreeIsAppendOnly(env, s, subs);
    RunKeepsRootsAndPrograms(env, s, subs);
  }

  lemma SameComposition(
    env: Env, s: State, txs: seq<Tx>, permuted: seq<Tx>, end1: State, end2: State, block: u64, timestamp: u64)
    requires forall x :: x in txs <==> x in permuted
    requires Composed(env, s, txs, end1, block, timestamp) && Composed(env, s, permuted, end2, block, timestamp)
    ensures ObservablyEqual(end1, end2)
  {
    forall n ensures n in SpentBy(txs) <==> n in SpentBy(permuted) {
      SpentByMembers(txs, n);
      SpentByMembers(permuted, n);
    }
    forall c ensures c in end1.commitments <==> c in end2.commitments {
      CommittedByMembers(txs, c);
      CommittedByMembers(permuted, c);
    }
    forall id ensures Get(end1.accounts, id) == Get(end2.accounts, id) {
      SameAccount(env, s, txs, permuted, end1, end2, block, timestamp, id);
    }
  }

  lemma SameAccount(env: Env, s: State, txs: seq<Tx>, permuted: seq<Tx>, end1: State, end2: State,
                    block: u64, timestamp: u64, id: AccountId)
    requires forall x :: x in txs <==> x in permuted
    requires AccountsComposed(env, s, txs, end1, block, timestamp)
    requires AccountsComposed(env, s, permuted, end2, block, timestamp)
    ensures Get(end1.accounts, id) == Get(end2.accounts, id)
  {
    if x :| x in txs && id in Footprint(x) {
      assert x in permuted;
    }
  }
}
