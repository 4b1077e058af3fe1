/**
 * Reordering whole runs: neighbours that are independent may change places, whether they are
 * accepted or rejected, whatever their clocks, and whatever runs before and after them.
 */
module Swaps {
  import opened Integers
  import opened Identity
  import opened Protocol
  import opened Runs
  import opened Ordering
  import opened Privacy
  import opened Builders

  function After(env: Env, s: State, x: Submission): State {
    Execute(env, s, x.tx, x.block, x.timestamp)
  }

  predicate Passes(env: Env, s: State, x: Submission) {
    Accepts(env, s, x.tx, x.block, x.timestamp)
  }

  /**
   * Before or after an independent transaction, accepted or not, a transaction meets the same fate,
   * down to the reason of a rejection; only a root that the first one records could change it.
   */
  lemma SameFate(env: Env, s: State, x: Submission, y: Submission)
    requires Independent(x.tx, y.tx) && RootsOf(y.tx) * After(env, s, x).rootHistory <= s.rootHistory
    ensures Validate(env, After(env, s, x), y.tx, y.block, y.timestamp)
         == Validate(env, s, y.tx, y.block, y.timestamp)
    ensures Passes(env, After(env, s, x), y) <==> Passes(env, s, y)
  {
    IndependentLooksAlike(env, s, x.tx, y.tx, x.block, x.timestamp);
    ValidateFrame(env, s, After(env, s, x), y.tx, y.block, y.timestamp);
  }

  /** What an execution adds, accepted or not. */
  lemma Adds(env: Env, s: State, x: Submission)
    ensures var next := After(env, s, x);
      && next.spent == s.spent + (if Passes(env, s, x) then NullifiersOf(x.tx) else {})
      && next.commitments == s.commitments + (if Passes(env, s, x) then CommitmentsOf(x.tx) else [])
      && next.programs == s.programs && s.rootHistory <= next.rootHistory
  {
    if Passes(env, s, x) {
      ExecuteEffect(env, s, x.tx, x.block, x.timestamp);
    }
  }

  lemma SwapAccounts(env: Env, s: State, x: Submission, y: Submission, id: AccountId)
    requires Independent(x.tx, y.tx) && id !in Footprint(y.tx)
    requires RootsOf(x.tx) * After(env, s, y).rootHistory <= s.rootHistory
    ensures Get(After(env, After(env, s, x), y).accounts, id) == Get(After(env, s, x).accounts, id)
    ensures Get(After(env, After(env, s, y), x).accounts, id) == Get(After(env, s, x).accounts, id)
  {
    ExecuteOutsideFootprint(env, After(env, s, x), y.tx, y.block, y.timestamp, id);
    if id in Footprint(x.tx) {
      IndependentLooksAlike(env, s, y.tx, x.tx, y.block, y.timestamp);
      ExecuteInsideFootprint(env, s, After(env, s, y), x.tx, x.block, x.timestamp, id);
    } else {
      ExecuteOutsideFootprint(env, s, x.tx, x.block, x.timestamp, id);
      ExecuteOutsideFootprint(env, s, y.tx, y.block, y.timestamp, id);
      ExecuteOutsideFootprint(env, After(env, s, y), x.tx, x.block, x.timestamp, id);
    }
  }

  /** Two independent submissions in either order: the same fates and observably equal states. */
  lemma SwapTwo(env: Env, s: State, x: Submission, y: Submission)
    requires Independent(x.tx, y.tx) && RootsOf(x.tx) + RootsOf(y.tx) <= s.rootHistory
    ensures Passes(env, After(env, s, x), y) <==> Passes(env, s, y)
    ensures Passes(env, After(env, s, y), x) <==> Passes(env, s, x)
    ensures ObservablyEqual(After(env, After(env, s, x), y), After(env, After(env, s, y), x))
  {
    SameFate(env, s, x, y);
    SameFate(env, s, y, x);
    Adds(env, s, x);
    Adds(env, s, y);
    Adds(env, After(env, s, x), y);
    Adds(env, After(env, s, y), x);
    forall id
      ensures Get(After(env, After(env, s, x), y).accounts, id) == Get(After(env, After(env, s, y), x).accounts, id)
    {
      if id in Footprint(y.tx) {
        SwapAccounts(env, s, y, x, id);
      } else {
        SwapAccounts(env, s, x, y, id);
      }
    }
  }

  function Single(s: State, signer: AccountId, action: PrivateAction): Submission {
    Submission(BuildPurePrivateTx(s, signer, [action]), 1, 0)
  }

  /**
   * Why the roots must be known: a nullifier may be bound to the root that another transaction is
   * about to record.  The two have nothing else in common, and yet only one order accepts both.
   */
  lemma RecordedRootMatters(env: Env, s: State, b: AccountId, c: AccountId, p: PrivateAction, q: PrivateAction)
    requires b != c && !Collides(p, q)
    requires ActionsAdmissible(s, [p])
    requires q.commitment !in s.commitments && q.nullifier !in s.spent
    requires q.root == env.rootOf(s.commitments + [p.commitment]) && q.root !in s.rootHistory
    requires Get(s.accounts, b).nonce < U128_MAX && Get(s.accounts, c).nonce < U128_MAX
    ensures var x, y := Single(s, b, p), Single(s, c, q);
      && Independent(x.tx, y.tx)
      && Passes(env, s, x) && !Passes(env, s, y) && Passes(env, After(env, s, x), y)
  {
    var x, y := Single(s, b, p), Single(s, c, q);
    PurePrivateIndependent(s, b, c, [p], [q]);
    PurePrivateAcceptance(env, s, b, [p], 1, 0);
    PurePrivateAcceptance(env, s, c, [q], 1, 0);
    assert q in [q];
    AfterPurePrivate(env, s, b, c, p);
    var next := After(env, s, x);
    assert BuildPurePrivateTx(next, c, [q]) == y.tx;
    PurePrivateAcceptance(env, next, c, [q], 1, 0);
  }

  lemma AfterPurePrivate(env: Env, s: State, b: AccountId, c: AccountId, p: PrivateAction)
    requires b != c && Accepts(env, s, BuildPurePrivateTx(s, b, [p]), 1, 0)
    ensures var next := Execute(env, s, BuildPurePrivateTx(s, b, [p]), 1, 0);
      && Get(next.accounts, c) == Get(s.accounts, c) && next.programs == s.programs
      && next.commitments == s.commitments + [p.commitment] && next.spent == s.spent + {p.nullifier}
      && env.rootOf(next.commitments) in next.rootHistory
  {
    var tx := BuildPurePrivateTx(s, b, [p]);
    assert CommitmentsOf(tx) == [p.commitment];
    assert Nullifiers(tx.message) == [p.nullifier];
    ExecuteEffect(env, s, tx, 1, 0);
    ExecuteOutsideFootprint(env, s, tx, 1, 0, c);
    ValidIsApplicable(env, s, tx, 1, 0);
  }

  /** Such states exist: an empty tree whose live root is known, for an injective hash. */
  lemma RecordedRootExists(env: Env, b: AccountId, c: AccountId, p: PrivateAction, q: PrivateAction)
    requires b != c && !Collides(p, q)
    requires p.root == env.rootOf([]) != env.rootOf([p.commitment]) == q.root
    ensures var s := State(map[], [], {env.rootOf([])}, {}, map[]);
      var x, y := Single(s, b, p), Single(s, c, q);
      && LiveRootKnown(env, s) && Independent(x.tx, y.tx)
      && Passes(env, s, x) && !Passes(env, s, y) && Passes(env, After(env, s, x), y)
  {
    var s := State(map[], [], {env.rootOf([])}, {}, map[]);
    assert s.commitments + [p.commitment] == [p.commitment];
    RecordedRootMatters(env, s, b, c, p, q);
  }

  // ---------- What follows a swap ----------

  ghost predicate RootsKnown(s: State, subs: seq<Submission>) {
    forall x :: x in subs ==> RootsOf(x.tx) <= s.rootHistory
  }

  lemma EqualLooksAlike(a: State, b: State, tx: Tx)
    requires ObservablyEqual(a, b) && RootsOf(tx) <= a.rootHistory && RootsOf(tx) <= b.rootHistory
    ensures LooksAlike(a, b, tx)
  {}

  /** Observably equal states stay so, and pass the same submission. */
  lemma EqualStep(env: Env, a: State, b: State, x: Submission)
    requires ObservablyEqual(a, b) && RootsOf(x.tx) <= a.rootHistory && RootsOf(x.tx) <= b.rootHistory
    ensures Passes(env, a, x) <==> Passes(env, b, x)
    ensures ObservablyEqual(After(env, a, x), After(env, b, x))
  {
    EqualLooksAlike(a, b, x.tx);
    ValidateFrame(env, a, b, x.tx, x.block, x.timestamp);
    Adds(env, a, x);
    Adds(env, b, x);
    forall id ensures Get(After(env, a, x).accounts, id) == Get(After(env, b, x).accounts, id) {
      if id in Footprint(x.tx) {
        ExecuteInsideFootprint(env, a, b, x.tx, x.block, x.timestamp, id);
      } else {
        ExecuteOutsideFootprint(env, a, x.tx, x.block, x.timestamp, id);
        ExecuteOutsideFootprint(env, b, x.tx, x.block, x.timestamp, id);
      }
    }
  }

  lemma {:induction false} EqualRuns(env: Env, a: State, b: State, subs: seq<Submission>)
    requires ObservablyEqual(a, b) && RootsKnown(a, subs) && RootsKnown(b, subs)
    ensures ObservablyEqual(Run(env, a, subs), Run(env, b, subs))
    ensures Accepted(env, a, subs) == Accepted(env, b, subs)
    decreases |subs|
  {
    if subs != [] {
      EqualStep(env, a, b, subs[0]);
      Adds(env, a, subs[0]);
      Adds(env, b, subs[0]);
      EqualRuns(env, After(env, a, subs[0]), After(env, b, subs[0]), subs[1..]);
    }
  }

  // ---------- Swaps inside a run ----------

  /** The run with submissions `i` and `i + 1` in the other order. */
  function Swapped(subs: seq<Submission>, i: nat): (r: seq<Submission>)
    requires i + 1 < |subs|
    ensures |r| == |subs|
  {
    subs[i := subs[i + 1]][i + 1 := subs[i]]
  }

  /**
   * Swapping independent neighbours anywhere in a run changes neither who is accepted nor what can
   * be observed at the end.
   */
  lemma {:induction false} SwapInRun(env: Env, s: State, subs: seq<Submission>, i: nat)
    requires i + 1 < |subs| && Independent(subs[i].tx, subs[i + 1].tx) && RootsKnown(s, subs)
    ensures ObservablyEqual(Run(env, s, subs), Run(env, s, Swapped(subs, i)))
    ensures multiset(Accepted(env, s, subs)) == multiset(Accepted(env, s, Swapped(subs, i)))
    decreases i
  {
    Adds(env, s, subs[0]);
    if i > 0 {
      var next := After(env, s, subs[0]);
      assert Swapped(subs, i)[1..] == Swapped(subs[1..], i - 1);
      SwapInRun(env, next, subs[1..], i - 1);
    } else {
      SwapFirst(env, s, subs[0], subs[1], subs[2..]);
      assert subs == [subs[0]] + ([subs[1]] + subs[2..]);
      assert Swapped(subs, 0) == [subs[1]] + ([subs[0]] + subs[2..]);
    }
  }

  lemma SwapFirst(env: Env, s: State, x: Submission, y: Submission, rest: seq<Submission>)
    requires Independent(x.tx, y.tx) && RootsOf(x.tx) + RootsOf(y.tx) <= s.rootHistory && RootsKnown(s, rest)
    ensures ObservablyEqual(Run(env, s, [x] + ([y] + rest)), Run(env, s, [y] + ([x] + rest)))
    ensures multiset(Accepted(env, s, [x] + ([y] + rest))) == multiset(Accepted(env, s, [y] + ([x] + rest)))
  {
    SwapTwo(env, s, x, y);
    RunTwo(env, s, x, y, rest);
    RunTwo(env, s, y, x, rest);
    StillKnown(env, s, x, y, rest);
    StillKnown(env, s, y, x, rest);
    var xy, yx := After(env, After(env, s, x), y), After(env, After(env, s, y), x);
    EqualRuns(env, xy, yx, rest);
    SameMultiset(Taken(env, s, x), Taken(env, s, y), Accepted(env, xy, rest));
  }

  lemma StillKnown(env: Env, s: State, x: Submission, y: Submission, rest: seq<Submission>)
    requires RootsKnown(s, rest)
    ensures RootsKnown(After(env, After(env, s, x), y), rest)
  {
    Adds(env, s, x);
    Adds(env, After(env, s, x), y);
  }

  lemma SameMultiset(a: seq<Tx>, b: seq<Tx>, rest: seq<Tx>)
    ensures multiset(a + (b + rest)) == multiset(b + (a + rest))
  {}

  /** What one submission adds to the accepted transactions. */
  function Taken(env: Env, s: State, x: Submission): seq<Tx> {
    if Passes(env, s, x) then [x.tx] else []
  }

  lemma RunTwo(env: Env, s: State, x: Submission, y: Submission, rest: seq<Submission>)
    ensures var next := After(env, s, x);
      && Run(env, s, [x] + ([y] + rest)) == Run(env, After(env, next, y), rest)
      && Accepted(env, s, [x] + ([y] + rest))
         == Taken(env, s, x) + (Taken(env, next, y) + Accepted(env, After(env, next, y), rest))
  {
    RunOne(env, s, x, [y] + rest);
    RunOne(env, After(env, s, x), y, rest);
  }

  lemma RunOne(env: Env, s: State, x: Submission, rest: seq<Submission>)
    ensures Run(env, s, [x] + rest) == Run(env, After(env, s, x), rest)
    ensures Accepted(env, s, [x] + rest) == Taken(env, s, x) + Accepted(env, After(env, s, x), rest)
  {
    assert ([x] + rest)[1..] == rest;
  }

  /** Each position swaps neighbours that are independent at that point. */
  ghost predicate Swappable(subs: seq<Submission>, positions: seq<nat>)
    decreases |positions|
  {
    positions == [] ||
    (positions[0] + 1 < |subs| && Independent(subs[positions[0]].tx, subs[positions[0] + 1].tx)
     && Swappable(Swapped(subs, positions[0]), positions[1..]))
  }

  ghost function Reordered(subs: seq<Submission>, positions: seq<nat>): seq<Submission>
    requires Swappable(subs, positions)
    decreases |positions|
  {
    if positions == [] then subs else Reordered(Swapped(subs, positions[0]), positions[1..])
  }

  /**
   * Order matters only between dependent transactions: every reordering of a run that never moves
   * two dependent ones past each other accepts the same transactions and ends observably equal.
   */
  lemma {:induction false} ReorderingIsUnobservable(env: Env, s: State, subs: seq<Submission>, positions: seq<nat>)
    requires Swappable(subs, positions) && RootsKnown(s, subs)
    ensures ObservablyEqual(Run(env, s, subs), Run(env, s, Reordered(subs, positions)))
    ensures multiset(Accepted(env, s, subs)) == multiset(Accepted(env, s, Reordered(subs, positions)))
    decreases |positions|
  {
    if positions != [] {
      SwapInRun(env, s, subs, positions[0]);
      ReorderingIsUnobservable(env, s, Swapped(subs, positions[0]), positions[1..]);
    }
  }
}
