/** The ordering-independence target: seed a state, then apply a conflicting pair in both orders. */
module OrderingTarget {
  import opened Integers
  import opened Identity
  import opened Protocol
  import opened Runs
  import opened Ordering
  import opened Builders

  /** The seeding clock: transaction `i` is executed at block `1 + i`, timestamp `i`. */
  function SeedSubmissions(seeds: seq<Tx>): (subs: seq<Submission>)
    requires |seeds| <= 3
    ensures |subs| == |seeds|
    ensures forall i :: 0 <= i < |subs| ==>
      subs[i].tx == seeds[i] && subs[i].block == 1 + i && subs[i].timestamp == i
  {
    seq(|seeds|, i requires 0 <= i < |seeds| => Submission(seeds[i], 1 + i, i))
  }

  datatype Outcome = Dropped | Applied(b1: bool, c1: bool, c2: bool, b2: bool)

  /** NoDoubleSpend in either order, and OrderIndependentAcceptance. */
  predicate InvariantsHold(o: Outcome) {
    o.Applied? ==>
      && !(o.b1 && o.c1)
      && !(o.c2 && o.b2)
      && (if o.b1 then 1 else 0) + (if o.c1 then 1 else 0) == (if o.b2 then 1 else 0) + (if o.c2 then 1 else 0)
  }

  /**
   * Neither assertion of the target can fail on the specified machine, whatever was seeded; a pair
   * is applied whenever one can be built, and the winner is whichever half comes first.
   */
  method OrderingIndependence(env: Env, idOf: PrivateKey -> AccountId, genesis: State, accounts: seq<FuzzAccount>,
                              seeds: seq<Tx>, d: PairDraws)
    returns (o: Outcome, base: State)
    requires |seeds| <= 3 && LiveRootKnown(env, genesis)
    ensures base == Run(env, genesis, SeedSubmissions(seeds)) && LiveRootKnown(env, base)
    ensures o.Dropped? <==> ArbConflictingNullifierPair(env, idOf, base, accounts, d).None?
    ensures InvariantsHold(o)
    ensures o.Applied? ==> var (b, c) := ArbConflictingNullifierPair(env, idOf, base, accounts, d).value;
      && (o.b1 <==> PairHalfFresh(base, d.nullifier, d.commitmentB, b.signers[0]))
      && (o.c2 <==> PairHalfFresh(base, d.nullifier, d.commitmentC, c.signers[0]))
      && (o.c1 <==> o.c2 && !o.b1) && (o.b2 <==> o.b1 && !o.c2)
  {
    base := genesis;
    assert SeedSubmissions(seeds)[..0] == [];
    for i := 0 to |seeds|
      invariant base == Run(env, genesis, SeedSubmissions(seeds)[..i])
    {
      var subs := SeedSubmissions(seeds);
      RunSnoc(env, genesis, subs[..i], subs[i]);
      assert subs[..i + 1] == subs[..i] + [subs[i]];
      base := Execute(env, base, seeds[i], 1 + i, i);
    }
    assert SeedSubmissions(seeds)[..|seeds|] == SeedSubmissions(seeds);
    RunKeepsRootsAndPrograms(env, genesis, SeedSubmissions(seeds));

    var pair := ArbConflictingNullifierPair(env, idOf, base, accounts, d);
    if pair.None? {
      return Dropped, base;
    }
    var (b, c) := pair.value;
    PairOutcome(env, idOf, base, accounts, d, 1, 0);
    var b1, c1 := ApplyTwo(env, base, b, c, 1, 0);
    var c2, b2 := ApplyTwo(env, base, c, b, 1, 0);
    o := Applied(b1, c1, c2, b2);
  }

  /** Executes two transactions on a copy of the base state and reports which were accepted. */
  method ApplyTwo(env: Env, base: State, x: Tx, y: Tx, block: u64, timestamp: u64) returns (okX: bool, okY: bool)
    ensures okX <==> Accepts(env, base, x, block, timestamp)
    ensures okY <==> Accepts(env, Execute(env, base, x, block, timestamp), y, block, timestamp)
    ensures (if okX then 1 else 0) + (if okY then 1 else 0) == |Accepted(env, base, Block([x, y], block, timestamp))|
  {
    var s := base;
    okX := Accepts(env, s, x, block, timestamp);
    s := Execute(env, s, x, block, timestamp);
    okY := Accepts(env, s, y, block, timestamp);
    AcceptedOne(env, s, y, block, timestamp);
    assert [x, y][1..] == [y];
    assert Block([x, y], block, timestamp)[1..] == Block([y], block, timestamp);
  }

  lemma AcceptedOne(env: Env, s: State, x: Tx, block: u64, timestamp: u64)
    ensures Accepted(env, s, Block([x], block, timestamp)) == if Accepts(env, s, x, block, timestamp) then [x] else []
  {}
}
