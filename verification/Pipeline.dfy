/**
 * Sequencer versus replayer: filtering while building a block, against re-executing only the list
 * of accepted transactions.  The machine is a parameter; `SequencerReplayer` instantiates it.
 */
module Pipeline {
  import opened Wrappers

  /** A machine as the two pipelines see it. */
  datatype Machine<!S, !T, !D> = Machine(
    stateless: T -> bool,
    validate: (S, T) -> Option<D>,
    apply: (S, D) -> S,
    execute: (S, T) -> Option<S>,
    clock: S -> Option<S>)

  /** The split path: validate, then apply the diff. */
  function Split<S, T, D>(m: Machine<S, T, D>, s: S, t: T): Option<S> {
    match m.validate(s, t)
    case None => None
    case Some(diff) => Some(m.apply(s, diff))
  }

  /** Whether the sequencer includes `t` when it is offered in state `s`. */
  predicate Included<S, T, D>(m: Machine<S, T, D>, s: S, t: T) {
    m.stateless(t) && m.validate(s, t).Some?
  }

  /** SplitPathEquivalence where it matters: on everything the sequencer would include. */
  ghost predicate SplitPathEquivalent<S(!new), T(!new), D>(m: Machine<S, T, D>) {
    forall s, t :: Included(m, s, t) ==> m.execute(s, t) == Split(m, s, t)
  }

  function Block<S, T, D>(m: Machine<S, T, D>, s: S, mempool: seq<T>): seq<T>
    decreases |mempool|
  {
    if mempool == [] then []
    else if Included(m, s, mempool[0]) then
      [mempool[0]] + Block(m, Split(m, s, mempool[0]).value, mempool[1..])
    else Block(m, s, mempool[1..])
  }

  function AfterSequencing<S, T, D>(m: Machine<S, T, D>, s: S, mempool: seq<T>): S
    decreases |mempool|
  {
    if mempool == [] then s
    else if Included(m, s, mempool[0]) then AfterSequencing(m, Split(m, s, mempool[0]).value, mempool[1..])
    else AfterSequencing(m, s, mempool[1..])
  }

  /** The diffs of the included transactions, in order. */
  function Diffs<S, T, D>(m: Machine<S, T, D>, s: S, mempool: seq<T>): seq<D>
    decreases |mempool|
  {
    if mempool == [] then []
    else if Included(m, s, mempool[0]) then
      [m.validate(s, mempool[0]).value] + Diffs(m, Split(m, s, mempool[0]).value, mempool[1..])
    else Diffs(m, s, mempool[1..])
  }

  /** The replayer stops at the first transaction it rejects. */
  function AfterReplay<S, T, D>(m: Machine<S, T, D>, s: S, txs: seq<T>): Option<S>
    decreases |txs|
  {
    if txs == [] then Some(s)
    else if !m.stateless(txs[0]) then None
    else
      match m.execute(s, txs[0])
      case None => None
      case Some(next) => AfterReplay(m, next, txs[1..])
  }

  /** The sequencer loop: skip what fails, apply and record what does not. */
  method Sequence<S, T, D>(m: Machine<S, T, D>, base: S, mempool: seq<T>)
    returns (s: S, accepted: seq<T>, diffs: seq<D>)
    ensures s == AfterSequencing(m, base, mempool) && accepted == Block(m, base, mempool)
    ensures diffs == Diffs(m, base, mempool)
  {
    s, accepted, diffs := base, [], [];
    for i := 0 to |mempool|
      invariant AfterSequencing(m, base, mempool) == AfterSequencing(m, s, mempool[i..])
      invariant Block(m, base, mempool) == accepted + Block(m, s, mempool[i..])
      invariant Diffs(m, base, mempool) == diffs + Diffs(m, s, mempool[i..])
    {
      var t := mempool[i];
      assert mempool[i..][1..] == mempool[i + 1..];
      if !m.stateless(t) { continue; }
      var diff := m.validate(s, t);
      if diff.None? { continue; }
      s := m.apply(s, diff.value);
      accepted, diffs := accepted + [t], diffs + [diff.value];
    }
  }

  /** The replayer loop; `None` stands for its panic. */
  method Replay<S, T, D>(m: Machine<S, T, D>, base: S, txs: seq<T>) returns (r: Option<S>)
    ensures r == AfterReplay(m, base, txs)
  {
    var s := base;
    for i := 0 to |txs|
      invariant AfterReplay(m, base, txs) == AfterReplay(m, s, txs[i..])
    {
      assert txs[i..][1..] == txs[i + 1..];
      if !m.stateless(txs[i]) {
        return None;
      }
      var next := m.execute(s, txs[i]);
      if next.None? {
        return None;
      }
      s := next.value;
    }
    r := Some(s);
  }

  /** On one mempool the replayer accepts the whole block and ends where the sequencer does. */
  ghost predicate Follows<S, T, D>(m: Machine<S, T, D>, base: S, mempool: seq<T>) {
    AfterReplay(m, base, Block(m, base, mempool)) == Some(AfterSequencing(m, base, mempool))
  }

  ghost predicate AlwaysFollows<S(!new), T(!new), D>(m: Machine<S, T, D>) {
    forall base, mempool :: Follows(m, base, mempool)
  }

  /** For every mempool the replayer accepts the whole block and ends in the sequencer's state. */
  lemma {:induction false} ReplayerFollowsSequencer<S(!new), T(!new), D>(m: Machine<S, T, D>, base: S, mempool: seq<T>)
    requires SplitPathEquivalent(m)
    ensures Follows(m, base, mempool)
    decreases |mempool|
  {
    if mempool != [] {
      var t := mempool[0];
      if Included(m, base, t) {
        var next := Split(m, base, t).value;
        ReplayerFollowsSequencer(m, next, mempool[1..]);
        var rest := Block(m, next, mempool[1..]);
        assert ([t] + rest)[1..] == rest;
      } else {
        ReplayerFollowsSequencer(m, base, mempool[1..]);
      }
    }
  }

  /** One-transaction mempools already pin down the equivalence. */
  lemma FollowingForcesEquivalence<S, T, D>(m: Machine<S, T, D>, s: S, t: T)
    requires Follows(m, s, [t]) && Included(m, s, t)
    ensures m.execute(s, t) == Split(m, s, t)
  {
    assert [t][1..] == [];
    assert Block(m, s, [t]) == [t];
    assert AfterSequencing(m, s, [t]) == Split(m, s, t).value;
    assert AfterReplay(m, s, [t]) == Some(Split(m, s, t).value);
  }

  /**
   * The differential oracle is exact: replayer and sequencer agree from every state on every
   * mempool if and only if executing and validate-then-apply agree on whatever gets included.
   */
  lemma OracleIsExact<S(!new), T(!new), D>(m: Machine<S, T, D>)
    ensures AlwaysFollows(m) <==> SplitPathEquivalent(m)
  {
    if SplitPathEquivalent(m) {
      forall base, mempool ensures Follows(m, base, mempool) {
        ReplayerFollowsSequencer(m, base, mempool);
      }
    }
    if AlwaysFollows(m) {
      forall s, t | Included(m, s, t) ensures m.execute(s, t) == Split(m, s, t) {
        FollowingForcesEquivalence(m, s, t);
      }
    }
  }

  /**
   * `origin` lists, in increasing order, exactly the positions whose transaction is included in the
   * state that sequencing everything before it leaves, and `block` reads the mempool there.
   */
  ghost predicate TakenInTurn<S, T, D>(m: Machine<S, T, D>, s: S, mempool: seq<T>, block: seq<T>, origin: seq<nat>) {
    && |block| == |origin|
    && (forall k, l :: 0 <= k < l < |origin| ==> origin[k] < origin[l])
    && (forall k :: 0 <= k < |origin| ==> origin[k] < |mempool| && block[k] == mempool[origin[k]])
    && (forall i :: 0 <= i < |mempool| ==> (i in origin <==> IncludedAt(m, s, mempool, i)))
  }

  ghost predicate IncludedAt<S, T, D>(m: Machine<S, T, D>, s: S, mempool: seq<T>, i: nat)
    requires i < |mempool|
  {
    Included(m, AfterSequencing(m, s, mempool[..i]), mempool[i])
  }

  /** The block is a subsequence of the mempool, in order, each transaction included in turn. */
  lemma {:induction false} BlockIsFromMempool<S, T, D>(m: Machine<S, T, D>, s: S, mempool: seq<T>)
    ensures exists origin: seq<nat> :: TakenInTurn(m, s, mempool, Block(m, s, mempool), origin)
    decreases |mempool|
  {
    if mempool == [] {
      var none: seq<nat> := [];
      assert TakenInTurn(m, s, mempool, Block(m, s, mempool), none);
    } else {
      var n := |mempool| - 1;
      var prefix := mempool[..n];
      BlockIsFromMempool(m, s, prefix);
      var origin: seq<nat> :| TakenInTurn(m, s, prefix, Block(m, s, prefix), origin);
      assert mempool == prefix + [mempool[n]];
      TakenAppends(m, s, prefix, mempool[n], origin);
    }
  }

  lemma TakenAppends<S, T, D>(m: Machine<S, T, D>, s: S, prefix: seq<T>, t: T, origin: seq<nat>)
    requires TakenInTurn(m, s, prefix, Block(m, s, prefix), origin)
    ensures var mempool := prefix + [t];
      exists longer: seq<nat> :: TakenInTurn(m, s, mempool, Block(m, s, mempool), longer)
  {
    var mempool, n := prefix + [t], |prefix|;
    SequencingAppends(m, s, prefix, t);
    assert mempool[..n] == prefix;
    forall i | 0 <= i < n ensures IncludedAt(m, s, mempool, i) <==> IncludedAt(m, s, prefix, i) {
      assert mempool[..i] == prefix[..i];
    }
    var longer: seq<nat> := if IncludedAt(m, s, mempool, n) then origin + [n] else origin;
    assert TakenInTurn(m, s, mempool, Block(m, s, mempool), longer);
  }

  /** Offering one more transaction extends the block by it, if it is included, and otherwise changes nothing. */
  lemma {:induction false} SequencingAppends<S, T, D>(m: Machine<S, T, D>, s: S, mempool: seq<T>, t: T)
    ensures var end := AfterSequencing(m, s, mempool);
      && Block(m, s, mempool + [t]) == Block(m, s, mempool) + (if Included(m, end, t) then [t] else [])
      && AfterSequencing(m, s, mempool + [t]) == if Included(m, end, t) then Split(m, end, t).value else end
    decreases |mempool|
  {
    if mempool == [] {
      assert [] + [t] == [t] && [t][1..] == [];
    } else {
      assert (mempool + [t])[1..] == mempool[1..] + [t];
      SequencingAppends(m, if Included(m, s, mempool[0]) then Split(m, s, mempool[0]).value else s, mempool[1..], t);
    }
  }

  // ---------- The clock ----------

  datatype Verdict<!S> = BlockAborted | ReplayerRejected | ClockDiverged | Finished(sequencer: S, replayer: S)

  /**
   * The whole target, for any machine at all.  With the equivalence neither replayer panic can
   * happen and both states are equal: the only way not to finish is a clock that the sequencer
   * itself could not run.
   */
  method RunTarget<S(!new), T(!new), D>(m: Machine<S, T, D>, base: S, mempool: seq<T>, runClock: bool)
    returns (v: Verdict<S>, diffs: seq<D>)
    ensures diffs == Diffs(m, base, mempool)
    ensures v.BlockAborted? <==> runClock && m.clock(AfterSequencing(m, base, mempool)).None?
    ensures v.ReplayerRejected? <==> !v.BlockAborted? && AfterReplay(m, base, Block(m, base, mempool)).None?
    ensures v.ClockDiverged? <==>
      && runClock && m.clock(AfterSequencing(m, base, mempool)).Some?
      && AfterReplay(m, base, Block(m, base, mempool)).Some?
      && m.clock(AfterReplay(m, base, Block(m, base, mempool)).value).None?
    ensures v.Finished? ==>
      v.sequencer == if runClock then m.clock(AfterSequencing(m, base, mempool)).value
                     else AfterSequencing(m, base, mempool)
    ensures v.Finished? ==>
      var replayed := AfterReplay(m, base, Block(m, base, mempool)).value;
      v.replayer == if runClock then m.clock(replayed).value else replayed
    ensures SplitPathEquivalent(m) ==>
      !v.ReplayerRejected? && !v.ClockDiverged? && (v.Finished? ==> v.sequencer == v.replayer)
  {
    var seqState, accepted;
    seqState, accepted, diffs := Sequence(m, base, mempool);
    if runClock {
      var ticked := m.clock(seqState);
      if ticked.None? {
        return BlockAborted, diffs;
      }
      seqState := ticked.value;
    }
    if SplitPathEquivalent(m) {
      ReplayerFollowsSequencer(m, base, mempool);
    }
    var replayed := Replay(m, base, accepted);
    if replayed.None? {
      return ReplayerRejected, diffs;
    }
    var repState := replayed.value;
    if runClock {
      var ticked := m.clock(repState);
      if ticked.None? {
        return ClockDiverged, diffs;
      }
      repState := ticked.value;
    }
    v := Finished(seqState, repState);
  }
}
