# Verified model of the lez-fuzzing oracles

lez-fuzzing drives the Logos execution zone (LEZ) state machine with generated transactions and
compares what it does with hand-written oracles.  The oracles come with claims in their comments: the
reference model is exact, the overflow branch is dead, a shielded nullifier is spent once whatever the
order, a replaying node ends in the sequencer's state, and passing checkers mean conservation.  A
fuzzer samples those claims.  This project states them over all inputs, all runs and all reachable
states, and proves them.

`dafny verify dfyconfig.toml` checks everything.

## How the files follow the harness

| file | part of the harness |
|---|---|
| `Integers.dfy`, `Sums.dfy`, `Dedup.dfy` | fixed-width operations, order-free totals, first-occurrence lists |
| `Protocol.dfy` | the state machine as far as the harness spells it out: transfers and the numbered checks of shielded transactions, validation into a diff, two-step application |
| `Runs.dfy`, `Ordering.dfy`, `Swaps.dfy` | safety over whole runs; conflicting and independent transactions; reordering of runs |
| `Privacy.dfy`, `Builders.dfy`, `Draws.dfy`, `OrderingTarget.dfy` | the builders of `privacy.rs`, what they build in terms of the draws, and the ordering-independence target |
| `Effects.dfy`, `Foreign.dfy`, `PrivateTarget.dfy` | the effect fold, effects of other programs, and the private state-transition target |
| `DirectPath.dfy` | the direct path: one pass that checks while it writes, proved equal to validate-then-apply |
| `Pipeline.dfy`, `SequencerReplayer.dfy`, `Clock.dfy` | sequencer (split path) against replayer (direct path), for any machine and for this one, with the clock |
| `Checkers.dfy`, `Conservation.dfy`, `MultiBlock.dfy` | the checkers of `invariants.rs` on an untrusted machine; what shielded effects do to a total; the multi-block target |
| `Generators.dfy` | `arbitrary_fuzz_state` and the genesis overlay |
| `Lockstep.dfy`, `LockstepCommands.dfy`, `LockstepProofs.dfy`, `LockstepOracle.dfy` | the reference model, the comparing loop, what the command grammar means, and why the oracle is sound and complete |
| `Xorshift.dfy` | the generator of the distributional tests |

Machine integers are subset types of `int`: storing `balance - amount` or `balance + amount` in a
`u128` is a proof that the operation does not wrap.  Wrapping, saturating and checked operations are
written out.  What lives outside the harness (the tree hash, programs other than the native token,
the system account ids) is a parameter, `Env`, and every theorem holds for every value of it.  A proof
is the journal it is bound to.  A run under test is an arbitrary list of observed states wherever the
harness does not trust the machine (`Checkers`, `MultiBlock`, the checks of `PrivateTarget`, the generic
half of `SequencerReplayer`, the soundness half of `LockstepOracle`).

## Where the code and its comments part

* `privacy.rs:72-74` calls a synthesised proof valid only for one (message, state, signers) triple.
  The journal holds neither nonces nor anything of the state but re-anchored claims; `ProofTransfers`
  gives the exact condition.
* `fuzz_transaction_ordering_independence.rs:71-72` says the root history starts empty;
  `privacy.rs:218-223` and `339-343` say genesis seeds it.  The second reading is followed: the live
  root of genesis is a known root, and `RunKeepsRootsAndPrograms` keeps that so.
* `generators.rs:146-148` says the protocol rejects self-transfers, while the lockstep header
  (lines 47-51) only sets them aside.  They are rejected here.
* `privacy.rs:182-183` falls back to an unbounded window when the bounds are out of order, but a window
  without lower bound and with upper bound 0 still admits no block: `WindowAdmitsSomeBlock`.
* `generators.rs:134` reduces modulo a saturated balance: at the largest balance the top amount is
  out of reach (`BiasedAmountReach`), and the lockstep `Excessive` kind would equal the balance there
  (`ExcessiveOvershoots`).  `SupplyIsBounded` keeps every reachable state away from that point.
* `arbitrary_fuzz_state` is headed "1-8 accounts" and returns 0 to 8.
* `BalanceConservation` is not silent on every correct transfer: one that crosses the boundary of the
  tracked accounts trips it.  `BoundaryTransferIsReported` is such a transfer, accepted and reported;
  `TransferRaisesNoAlarm` gives the exact condition for transfers.  For shielded transactions, on which
  `privacy.rs:31-39` leaves the check out, `ShieldedTotal` and `AttemptPassesIffQuiet` say when it would
  fire: exactly when the declared effects on tracked accounts do not cancel out.  The multi-block target is not exposed to it by its own transfers: `arb_fuzz_native_transfer`
  takes both parties from the tracked accounts, and `arbitrary_transaction` draws its signatures as
  random bytes (`fuzz_props/src/arbitrary_types.rs:63-73`).  It concerns other users of the checks.
* `fuzz_sequencer_vs_replayer.rs` compares genesis ids and the keys of the accepted diffs.  An accepted
  signer that is in neither, say of a shielded transaction that lists no public action for it, can have
  its nonce diverge unseen: `OnlyTouchedChange` shows that this is the only thing missed.  Native
  transfers are not affected, their signer being a key of the diff, and `arbitrary_transaction` never
  draws shielded transactions (`fuzz_props/src/arbitrary_types.rs:215-238`).
* The reference model adds 1 to a nonce without a guard (line 165).  Built without overflow checks, it
  counts nonces modulo 2^128, which is what is modelled (`NonceLedger`, `AcceptedTransferGoesStale`);
  built with them, it panics at that point.  Up to there the two agree, and the model and the protocol
  part on the last nonce only (`PredictionIsExact`).

## Model

| member | source | states |
|---|---|---|
| Lockstep.Model.constructor | fuzz/fuzz_targets/fuzz_stateful_model_lockstep.rs:132-136 | The book holds the listed balance of each id (last entry wins), with nonce 0 |
| Lockstep.Model.Predict | fuzz/fuzz_targets/fuzz_stateful_model_lockstep.rs:146-159 | The three early returns decide exactly the acceptance rule: current nonce, covered amount, no recipient overflow |
| Lockstep.Model.ApplyTransfer | fuzz/fuzz_targets/fuzz_stateful_model_lockstep.rs:161-167 | Two successive map writes give the transferred book; the raw subtraction and addition stay in range |
| Lockstep.ResolveRecipient | fuzz/fuzz_targets/fuzz_stateful_model_lockstep.rs:170-175 | The recipient index is in range and never the sender's |
| Lockstep.ResolvedIsTransferable | fuzz/fuzz_targets/fuzz_stateful_model_lockstep.rs:268-299 | Every decoded transfer is between two distinct known accounts, so whatever is predicted accepted can be applied |
| LockstepCommands.TransferMeaning | fuzz/fuzz_targets/fuzz_stateful_model_lockstep.rs:268-313 | A transfer command makes the account selected by `from` pay the one selected by `to`, with the declared nonce and the asked amount, if nonce, cover and head room allow; otherwise nothing moves |
| LockstepCommands.TransferIsChecked | fuzz/fuzz_targets/fuzz_stateful_model_lockstep.rs:268-320 | The loop accepts an observation of it iff the machine reports that verdict and holds the accounts of that move |
| LockstepCommands.MeaningExists | fuzz/fuzz_targets/fuzz_stateful_model_lockstep.rs:268-277 | Every transfer command selects two accounts and has a declared nonce and an asked amount |
| LockstepCommands.PartiesAreDecoded | fuzz/fuzz_targets/fuzz_stateful_model_lockstep.rs:170-175 | Payer and payee are the accounts at the remainders of the two fields, the sender skipped |
| LockstepCommands.NonceIsDeclared | fuzz/fuzz_targets/fuzz_stateful_model_lockstep.rs:177-184 | Correct declares the current nonce, RawNonce its own, Off the one max(d, 1) increments ahead, and nothing else |
| LockstepCommands.AmountIsAsked | fuzz/fuzz_targets/fuzz_stateful_model_lockstep.rs:186-195 | The amount of each kind: zero, a remainder modulo the saturated successor of the balance, all, an overshoot of 1 to 1024 while it fits, the raw one |
| LockstepCommands.WithinBalanceReach | fuzz/fuzz_targets/fuzz_stateful_model_lockstep.rs:87-88 | WithinBalance moves a covered raw amount itself, and reaches every covered amount but the largest balance of all |
| LockstepProofs.StepEffect | fuzz/fuzz_targets/fuzz_stateful_model_lockstep.rs:242-321 | Only an accepted transfer changes the model, by moving its amount and one nonce and becoming the recorded one; the clock moves by the jump, by one, or not at all for a replay of nothing |
| Lockstep.AssertStateAgreement | fuzz/fuzz_targets/fuzz_stateful_model_lockstep.rs:197-214 | The loop over the hash map, in any order, succeeds iff every balance and nonce agrees |
| Lockstep.RunLockstep | fuzz/fuzz_targets/fuzz_stateful_model_lockstep.rs:216-324 | The imperative target passes iff the observed run agrees with the model command by command; it drops exactly the inputs with fewer than two accounts |
| Lockstep.StartCovers | fuzz/fuzz_targets/fuzz_stateful_model_lockstep.rs:219-227 | Every generated account is in the starting model |
| LockstepProofs.TransferConserves | fuzz/fuzz_targets/fuzz_stateful_model_lockstep.rs:161-167 | One applied transfer leaves the total of all balances unchanged |
| LockstepProofs.ScheduleConserves | fuzz/fuzz_targets/fuzz_stateful_model_lockstep.rs:239-322 | Any schedule of any length leaves the total unchanged |
| LockstepProofs.StartIsBounded | fuzz_props/src/generators.rs:67-73 | The total of a generated genesis is at most eight caps, and nonces start at zero |
| LockstepProofs.SupplyIsBounded | fuzz/fuzz_targets/fuzz_stateful_model_lockstep.rs:34-36 | In every reachable state the total supply is that of genesis, at most 8 * (MAX / 8), below MAX |
| LockstepProofs.BalancesAreBounded | fuzz/fuzz_targets/fuzz_stateful_model_lockstep.rs:34-36 | Any two balances together stay within the supply, in every reachable state |
| LockstepProofs.OverflowBranchIsDead | fuzz/fuzz_targets/fuzz_stateful_model_lockstep.rs:34-36 | A covered amount never overflows the recipient, so nonce and sender balance alone decide |
| LockstepProofs.UnknownAccounts | fuzz/fuzz_targets/fuzz_stateful_model_lockstep.rs:138-144 | An id the model does not know has balance and nonce zero: as sender only an empty first transfer is predicted accepted, as recipient it never overflows |
| LockstepProofs.ExcessiveOvershoots | fuzz/fuzz_targets/fuzz_stateful_model_lockstep.rs:92-93 | Excessive exceeds the balance iff the balance is below MAX; at MAX it is the balance |
| LockstepProofs.OffIsNeverCurrent | fuzz/fuzz_targets/fuzz_stateful_model_lockstep.rs:78-79 | Off never yields the current nonce, wrapping included |
| LockstepProofs.KindsDecide | fuzz/fuzz_targets/fuzz_stateful_model_lockstep.rs:72-97 | In every reachable state the valid kinds are accepted, Off and Excessive rejected |
| LockstepProofs.RecipientBijection | fuzz/fuzz_targets/fuzz_stateful_model_lockstep.rs:170-175 | Residues modulo len - 1 and the indices other than the sender correspond one to one |
| LockstepProofs.CountedUpWraps | fuzz/fuzz_targets/fuzz_stateful_model_lockstep.rs:165 | Counting n increments is counting modulo 2^128 |
| LockstepProofs.NonceLedger | fuzz/fuzz_targets/fuzz_stateful_model_lockstep.rs:131-168 | Over any schedule a nonce has been incremented once per accepted transfer of its account, and those declared consecutive nonces |
| LockstepProofs.NonceIsAcceptedCount | fuzz/fuzz_targets/fuzz_stateful_model_lockstep.rs:131-168 | From genesis, below 2^128 commands: nonce = number of accepted transfers, declaring 0, 1, 2, ... each once |
| LockstepProofs.AcceptedTransferGoesStale | fuzz/fuzz_targets/fuzz_stateful_model_lockstep.rs:250-266 | An accepted transfer passes the nonce check again iff its sender's acceptances since are a multiple of 2^128; below that it is rejected in every later state |
| LockstepProofs.ReplayLastIsRejected | fuzz/fuzz_targets/fuzz_stateful_model_lockstep.rs:109-111 | The recorded transaction is one nonce behind its sender, hence rejected, after schedules of any length |
| LockstepProofs.ClockNeverWraps | fuzz/fuzz_targets/fuzz_stateful_model_lockstep.rs:229-245 | Block ids never decrease and the timestamp is 1000 per block while the schedule fits the clock's width |
| LockstepOracle.PassingRunAgrees | fuzz/fuzz_targets/fuzz_stateful_model_lockstep.rs:53-64 | For an arbitrary machine: a passing run means the model's verdict and the model's accounts at every compared step |
| LockstepOracle.PassingRunConserves | fuzz/fuzz_targets/fuzz_stateful_model_lockstep.rs:53-64 | Such a machine has conserved the generated supply and counted its acceptances in the nonces at every compared step |
| LockstepOracle.PredictionIsExact | fuzz/fuzz_targets/fuzz_stateful_model_lockstep.rs:25-55 | Protocol acceptance = model acceptance and a nonce below MAX; then both sides move alike, and a rejection changes nothing |
| LockstepOracle.StepIsExact | fuzz/fuzz_targets/fuzz_stateful_model_lockstep.rs:242-321 | For every command the comparison succeeds iff no last nonce is used up, and model and machine stay aligned |
| LockstepOracle.ObserveIsDirect | fuzz/fuzz_targets/fuzz_stateful_model_lockstep.rs:242-321 | The observed machine is the direct path: transfers and replays execute their transaction, nothing else touches the state |
| LockstepOracle.NoFalseAlarm | fuzz/fuzz_targets/fuzz_stateful_model_lockstep.rs:23-55 | From any aligned start and over any schedule the protocol passes iff no sender runs out of nonces |
| LockstepOracle.ShortSchedulesNeverExhaust | fuzz/fuzz_targets/fuzz_stateful_model_lockstep.rs:236-239 | Running out takes as many commands as there are nonces left |
| LockstepOracle.GenesisAgrees | fuzz/fuzz_targets/fuzz_stateful_model_lockstep.rs:224-227 | Genesis and the initial model agree on every generated account, none of which is reserved |
| LockstepOracle.GeneratedRunsPass | fuzz/fuzz_targets/fuzz_stateful_model_lockstep.rs:53-64 | End to end from the generator through genesis and any schedule below 2^128 commands: no false alarm |
| Protocol.SettleKeepsNonces | fuzz/fuzz_targets/fuzz_privacy_preserving_state_transition.rs:150-153 | Effects only touch shards, never the nonce |
| Protocol.ValidIsApplicable | fuzz/fuzz_targets/fuzz_apply_state_diff_split_path.rs:12-15 | Whatever validates can be applied: the nonce increments of the second step do not overflow |
| Runs.ExecuteEffect | fuzz_props/src/privacy.rs:216-223 | One acceptance: its nullifiers and commitments were fresh, are added, roots only grow, each nonce moves by its signatures |
| Runs.SpentSetIsAccounted | fuzz/fuzz_targets/fuzz_transaction_ordering_independence.rs:15-24 | Over any run the spent set is the starting one plus the nullifiers of the accepted transactions |
| Runs.NoDoubleSpend | fuzz/fuzz_targets/fuzz_transaction_ordering_independence.rs:35-38 | Over any run accepted transactions have pairwise disjoint nullifiers, all unspent at the start |
| Runs.CommitmentTreeIsAppendOnly | fuzz/fuzz_targets/fuzz_privacy_preserving_state_transition.rs:21-23 | The tree ends as the starting leaves followed by the accepted commitments in order |
| Runs.NoCommitmentTwice | fuzz/fuzz_targets/fuzz_privacy_preserving_state_transition.rs:4-7 | No commitment is declared by two accepted transactions or was a leaf before |
| Runs.NoncesCountSignatures | fuzz/fuzz_targets/fuzz_privacy_preserving_state_transition.rs:24-25 | Over any run each nonce advances by exactly the accepted signatures of its account |
| Runs.RunKeepsRootsAndPrograms | fuzz_props/src/privacy.rs:339-343 | Known roots stay known and the live root is always one of them |
| Runs.RootHistoryIsAccounted | fuzz_props/src/privacy.rs:339-343 | The root history is the starting one plus one root after each accepted transaction that adds leaves, and no other |
| Runs.AcceptedOnlyOnce | fuzz/fuzz_targets/fuzz_privacy_preserving_state_transition.rs:199-201 | An accepted transaction is rejected at every later point of every run and at every clock |
| Ordering.FirstComeFirstServed | fuzz/fuzz_targets/fuzz_transaction_ordering_independence.rs:21-27 | Of mutually conflicting transactions exactly the first acceptable one is accepted |
| Ordering.ConflictingAcceptanceIsOrderIndependent | fuzz/fuzz_targets/fuzz_transaction_ordering_independence.rs:96-133 | For a conflicting list of any length the accepted count is 1 if any member is acceptable, else 0, for every permutation |
| Ordering.ValidateFrame | fuzz_props/src/privacy.rs:384-392 | A transaction validates to the very same outcome, diff or rejection, in any state that agrees on what it reads |
| Ordering.ExecuteOutsideFootprint | fuzz/fuzz_targets/fuzz_validate_execute_consistency.rs:92-121 | Executing changes no account outside the footprint |
| Ordering.IndependentAllAccepted | fuzz_props/src/privacy.rs:384-392 | Independent, individually acceptable transactions are all accepted, and each account ends as its one transaction leaves it |
| Ordering.IndependentCommute | fuzz_props/src/privacy.rs:384-392 | In every permutation all of them are accepted, and the end states differ only in leaf order and root history |
| Swaps.SameFate | fuzz_props/src/privacy.rs:384-392 | After an independent transaction, accepted or not, a transaction meets the fate it would have met before, down to the reason |
| Swaps.SwapTwo | fuzz/fuzz_targets/fuzz_transaction_ordering_independence.rs:24-27 | Two independent submissions in either order have the same fates and leave observably equal states, rejections and different clocks included |
| Swaps.SwapInRun | fuzz/fuzz_targets/fuzz_transaction_ordering_independence.rs:39-41 | Swapping independent neighbours anywhere in a run changes neither the accepted transactions nor what can be observed at the end |
| Swaps.ReorderingIsUnobservable | fuzz/fuzz_targets/fuzz_transaction_ordering_independence.rs:39-41 | The same for every reordering that never moves dependent transactions past each other |
| Swaps.RecordedRootMatters | fuzz_props/src/privacy.rs:216-223 | A nullifier bound to a root that another transaction records is the exception: otherwise independent, only one order accepts both |
| Swaps.RecordedRootExists | fuzz_props/src/privacy.rs:216-223 | That exception occurs from an empty commitment tree, for any hash that tells its root from the next one |
| Dedup.KeepFirstInOrder | fuzz_props/src/privacy.rs:324-326 | The kept elements stand in the order of their first occurrences |
| Privacy.ProofTransfers | fuzz_props/src/privacy.rs:66-109 | A proof made for one triple verifies for another iff they agree on the journal: actions, authorisation of public ids, windows, re-anchored claims |
| Privacy.ArbValidityWindow | fuzz_props/src/privacy.rs:179-191 | Bounds below 8, never out of order |
| Privacy.WindowAdmitsSomeBlock | fuzz_props/src/privacy.rs:182-191 | A window admits some block iff it is not the draw with only an upper bound of zero |
| Privacy.PushPrivateActionIfUnique | fuzz_props/src/privacy.rs:244-258 | The action is dropped iff it collides in nullifier or commitment; uniqueness is kept |
| Privacy.KeepUnique | fuzz_props/src/privacy.rs:344-350 | The kept actions are unique, non-empty if any was drawn, and each dropped draw collides with a kept one |
| Privacy.CollectPrivateActions | fuzz_props/src/privacy.rs:344-355 | The loop with its fallback keeps the unique draws; the fallback fires iff the drawn count is zero |
| Privacy.CollectSigners | fuzz_props/src/privacy.rs:282-298 | The signers are the first occurrences of the drawn ids |
| Privacy.AddExtraIds | fuzz_props/src/privacy.rs:312-327 | The public ids are the first occurrences among the starting ids and the extra draws |
| Privacy.ArbPrivacyPreservingTx | fuzz_props/src/privacy.rs:272-376 | The builder yields the transaction that its draws determine, for all draws |
| Builders.GeneratedShape | fuzz_props/src/privacy.rs:277-355 | At most 3 distinct keyed signers with live nonces 1:1, at most 6 public ids, 1 to 3 private actions, all entries unique |
| Builders.GeneratedRejections | fuzz_props/src/privacy.rs:262-266 | A generated transaction is rejected only for the reasons meant to be explored, by proof only if garbage was drawn |
| Effects.SettlesIffAllFold | fuzz_props/src/privacy.rs:139-144 | Settlement succeeds iff the effects of every public action fold from its own pre-state |
| Foreign.ForeignSettles | fuzz_props/src/privacy.rs:141-144 | Effects with one of another program settle iff those before it do, the program answers on the balance and data then reached, and the rest settles from that answer |
| Foreign.FailsIffRefused | fuzz_props/src/privacy.rs:141-144 | Effects of any programs fail iff one is refused in turn: by its program, by the decoder, or by the range of the balance |
| Foreign.RefusalRejects | fuzz_props/src/privacy.rs:141-144 | One refusal anywhere rejects the whole transaction and leaves the state as it was |
| Foreign.AnswerIsKept | fuzz_props/src/privacy.rs:141-144 | An accepted single effect of another program leaves exactly its balance and data, the nonce moved by signatures only |
| Builders.DrawnEffectsPass | fuzz_props/src/privacy.rs:145-169 | Drawn debits and credits pass iff no prefix of them leaves the range of a balance |
| Builders.ShapedAcceptance | fuzz_props/src/privacy.rs:171-223 | A claim-free, well-shaped message is accepted iff its proof is the synthesised one and windows, system ids, freshness, roots, nonces and effects all pass |
| Builders.GeneratedAcceptance | fuzz_props/src/privacy.rs:260-271 | Exactly which generated transactions are accepted, in terms of the draws and the live state, down to the prefixes of the drawn debits and credits |
| Draws.GeneratedActions | fuzz_props/src/privacy.rs:224-258 | The private actions are those of the draws that collide with no earlier kept one, each with its drawn nullifier and commitment, bound to the live root iff its draw says so |
| Draws.AcceptanceFromDraws | fuzz_props/src/privacy.rs:260-271 | With a known live root a generated transaction passes checks 5 and 6 iff every kept draw is unspent, new, and live-rooted or drawn with a known root; windows and proof in terms of the draws too |
| Draws.GeneratedParties | fuzz_props/src/privacy.rs:277-327 | Exactly the picked accounts sign; exactly the included signers and the picked known or random ids are public |
| Draws.GeneratedEffects | fuzz_props/src/privacy.rs:139-169 | Each public id carries the drawn number of effects, one draw in four another program's, the others the drawn debit or credit |
| Draws.WindowIsDrawn | fuzz_props/src/privacy.rs:184-191 | A drawn window admits exactly the values between its reduced bounds, or all if unbounded or out of order |
| Draws.AuthorizedIffSigned | fuzz_props/src/privacy.rs:81-92 | In the journal a public account is authorised iff it signed, its id and effects unchanged |
| Builders.ShieldedReasonIsHonest | fuzz_props/src/privacy.rs:171-223 | The reason reported for a rejected shielded transaction names a check that fails |
| Builders.TransferReasonIsHonest | fuzz/fuzz_targets/fuzz_stateful_model_lockstep.rs:28-36 | The same for transfers |
| Builders.StatedImagesMustBeLive | fuzz_props/src/privacy.rs:94-109 | Of an acceptable message, a proof bound to the images the message itself discloses passes iff each is the image on chain |
| Builders.ProofSurvivesIffImagesDo | fuzz_props/src/privacy.rs:72-109 | Between any two program maps a proof keeps verifying iff every disclosed program has the same image in both; without disclosed claims it always does |
| Builders.PurePrivateAcceptance | fuzz_props/src/privacy.rs:393-410 | A pure-private transaction is accepted iff its actions are non-empty, unique, fresh and rooted, and the signer has a nonce left |
| Builders.PurePrivateCommute | fuzz_props/src/privacy.rs:378-392 | Two of them with different signers and nothing in common are accepted in both orders with observably equal end states |
| Builders.PairIndices | fuzz_props/src/privacy.rs:431-436 | Always two distinct indices in range: the drawn ones, or on a clash the drawn one and the next |
| Builders.PairIsDrawn | fuzz_props/src/privacy.rs:431-471 | Which account signs which half, and the nullifier, root, commitment and nonce that each half carries |
| Builders.PairIsBuilt | fuzz_props/src/privacy.rs:422-454 | On generated accounts the builder fails iff there are fewer than two or the commitments coincide |
| Builders.PairOutcome | fuzz_props/src/privacy.rs:412-421 | Each half is acceptable iff its commitment and the shared nullifier are fresh, and in both orders exactly one half wins if any can |
| OrderingTarget.OrderingIndependence | fuzz/fuzz_targets/fuzz_transaction_ordering_independence.rs:56-133 | After seeding with any transactions neither assertion can fail, and the first half in order wins iff it is fresh |
| OrderingTarget.ApplyTwo | fuzz/fuzz_targets/fuzz_transaction_ordering_independence.rs:101-109 | The two flags of one order are the acceptances of the run |
| Effects.SettlementIsExact | fuzz/fuzz_targets/fuzz_privacy_preserving_state_transition.rs:26-30 | Native effects settle iff all decode and every prefix of debits and credits stays in range, and then leave balance + credits - debits and nothing else changed |
| Effects.ScanIsExact | fuzz/fuzz_targets/fuzz_privacy_preserving_state_transition.rs:164-182 | The target's fold of native effects yields the settled balance, and is a violation iff they do not settle |
| Effects.SettleIsExact | fuzz/fuzz_targets/fuzz_privacy_preserving_state_transition.rs:26-30 | A message of native effects settles iff the effects of each action stay in range from its pre-state |
| Effects.NetPermutation | fuzz/fuzz_targets/fuzz_privacy_preserving_state_transition.rs:164-182 | The net movement of the effects does not depend on their order |
| Effects.SuccessfulOrdersAgree | fuzz/fuzz_targets/fuzz_privacy_preserving_state_transition.rs:164-182 | Any two orders of the same native effects that both settle leave the same account |
| Effects.OrderDecidesSuccess | fuzz/fuzz_targets/fuzz_privacy_preserving_state_transition.rs:164-182 | Settling does depend on the order: for any lists, the exact head room of credits first and of debits first |
| Effects.CheckPublicEffects | fuzz/fuzz_targets/fuzz_privacy_preserving_state_transition.rs:155-197 | The nested loops with their labelled continue decide exactly PublicEffectsApplied for every action |
| Effects.ScanAgreesWithSettlement | fuzz/fuzz_targets/fuzz_privacy_preserving_state_transition.rs:158-182 | The target's fold never condemns effects that settle, and otherwise computes the settled balance |
| Effects.AcceptedActionApplied | fuzz/fuzz_targets/fuzz_privacy_preserving_state_transition.rs:26-30 | After an acceptance each public account is its pre-state with its effects folded and one nonce step if it signed |
| Effects.SuccessPathHolds | fuzz/fuzz_targets/fuzz_privacy_preserving_state_transition.rs:140-202 | All success-path assertions hold for any accepted transaction with distinct signers |
| PrivateTarget.CheckOne | fuzz/fuzz_targets/fuzz_privacy_preserving_state_transition.rs:87-202 | On any machine the checks pass iff all assertions of the target hold: isolation on rejection; insertion, nonces, effects and replay rejection on success |
| PrivateTarget.ChecksAlwaysHold | fuzz/fuzz_targets/fuzz_privacy_preserving_state_transition.rs:87-202 | On the specified machine they hold for every transaction with distinct signers |
| PrivateTarget.SeenIsDirect | fuzz/fuzz_targets/fuzz_privacy_preserving_state_transition.rs:113-114 | That machine is the direct path, for the transaction and for its replay at the next clock |
| PrivateTarget.OneRound | fuzz/fuzz_targets/fuzz_privacy_preserving_state_transition.rs:109-202 | One round raises no alarm and leaves the executed state, the in-place replay included |
| PrivateTarget.RunTarget | fuzz/fuzz_targets/fuzz_privacy_preserving_state_transition.rs:58-203 | No assertion fails for any genesis and draws; the end state is that of running, at blocks 1 + i and timestamps i, the transactions drawn in turn |
| Pipeline.Sequence | fuzz/fuzz_targets/fuzz_sequencer_vs_replayer.rs:85-134 | The filter loop computes the block and the state of the recursive specification |
| Pipeline.Replay | fuzz/fuzz_targets/fuzz_sequencer_vs_replayer.rs:148-177 | The replay loop stops at the first rejection, as specified |
| Pipeline.ReplayerFollowsSequencer | fuzz/fuzz_targets/fuzz_sequencer_vs_replayer.rs:23-33 | For every mempool the replayer accepts the whole block and ends in the sequencer's state |
| Pipeline.FollowingForcesEquivalence | fuzz/fuzz_targets/fuzz_sequencer_vs_replayer.rs:23-33 | A one-transaction block already detects a difference between the two paths |
| Pipeline.OracleIsExact | fuzz/fuzz_targets/fuzz_sequencer_vs_replayer.rs:17-33 | For any machine: replayer and sequencer always agree iff executing equals validate-then-apply on everything included |
| Pipeline.BlockIsFromMempool | fuzz/fuzz_targets/fuzz_sequencer_vs_replayer.rs:90-134 | The block is the subsequence of the mempool at exactly the positions included in the state that everything before them leaves |
| Pipeline.SequencingAppends | fuzz/fuzz_targets/fuzz_sequencer_vs_replayer.rs:96-134 | One more transaction extends block and state if it is included in the state reached, and changes nothing otherwise |
| Pipeline.RunTarget | fuzz/fuzz_targets/fuzz_sequencer_vs_replayer.rs:85-192 | When each of the four exits is taken and both final states; with equivalent paths neither replayer panic happens and the states are equal |
| DirectPath.TransferIsDirect | fuzz/fuzz_targets/fuzz_stateful_model_lockstep.rs:25-36 | A transfer in two writes, debit with nonce and then credit, accepts and leaves what validation and diff do |
| DirectPath.PublicIsDirect | fuzz/fuzz_targets/fuzz_privacy_preserving_state_transition.rs:155-197 | Folding the actions into the running accounts succeeds iff the ids are distinct and ordinary and all settle, with the settled accounts |
| DirectPath.SigningIsDirect | fuzz/fuzz_targets/fuzz_apply_state_diff_split_path.rs:12-18 | Signing one at a time succeeds iff nonces match and can advance, and increments every signer by its signatures |
| DirectPath.NotesAreDirect | fuzz_props/src/privacy.rs:216-223 | Spending and inserting one action at a time finds exactly the repetitions and stale entries that checks 2, 5 and 6 find |
| DirectPath.ReanchorIsDirect | fuzz_props/src/privacy.rs:94-109 | Re-reading images one claim at a time succeeds iff every disclosed program is known, with the re-anchored claims |
| DirectPath.DirectIsSplit | fuzz/fuzz_targets/fuzz_apply_state_diff_split_path.rs:20-25 | For every state, transaction and clock the direct path accepts exactly what validates and leaves exactly the state of the applied diff |
| SequencerReplayer.ProtocolIsSplitPathEquivalent | fuzz/fuzz_targets/fuzz_apply_state_diff_split_path.rs:20-25 | The direct path and validate-then-apply agree on everything the sequencer includes |
| SequencerReplayer.UserTxLeavesClock | fuzz/fuzz_targets/fuzz_sequencer_vs_replayer.rs:49-52 | No transaction changes the record of the clock account |
| SequencerReplayer.ClockOutcome | fuzz/fuzz_targets/fuzz_sequencer_vs_replayer.rs:35-38 | The clock runs after the block iff it would have run on the base state, whatever the user transactions |
| Clock.ClockAdvances | fuzz/fuzz_targets/fuzz_sequencer_vs_replayer.rs:69-72 | A clock step succeeds iff the block follows the recorded one; it then records block and timestamp and changes nothing else |
| Clock.NeverTwice | fuzz/fuzz_targets/fuzz_sequencer_vs_replayer.rs:69-72 | Once a block has run, neither it nor an earlier one runs next |
| Clock.ChainIffConsecutive | fuzz/fuzz_targets/fuzz_sequencer_vs_replayer.rs:69-72 | A chain of blocks with any mempools runs iff its ids go on from the recorded one without gap or repetition |
| Clock.GenesisChain | fuzz/fuzz_targets/fuzz_sequencer_vs_replayer.rs:69-74 | From genesis a chain runs iff its ids are 1, 2, 3, ... |
| SequencerReplayer.OnlyTouchedChange | fuzz/fuzz_targets/fuzz_sequencer_vs_replayer.rs:80-83 | Outside the collected ids only the nonce of an accepted signer can differ from the base state |
| SequencerReplayer.IncludedIffExecutes | fuzz/fuzz_targets/fuzz_sequencer_vs_replayer.rs:111-121 | What gets into a block is what passes the stateless gate and would execute on the direct path |
| SequencerReplayer.ComparedIds | fuzz/fuzz_targets/fuzz_sequencer_vs_replayer.rs:80-83 | Compared are exactly the genesis ids, the keys of the included diffs and, with the clock, its ids |
| SequencerReplayer.Compare | fuzz/fuzz_targets/fuzz_sequencer_vs_replayer.rs:194-230 | The comparison, id by id in any order, succeeds iff all compared accounts are equal |
| SequencerReplayer.RunAnyTarget | fuzz/fuzz_targets/fuzz_sequencer_vs_replayer.rs:80-231 | For any machine: exactly when the block is given up, and exactly when an assertion fails, over genesis ids, diff keys and clock ids |
| SequencerReplayer.RunProtocolTarget | fuzz/fuzz_targets/fuzz_sequencer_vs_replayer.rs:80-231 | With the split path sequencing and the direct path replaying, no assertion fails for any base state and mempool; the exact abort condition |
| SequencerReplayer.OnlyBlockOneRuns | fuzz/fuzz_targets/fuzz_sequencer_vs_replayer.rs:69-74 | From genesis block 1 is the only block whose clock invocation succeeds |
| Checkers.SnapshotTotal | fuzz_props/src/invariants.rs:27-48 | The checked fold in any iteration order returns the exact sum, and overflows iff the sum exceeds MAX |
| Checkers.ListTotal | fuzz/fuzz_targets/fuzz_multi_block_state_sequence.rs:55-64 | The checked fold over the list is exact, and overflows iff the list sum exceeds MAX |
| Checkers.ListSumVersusMapSum | fuzz_props/src/generators.rs:86-88 | The list sum exceeds the map sum by exactly the balances of repeated ids |
| Checkers.RepeatedIsZero | fuzz_props/src/generators.rs:86-93 | That excess vanishes iff every repeated id is unfunded, in particular for distinct ids |
| Checkers.CheckStateIsolation | fuzz_props/src/invariants.rs:96-118 | Reports iff a rejection changed a tracked balance |
| Checkers.CheckBalanceConservation | fuzz_props/src/invariants.rs:129-167 | Silent iff a success kept the tracked total, below overflow; overflow is reported iff either total exceeds MAX |
| Checkers.CheckNonceStability | fuzz_props/src/invariants.rs:176-199 | Reports iff a rejection changed a tracked nonce |
| Checkers.AssertInvariants | fuzz_props/src/invariants.rs:438-472 | The three checks together decide the context invariant, and which one is reported |
| Checkers.AssertNonceIncrement | fuzz_props/src/invariants.rs:319-343 | Passes iff every tracked signer advanced by exactly one; the verdict is about the first that did not |
| Checkers.AssertTxExecution | fuzz_props/src/invariants.rs:391-436 | Passes iff all five invariants hold of the attempt; replay is blamed iff all else holds; the state that lives on is the one after the replay |
| MultiBlock.RunTarget | fuzz/fuzz_targets/fuzz_multi_block_state_sequence.rs:55-142 | Each verdict exactly: start or end overflow, long-range difference, the first failing attempt, or a pass |
| MultiBlock.PassingRunTotal | fuzz/fuzz_targets/fuzz_multi_block_state_sequence.rs:66-123 | For any machine: the tracked total moves by exactly what moved during rejected replays |
| MultiBlock.LongRangeIffNoReplayDrift | fuzz/fuzz_targets/fuzz_multi_block_state_sequence.rs:117-142 | LongRangeBalanceConservation holds iff the replays together moved nothing |
| MultiBlock.IsolatedReplaysDoNotDrift | fuzz_props/src/invariants.rs:269-282 | Rejected replays that leave balances alone do not drift |
| MultiBlock.LongRangeIsNeeded | fuzz/fuzz_targets/fuzz_multi_block_state_sequence.rs:117-123 | Some machine passes every per-attempt check and still fails the final comparison |
| MultiBlock.PassingRunNonces | fuzz_props/src/invariants.rs:284-343 | A passing run ties each tracked nonce to its accepted signatures, up to movement that no checker looks at |
| MultiBlock.TransferOutcome | fuzz_props/src/generators.rs:138-148 | An accepted transfer moves its amount and nothing else |
| MultiBlock.TransferTotal | fuzz_props/src/invariants.rs:120-126 | A transfer moves the total of a set only when it crosses the boundary of the set |
| MultiBlock.TransferRaisesNoAlarm | fuzz_props/src/invariants.rs:391-436 | All five checks are silent on a transfer iff it is rejected, moves nothing or stays on one side of the tracked set |
| MultiBlock.AttemptIsDirect | fuzz_props/src/invariants.rs:269-282 | An attempt on the specified machine is the direct path at its own clock and again at that of the replay |
| Conservation.SettleMovesTotal | fuzz_props/src/privacy.rs:139-144 | Settlement moves the total of any set of accounts by the net of the effects declared on them |
| Conservation.ShieldedTotal | fuzz_props/src/privacy.rs:31-39 | An accepted shielded transaction moves the total of any set of accounts by exactly credits minus debits declared on them |
| MultiBlock.AcceptedConservesIffBalanced | fuzz_props/src/invariants.rs:120-126 | An accepted transaction of either kind conserves a tracked total iff what it declares is balanced: no crossing of the boundary, effects that cancel out |
| MultiBlock.AttemptPassesIffQuiet | fuzz_props/src/invariants.rs:391-436 | For a submission of either kind all five checks pass iff it is rejected, or balanced with no tracked account signing twice |
| MultiBlock.RunPassesIffQuiet | fuzz/fuzz_targets/fuzz_multi_block_state_sequence.rs:66-115 | Over any sequence of submissions the checks pass iff each is quiet in turn, and then no replay drifts |
| MultiBlock.TargetPassesIffQuiet | fuzz/fuzz_targets/fuzz_multi_block_state_sequence.rs:55-142 | On transactions of the model the whole loop, long-range comparison included, passes iff each submission is quiet in turn |
| MultiBlock.TargetRaisesNoAlarm | fuzz/fuzz_targets/fuzz_multi_block_state_sequence.rs:66-142 | It passes on transfers among tracked accounts mixed with any submissions that are rejected |
| MultiBlock.BoundaryTransferIsReported | fuzz_props/src/invariants.rs:120-126 | A concrete transfer out of the tracked set is accepted by the machine and reported by the checks |
| Generators.ArbitraryFuzzState | fuzz_props/src/generators.rs:94-121 | For all draws: the first occurrences, in draw order, of distinct non-reserved ids, at most 8, each with the key of its draw, the id of that key and an eighth of the raw balance |
| Generators.DrawDeterminesAccount | fuzz_props/src/generators.rs:101-107 | A draw determines its account |
| Generators.EveryBalanceIsDrawn | fuzz_props/src/generators.rs:105-107 | The balances that some draw gives are exactly those up to the cap |
| Generators.DrawIsReadBack | fuzz_props/src/generators.rs:77-93 | What genesis stores for a generated account is an eighth of the raw balance of its draw |
| Generators.SystemAccountsReadBack | fuzz_props/src/genesis.rs:26-46 | The system accounts read back as given, whatever balances were supplied |
| Generators.KeptAreWellGenerated | fuzz_props/src/generators.rs:86-93 | First occurrences of non-reserved draws are distinct, keyed, capped and at most 8 |
| Generators.BiasedValidNonceAmount | fuzz_props/src/generators.rs:123-136 | Nonce at most 3 and amount within the balance, small draws kept as they are |
| Generators.BiasedIsRemainder | fuzz_props/src/generators.rs:133-134 | Nonce and amount are the remainders of the raw draws modulo 4 and the saturated successor of the balance |
| Generators.BiasedAmountReach | fuzz_props/src/generators.rs:134 | Every amount up to the balance is reachable, but for the top one at balance MAX |
| Generators.ReservedIsOverlay | fuzz_props/src/tests/generators.rs:114-156 | The reserved ids are exactly the ids genesis populates by itself |
| Generators.GenesisReadsBack | fuzz_props/src/genesis.rs:19-46 | After the last-write-wins overlay every generated account reads back its balance with nonce 0 |
| Generators.ReservedIsOverwritten | fuzz_props/src/generators.rs:80-85 | A reserved id reads back what the overlay stores, whatever was supplied |
| Generators.GenesisTotalFits | fuzz_props/src/generators.rs:67-73 | The total of the generated accounts at genesis is at most eight caps and never overflows |
| Xorshift.StepIsBijective | fuzz_props/src/tests/privacy.rs:160-167 | The step has a two-sided inverse on 64-bit words |
| Xorshift.StepIsLinear | fuzz_props/src/tests/privacy.rs:160-167 | The step of a sum of words is the sum of their steps |
| Xorshift.StepOnOneBit | fuzz_props/src/tests/privacy.rs:160-167 | Its values on the 64 one-bit words, which fix it |
| Xorshift.NeverStuck | fuzz_props/src/tests/privacy.rs:151-167 | Over any number of calls zero is reached from zero only |
| Xorshift.RepeatsReturnToSeed | fuzz_props/src/tests/privacy.rs:151-167 | A repeated state leads back to the seed: the orbit has no dead tail |
| Xorshift.SeedNeverSticks | fuzz_props/src/tests/privacy.rs:156-158 | From the fixed seed no call returns zero |
| Xorshift.LeBytesRoundTrip | fuzz_props/src/tests/privacy.rs:171 | Reading the eight bytes back, least significant first, gives the word |
| Xorshift.Rng.constructor | fuzz_props/src/tests/privacy.rs:156-158 | The generator starts at the fixed seed |
| Xorshift.Rng.NextU64 | fuzz_props/src/tests/privacy.rs:160-167 | The three shift-xor updates return and store the next word |
| Xorshift.Rng.Fill | fuzz_props/src/tests/privacy.rs:169-176 | Byte i of the buffer is byte i mod 8 of output i / 8 + 1, last short chunk included; exactly that many calls are made |
| Xorshift.CopyChunk | fuzz_props/src/tests/privacy.rs:172-174 | One chunk takes the leading bytes of one output and the rest of the buffer keeps its contents |

## Left out

- The state machine type `V03State` is defined in another repository and is not part of this model; it is modelled on values, so its update in place, cloning and aliasing are not captured.  `Model` and `Rng`, which the harness defines, are classes.
- A signer nonce at its largest value makes the protocol panic (`fuzz_props/src/tests/privacy.rs:179-183`); it is modelled as a rejection, `NonceOverflow`, before anything is written.
- The code of `execute_check_on_state` is defined in that other repository too: the direct path is written from the effects that the targets assert of it, and shares with the split path the fold of one account's effects and the shape of the journal.
- The order of the checks inside the shielded validator is only known in part; it decides which reason is reported, never whether a transaction is accepted.
- The diff of a transaction does not contain the nonce increments: application writes the accounts, then increments the signers, as `fuzz_apply_state_diff_split_path.rs:12-15` says.  `fuzz_validate_execute_consistency.rs:80-90` compares whole diff accounts with the post-state; the deciding code is not part of this model.
- The guard on system accounts is applied to the public actions of shielded transactions as well, following `fuzz_sequencer_vs_replayer.rs:49-52`.
- The root of the commitment tree is recorded once per accepted transaction, after its last leaf; the tree itself is an uninterpreted function of the leaves.
- The three clock accounts are one account, whose record advances once per block.
- Deployment of programs: it goes through the `program_loader` program (`fuzz_props/src/arbitrary_types.rs:223-224`), so in the source an accepted public transaction can change an image on chain; no transaction of the model does.  What a proof needs of such a change is stated for arbitrary program maps in ProofSurvivesIffImagesDo.
- The multi-block target also draws public transactions of arbitrary programs, which the model does not have; the shielded submissions of the multi-block theorems are never drawn by it.  What the checks imply is proved for an arbitrary machine all the same.
- Programs other than the native token: their settlement is an uninterpreted function, their public transactions appear only as the arbitrary machine of `Pipeline`.  Whether registering named programs at genesis writes accounts is not modelled.
- Which invariant a failed attempt of the multi-block target violates is stated by the checks, not again by the verdict of the target, which gives the index.
- The stateless gate is a predicate in `Pipeline`; the shielded builders are taken to pass it, as their targets say they do.
- Signatures, hashing, Borsh, the Merkle tree, receipts and encryption: ids are equality types, a proof is the journal it is bound to, a ciphertext is opaque.  The balance shard always decodes.
- Decoding of `Unstructured` bytes: every draw is an arbitrary input, and running out of bytes is a shorter list of draws.
- Self-transfers in the reference model, which the target excludes by construction; the protocol side rejects them.
- LockstepProofs.NonceIsAcceptedCount: stated for schedules of at most 2^128 - 1 commands, where the target runs at most 31; without a bound the count is modulo 2^128, which NonceLedger and CountedUpWraps state.
- LockstepProofs.ClockNeverWraps: stated while the timestamp fits 64 bits; beyond that the source would wrap or panic, depending on the build.
- The encoding, signature, Merkle tree and witness targets only assert facts about code that is not shown; scripts, CI, corpus and coverage tooling hold no state machine.
