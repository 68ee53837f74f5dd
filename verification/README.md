# Verification models of Pono's proof engines

A Dafny model of the parts of the Pono model checker on which its verdicts rest: the
safety engines IC3, dual approximated reachability (DAR), interpolation sequences (ISMC),
interpolation-based model checking, k-induction and BMC; the liveness layer with the
liveness-to-safety translation and k-liveness; and beneath them the transition systems,
the unrollers, and the abstractions of IC3SA and IC3IA. `dafny verify dfyconfig.toml`
checks all of it.

## How the model is built

Engines are classes with the fields of the original, and their methods change them step by
step in its loops: frames are compacted in place, sequences extended and overwritten, the
solver stack pushed and popped. A method says what it leaves behind in terms of sets of
states, runs or models; the lemmas say what that is worth.

The SMT solver and the interpolating solver are known by their contracts alone (`Solver`,
and the first members of `IC3`). A query is the finite set of its models; which model, core
or interpolant comes back is left open, so whatever is proved holds for every answer.
Interpolation sequences are inductive chains. A safety system is (Init, T, Bad) over a
finite set of states; T is never taken to be total unless a clause says so. Where terms
matter (unrolling, substitution, instrumentation, justification, predicates) the model works
on terms with an evaluation function, over arbitrary values.

| file | original | main result |
|---|---|---|
| `Systems`, `Solver`, `FixedPoint` | engines, smt-switch | runs, invariants, oracle contracts, fixed points of forward and backward sequences |
| `IC3Formulas`, `IC3Frames`, `IC3Goals`, `IC3Progress`, `IC3` | engines/ic3base.cpp, engines/ic3.cpp | soundness of both verdicts, termination of blocking, a bound on UNKNOWN |
| `Lifting` | engines/ic3.cpp | when lifted predecessors stay in their frame, and when the core is empty |
| `DualApproxReach`, `InterpSeqMC` | engines of the same names | soundness, no fixed point passed over, decision on N states |
| `InterpolantMC` | engines/interpolantmc.cpp | soundness without totality, eager unrolling, when the invariant excludes Bad, decision on N states |
| `KInduction` | engines/kinduction.cpp | soundness of all exits with variables skipped, lazy equals eager, decision on N states |
| `BMC`, `BMCGaps` | engines/bmc.cpp | what each search for a shortest counterexample finds, which bounds are tested, and what they miss |
| `Liveness`, `LivenessToSafety`, `LivenessTranslator`, `TypedSystems`, `LivenessExact` | modifiers/liveness_to_safety_translator.cpp | the translation is exact, down to the terms it writes |
| `KLiveness` | engines/kliveness.cpp | encodings, soundness, revisits, decision |
| `Terms`, `TransitionSystems`, `SystemShape` | core/ts.cpp | the shape of T, whatever the calls that built it |
| `Unroller`, `FunctionalUnroller` | core | unrolling keeps meaning; round trip |
| `Justification`, `IC3SA`, `RelationalView` | engines/ic3sa.cpp | sufficient partial models, partition cubes, the relational copy |
| `PredicateAbstraction`, `IC3IA` | modifiers/implicit_predicate_abstractor.cpp, engines/ic3ia.cpp | the abstraction is exact, refinement makes progress |

## Where code and comments differ

The model follows the code. Each of these is a lemma with a concrete input or an exact
condition.

- engines/ic3base.h:335 promises `pred -> F[i-1]`. Lifting for deterministic systems can leave
  that frame (`Lifting.LiftedCubeLeavesFrame`, `Lifting.LiftingKeepsFrameExactly`); soundness does
  not need the promise.
- engines/ic3.cpp:126-128 asserts a non-empty core, which fails without initial states
  for some deterministic systems (`Lifting.EmptyCoreHappens`, `IC3.EmptyCoreExact`). The run
  then ends in the outcome `EmptyCore`.
- The invariant of interpolation-based model checking may contain bad states that deadlock
  (`InterpolantMC.InvarExcludesBadIff`), so a check that it implies the property can fail
  although the verdict is right.
- core/functional_unroller.cpp:60-64 says new variables come every `interval_` steps; the code
  tests the step that was asked for (`FunctionalUnroller.CreatedAsDocumented`).
- core/unroller.h says the unroller does not cope with variables added later; it does
  (`Unroller.Unroller.AtTime`). It describes the current time of a term as that of its current
  states; for a term over next states alone it is one more (`Unroller.CurrTimeOfUnrolled`).
- engines/bmc.cpp:145-152 takes a counterexample at the start of the interval to mean that the
  interval has length 1, and reports its end (`BMC.ReportedBoundExact`). The default search is
  not always minimal (`BMC.DefaultSearchExact`). Intervals longer than 1 can miss
  counterexamples for good, against the comment at engines/bmc.cpp:107-109 (`BMC.DeadlockHidesCex`,
  `BMC.NegInitHidesCex`); exactly which is said by `BMCGaps.MissedExactly`,
  `BMCGaps.RightTotalIffNothingMissed` and `BMCGaps.NothingMissedIff`.
- engines/ic3sa.cpp:233 wants the relational copy to have the semantics of the functional system.
  It need not when core/ts.cpp:245 recorded a state-only input constraint
  (`RelationalView.CopyExact`, `RelationalView.ReplayableCopyExact`, `RelationalView.LostInitialState`).

One more difference is settled in the model without a lemma: engines/bmc.cpp:171 asserts that the
less incremental option is off, also when the linear one is on as well. The model lets the linear
search win, as a build without assertions does.

## Model

| member | source | states |
|---|---|---|
| Systems.InvariantProves | engines/ic3base.cpp:454-493 | a set that contains Init, is closed under T and excludes Bad rules out every counterexample of any length |
| Systems.ShortestExists | engines/kinduction.cpp:126-269 | a system with a counterexample has a shortest one, no longer than the given one |
| Systems.RunsExact | core/unroller.cpp:37-48 | the models of a(0), T(0), ..., T(k-1), b(k) are exactly the runs of k transitions from a to b |
| Solver.GetSequenceInterpolants | engines/interp_seq_mc.cpp:118-206 | unsat exactly when no run of m transitions leads from a to b, and then the chain is inductive, not merely sound cut by cut |
| IC3Formulas.SortCorrect | engines/ic3base.h:81-110 | the constructor keeps the children as a multiset and sorts them |
| IC3Formulas.NegateExact | engines/ic3base.cpp:308-333 | negation holds in exactly the other states and flips the orientation |
| IC3Formulas.NegateBack | engines/ic3base.cpp:308-333 | negating twice gives back the meaning |
| IC3Formulas.SubsumesIff | engines/ic3base.cpp:64-74 | on sorted children without repeats, the linear includes scan finds subsumption if and only if the literals of the one are among those of the other |
| IC3Formulas.SubsumedImplied | engines/ic3base.cpp:64-74 | a subsumed clause is implied, so it may be dropped |
| IC3Frames.FramesGrow | engines/ic3base.cpp:922-941 | each frame implies every later one |
| IC3Frames.StrengthenKeepsInv | engines/ic3base.cpp:868-894 | adding a clause that holds initially and is inductive relative to the frame below its level keeps all frame invariants |
| IC3Frames.AppendStrengthens | engines/ic3base.cpp:896-902 | storing a clause at level k strengthens the frames 1..k by it and no other |
| IC3Frames.PruneThenAppend | engines/ic3base.cpp:868-894 | dropping what the new clause subsumes and then appending it changes the frames just as appending alone |
| IC3Frames.LabelsExact | engines/ic3base.cpp:904-920 | the states the activated labels leave are those of the stored frame, at level 0 too |
| IC3Frames.SameMeaningKeepsInv | engines/ic3base.cpp:774-807 | rearranging clauses without changing any frame keeps the invariants and the agreement with the solver |
| IC3Frames.DropImplied | engines/ic3base.cpp:774-807 | clauses of a frame that the next one implies can go without changing any frame |
| IC3Frames.PushFrameKeepsInv | engines/ic3base.cpp:849-866 | once no frontier state steps into Bad, a new frame with the property alone keeps the invariants |
| IC3Frames.EmptyFrameProves | engines/ic3base.cpp:454-493 | when frame j is empty, frame j+1 contains Init, is closed under T and excludes Bad |
| IC3Goals.ChainRuns | engines/ic3base.cpp:1038-1055 | from every state of a goal cube a real run passes through the cubes of its chain into Bad |
| IC3Goals.TraceGenuine | engines/ic3base.cpp:1038-1055 | the trace of a goal whose cube holds an initial state describes a real run from Init to Bad |
| IC3Goals.ProofGoalQueue.Top | engines/ic3base.h:129-161 | the top goal has the least index of all queued goals |
| IC3Goals.ProofGoalQueue.NewProofGoal | engines/ic3base.cpp:91-98 | the goal joins the queue and the order is kept |
| IC3Goals.ProofGoalQueue.Pop | engines/ic3base.cpp:102-102 | the top goal and nothing else leaves the queue |
| IC3Goals.FrameSumShrinks | engines/ic3base.cpp:657-748 | adding a clause that excludes a state of some frame up to k makes the sum of the frame sizes smaller |
| IC3Goals.BlockedCountPop | engines/ic3base.cpp:691-700 | skipping a blocked goal lowers the number of queued blocked goals by one |
| IC3Progress.ProperSteps | engines/ic3base.cpp:454-493 | among m consecutive frames over N states at most N differ from their successor |
| IC3Progress.EqualPairsPay | engines/ic3base.cpp:774-807 | a propagation phase without a proof lowers the sum of frame sizes by one for every pair of equal neighbours |
| IC3Progress.PhaseSpends | engines/ic3base.cpp:454-493 | blocking, opening a frame and propagating without a proof stays within the budget for the next frontier |
| IC3Progress.BudgetBound | engines/ic3base.cpp:168-229 | the budget is overdrawn once the frontier passes four times the number of states |
| IC3.ReduceAssumpUnsatCore | engines/ic3.cpp:122-124 | the solver-side contract: a selection of the assumptions that still excludes every state of the formula |
| IC3.CheckSatAssuming | engines/ic3base.cpp:542-653 | the solver-side contract: a model, or a core that suffices for unsat |
| IC3.ModelLitsExact | engines/ic3.cpp:37-55 | the cube read off a model holds in that state alone |
| IC3.IC3.RelIndCheck | engines/ic3base.cpp:542-653 | success gives a sub-cube, disjoint from Init, that no transition from the frame below enters; failure means some transition does, and the predecessor cube leads into c from every one of its states |
| IC3.IC3.GeneralizeByCore | engines/ic3base.cpp:600-631 | the core part of the cube with dropped literals re-added is disjoint from Init and still unreachable from the frame below |
| IC3.IC3.FixIfIntersectsInitial | engines/ic3base.cpp:969-985 | the kept literals stay, only dropped ones are re-added, and the result excludes Init |
| IC3.IC3.Predecessor | engines/ic3base.cpp:809-847 | the predecessor cube meets the frame below, all of it steps into the target; there is none only when lifting comes back empty, for a deterministic system without initial states |
| IC3.IC3.PredecessorGeneralization | engines/ic3.cpp:74-133 | lifting keeps that every state of the cube steps into the target; without determinism it also stays inside the frame |
| IC3.EmptyCoreExact | engines/ic3.cpp:94-128 | the assertion that the core is non-empty can fail exactly for a deterministic system all of whose transitions under the inputs of the model lead into the target |
| IC3.EmptyCoreNeedsEmptyInit | engines/ic3.cpp:126-128 | and only for a system without initial states |
| IC3.IC3.ComputeOffenders | engines/ic3.cpp:94-117 | the set handed to the reducer holds exactly the states the lifted cube must exclude, in both branches |
| IC3.IC3.ReachesBad | engines/ic3base.cpp:420-452 | answers exactly whether a frontier state steps into Bad, with a cube all of whose states do |
| IC3.IC3.IsBlocked | engines/ic3base.cpp:750-772 | true exactly when the goal cube is disjoint from its frame, although the first test is only syntactic |
| IC3.IC3.CheckIntersectsInitial | engines/ic3base.cpp:951-967 | false exactly when the cube excludes every initial state |
| IC3.IC3.InductiveGeneralization | engines/ic3base.cpp:335-410 | the clause returned excludes all of c, holds initially and is inductive relative to the frame below; literal dropping ends, and no literal is left untried: for each, a cube without it that contains the others met Init or was not relatively inductive |
| IC3.IC3.DropSucceeds | engines/ic3base.cpp:370-400 | a shorter cube is accepted exactly if it is disjoint from Init and relatively inductive |
| IC3Formulas.MarkedStayInFront | engines/ic3base.cpp:358-401 | sorting the cube again after a failed drop moves no untried literal to the front of the scan, which is not reset |
| IC3.IC3.FindHighestFrame | engines/ic3base.cpp:987-1014 | the clause returned implies the given one and may be added up to the level returned, which is the frontier or one from which some transition leaves the clause |
| IC3.IC3.RemoveSubsumed | engines/ic3base.cpp:868-894 | in-place compaction keeps exactly the clauses that are not subsumed |
| IC3.IC3.ConstrainFrame | engines/ic3base.cpp:868-894 | the frames 1..i gain exactly the clause and lose exactly the stored clauses it subsumes, frame i stores it, the states of all others stay, and solver and store still agree |
| IC3.IC3.BlockGoal | engines/ic3base.cpp:702-727 | after blocking, some clause at or above the goal index excludes the whole goal cube, stored as high as relative induction allows |
| IC3.IC3.BlockAll | engines/ic3base.cpp:657-748 | ends on every finite system; true means no frontier state steps into Bad, false leaves a genuine counterexample in cex_ |
| IC3.IC3.DrainGoals | engines/ic3base.cpp:667-741 | the inner loop ends under the lexicographic measure (frame sizes, blocked goals queued, top index) and cannot empty the queue without a frame losing a state |
| IC3.IC3.ProcessTop | engines/ic3base.cpp:675-740 | each round decreases that measure and loses no goal that is not blocked |
| IC3.IC3.BlockTop | engines/ic3base.cpp:702-734 | blocking the top goal shrinks a frame, and the goal re-added above is disjoint from the frame below it |
| IC3.IC3.PredecessorOk | engines/ic3base.cpp:645-648 | a predecessor goal at index i is disjoint from frame i-1 and not yet blocked |
| IC3.IC3.ReaddedOk | engines/ic3base.cpp:729-734 | a goal re-added above its clause is disjoint from the frame below it |
| IC3.IC3.BlockingShrinks | engines/ic3base.cpp:702-727 | blocking a goal that was not blocked removes a state from some frame |
| IC3.IC3.Propagate | engines/ic3base.cpp:774-807 | true exactly when the frame is emptied; frames only shrink, the next one keeps its clauses and the others are untouched; of two equal neighbours the lower is emptied unless it lost a state meanwhile |
| IC3.IC3.PropagateClause | engines/ic3base.cpp:780-803 | a clause is kept if and only if some transition from the frame leaves it, and is otherwise implied one frame up, while the frame is compacted in place |
| IC3.IC3.Step01 | engines/ic3base.cpp:495-540 | the base checks find every counterexample of at most one transition |
| IC3.IC3.Step | engines/ic3base.cpp:454-493 | a proof is an inductive invariant, a counterexample is real, otherwise one more transition is covered, no frame below the frontier is empty and the budget is kept |
| IC3.IC3.ResetSolver | engines/ic3base.cpp:1076-1127 | rebuilding the label assertions from the store changes no frame |
| IC3.IC3.CheckUntil | engines/ic3base.cpp:168-229 | TRUE returns an inductive invariant and safety, FALSE a genuine run, UNKNOWN excludes counterexamples up to k, leaves no frame below the frontier empty and is impossible for k above four times the number of states; only lifting on a deterministic system without initial states can cut the run short |
| IC3.IC3.CoveredBound | engines/ic3base.cpp:454-493 | the frames exclude every counterexample of at most reached_k_ transitions |
| Lifting.LiftingKeepsFrameExactly | engines/ic3.cpp:93-130 | for the query the engine issues, every core keeps the lifted cube inside the frame if and only if each state outside has an offender that agrees with the predecessor wherever that state does; without determinism that always holds |
| Lifting.LiftedCubeLeavesFrame | engines/ic3base.h:335-336 | a deterministic system with a bad state, the frames the engine may hold after bound 2, a goal that steps into Bad and a core for which the written promise `pred -> F[i-1]` fails |
| Lifting.EmptyCoreHappens | engines/ic3.cpp:126-128 | a system that passes the base checks and a model of its first query at bound 2 for which the empty core is a legal answer |
| FixedPoint.CheckFixedPoint | engines/dual_approx_reach.cpp:411-437 | finds the first member covered by the union of the earlier ones, or reports that there is none |
| FixedPoint.ForwardFixedPoint | engines/dual_approx_reach.cpp:393-409 | a covered member of a forward sequence that avoids Bad makes the union of the earlier ones an inductive invariant |
| FixedPoint.BackwardFixedPoint | engines/dual_approx_reach.cpp:393-409 | a covered member of a backward sequence makes the complement of the union an inductive invariant |
| FixedPoint.NoFixedPointBound | engines/dual_approx_reach.cpp:393-437 | without a fixed point the sequence is no longer than the states outside Init and Bad allow |
| FixedPoint.ForwardRulesOut | engines/dual_approx_reach.cpp:121-148 | a forward sequence that avoids Bad excludes every counterexample shorter than it |
| DualApproxReach.DualApproxReach.CheckUntil | engines/dual_approx_reach.cpp:93-119 | TRUE is an inductive invariant, FALSE a shortest counterexample, UNKNOWN excludes counterexamples up to k and is impossible once k exceeds the number of states outside Init and Bad, or while either sequence has a fixed point |
| DualApproxReach.DualApproxReach.Step | engines/dual_approx_reach.cpp:121-148 | keeps both sequences, apart from each other, and the solver level; it ends in a proof, in a shortest counterexample, or covers one more bound without a fixed point in either sequence |
| DualApproxReach.DualApproxReach.Step0 | engines/dual_approx_reach.cpp:150-172 | ends with a shortest counterexample exactly when Init meets Bad |
| DualApproxReach.DualApproxReach.LocalStrengthen | engines/dual_approx_reach.cpp:191-239 | extends both sequences by one member, from the last index at which a step into the other sequence is impossible, or, if there is none, leaves them untouched; failing at bound 1 it holds a real counterexample |
| DualApproxReach.DualApproxReach.GlobalStrengthen | engines/dual_approx_reach.cpp:242-316 | a real counterexample of the current length, or both sequences extended from the first index that no run from Init gets past; the exceptions for unexpected answers cannot be thrown |
| DualApproxReach.DualApproxReach.StrengthenForward | engines/dual_approx_reach.cpp:304-313 | each member up to the length of the interpolation sequence is conjoined with its interpolant, the others stay, and the sequence stays a forward one |
| DualApproxReach.DualApproxReach.PairwiseStrengthen | engines/dual_approx_reach.cpp:319-391 | from an index where one step is impossible both sequences extend, the members before it stay, the others only shrink, the two end up disjoint wherever a run is split, and no interpolation query in between can be satisfiable |
| DualApproxReach.DualApproxReach.CheckFixedPoints | engines/dual_approx_reach.cpp:393-409 | a proof is an inductive invariant; none means that neither sequence has a fixed point, which bounds the number of steps by the states left |
| InterpSeqMC.InterpSeqMC.CheckUntil | engines/interp_seq_mc.cpp:90-116 | TRUE is an inductive invariant, FALSE a shortest counterexample, UNKNOWN excludes counterexamples up to k, means that the sequence has no fixed point, and is impossible once k exceeds the number of states outside Init and Bad |
| InterpSeqMC.InterpSeqMC.Step | engines/interp_seq_mc.cpp:118-206 | a proof, a shortest counterexample, or one more bound covered by a sequence without fixed point |
| InterpSeqMC.InterpSeqMC.Conjoin | engines/interp_seq_mc.cpp:167-174 | each member gains exactly its interpolant, and the accumulated sequence stays inductive and away from Bad |
| InterpSeqMC.InterpSeqMC.Replay | engines/interp_seq_mc.cpp:179-202 | the replayed query yields a shortest counterexample |
| InterpSeqMC.InterpSeqMC.CheckReachSeq | engines/interp_seq_mc.cpp:248-274 | a fixed point is an inductive invariant; none means there is no fixed point, which bounds the length of the sequence |
| InterpolantMC.ConvergedProves | engines/interpolantmc.cpp:192-197 | a converged bound proves safety for every T, total or not: the set contains Init, is closed under T and no reachable state is bad |
| InterpolantMC.EagerBound | engines/interpolantmc.cpp:230-239 | m interpolants at bound i exclude every counterexample of fewer than m+i transitions, so the eager jump skips none |
| InterpolantMC.InvarExcludesBadIff | engines/interpolantmc.cpp:192-197 | the invariant handed out excludes Bad for all interpolants if and only if every bad state can run i-1 transitions |
| InterpolantMC.DeadBadAdmitted | engines/interpolantmc.cpp:192-197 | a bad state that deadlocks sooner is contained in the invariant of a legal, converged run |
| InterpolantMC.RightTotalRuns | engines/interpolantmc.cpp:192-197 | for right-total T the condition always holds |
| InterpolantMC.AllThatReachBad | engines/interpolantmc.cpp:141-163 | because from then on the states with Bad within the unrolling are all that can reach Bad |
| InterpolantMC.ConclusiveFrom | engines/interpolantmc.cpp:165-246 | with all properties selected and right-total T no bound from the number of states on is inconclusive |
| InterpolantMC.InterpolantMC.CheckUntil | engines/interpolantmc.cpp:107-133 | TRUE is safety with a closed set around Init, an inductive invariant if T is right-total; FALSE a shortest counterexample; UNKNOWN excludes counterexamples up to k and means that no tested bound converged; for right-total T, all properties selected and no eager unrolling it is impossible once k reaches the number of states |
| InterpolantMC.InterpolantMC.Step | engines/interpolantmc.cpp:135-247 | keeps the unrolling, the selected positions and the reached bound in step under every combination of the options, and answers neither way only where the bound is inconclusive |
| InterpolantMC.InterpolantMC.Interpolate | engines/interpolantmc.cpp:165-246 | the loop ends in a proof, in a counterexample on its first query, or with a larger bound, and the last only after legal interpolants each of which adds a state, when the image of the source of the query meets the states from which Bad is within the unrolling |
| InterpolantMC.InterpolantMC.Interpolant | engines/interpolantmc.cpp:174-190 | in both directions the result covers the image of its source and excludes B |
| InterpolantMC.InterpolantMC.HasConverged | engines/interpolantmc.cpp:271-298 | true exactly when the interpolant adds no state |
| InterpolantMC.InterpolantMC.Replay | engines/interpolantmc.cpp:203-217 | the first query satisfiable means a counterexample that ends at bound i exactly, so the replay is satisfiable |
| KInduction.Splice | engines/kinduction.cpp:274-297 | cutting a run between two positive times with equal updated variables leaves a run |
| KInduction.ShortestDiffers | engines/kinduction.cpp:274-297 | a shortest counterexample satisfies every simple-path clause, although variables without update are skipped |
| KInduction.WindowRespects | engines/kinduction.cpp:274-297 | so does every window of it, renumbered from 0 |
| KInduction.PrefixExit | engines/kinduction.cpp:139-193 | an unsatisfiable simple-path or initial-state query proves safety |
| KInduction.SuffixExit | engines/kinduction.cpp:213-229 | an unsatisfiable property query proves safety |
| KInduction.BaseCase | engines/kinduction.cpp:242-249 | the strengthened base query still excludes every counterexample of exactly i transitions |
| KInduction.SimplePathsEnd | engines/kinduction.cpp:299-392 | on N states no simple path has N transitions |
| KInduction.SimplePathsEndSooner | engines/kinduction.cpp:274-297 | because variables without update are skipped, no simple path has more transitions than the updated variables have valuations |
| KInduction.NestedCexSound | engines/kinduction.cpp:403-462 | the nested formula of the final base case has only counterexamples as models |
| KInduction.NestedCexComplete | engines/kinduction.cpp:403-462 | and has every counterexample up to the bound |
| KInduction.BadSomewhereComplete | engines/kinduction.cpp:403-476 | the flat formula finds them too when T is right-total |
| KInduction.KInduction.CheckUntil | engines/kinduction.cpp:91-272 | TRUE is sound at every exit and under all options; FALSE is real, and shortest unless base cases are postponed; UNKNOWN means that none of the queries that could end the run was unsat at a tested bound, and with simple paths it is impossible from the number of states on, or past the number of valuations of the updated variables; the two option exceptions are exact |
| KInduction.KInduction.CheckBound | engines/kinduction.cpp:126-269 | one round either decides soundly or leaves the context ready for the next bound, and then there is a simple path of that length, one from Init that never returns, and one into Bad that was not bad before, as far as the options ask for them |
| KInduction.KInduction.Conclude | engines/kinduction.cpp:147-153 | TRUE only when safe, FALSE only with a counterexample of the final base case |
| KInduction.KInduction.FinalBaseCaseCheck | engines/kinduction.cpp:403-462 | answers exactly whether some counterexample has at most the given length |
| KInduction.KInduction.CheckSimplePathEager | engines/kinduction.cpp:299-328 | unsat if and only if no run of length i satisfies all pairwise clauses |
| KInduction.KInduction.CheckSimplePathLazy | engines/kinduction.cpp:330-392 | terminates with the same answer as the eager check |
| KInduction.KInduction.ViolatedPairs | engines/kinduction.cpp:362-387 | adds only violated clauses, and none exactly when the model violates none |
| Liveness.LoopIsFair | modifiers/liveness_to_safety_translator.cpp:16-93 | repeating a closed loop in which every condition was met gives an infinite fair run |
| Liveness.FairRunHasLasso | modifiers/liveness_to_safety_translator.cpp:16-93 | a fair run through finitely many states contains a fair lasso |
| Liveness.FairRunIffLasso | modifiers/liveness_to_safety_translator.cpp:16-93 | on finitely many states a fair run exists if and only if a fair lasso does |
| LivenessToSafety.CexIsLasso | modifiers/liveness_to_safety_translator.cpp:25-93 | a bad state of the instrumented system closes a real fair lasso |
| LivenessToSafety.LassoIsCex | modifiers/liveness_to_safety_translator.cpp:25-93 | every fair lasso is found, by saving where it starts |
| LivenessToSafety.TranslationExact | modifiers/liveness_to_safety_translator.cpp:16-93 | the instrumented system reaches Bad if and only if the original has a fair run |
| LivenessTranslator.Translate | modifiers/liveness_to_safety_translator.cpp:16-93 | in place: the system keeps its variables, updates and constraints and gains exactly the oracle, loop and justice variables; the property returned fails exactly when a loop is closed with all flags up |
| LivenessTranslator.AddOracle | modifiers/liveness_to_safety_translator.cpp:25-36 | the save input and the saved state, initially false, set by save and kept |
| LivenessTranslator.AddLoopStates | modifiers/liveness_to_safety_translator.cpp:38-54 | one copy per original variable, loaded at the first save |
| LivenessTranslator.AddJusticeStates | modifiers/liveness_to_safety_translator.cpp:56-74 | one flag per condition, initially false, raised once saving has begun and the condition holds |
| LivenessTranslator.BuildProperty | modifiers/liveness_to_safety_translator.cpp:76-92 | the conjunction says saved, all variables equal to their copies, and all flags up |
| LivenessTranslator.OriginalPart | modifiers/liveness_to_safety_translator.cpp:16-93 | the original part of T does not see the instrumentation |
| LivenessTranslator.AddedUpdates | modifiers/liveness_to_safety_translator.cpp:33-73 | a step of the translated updates is a step of the original ones that records save, copies and flags |
| LivenessTranslator.InitDecodes | modifiers/liveness_to_safety_translator.cpp:32-64 | the initial valuations are those of the instrumented system |
| LivenessTranslator.ClosedDecodes | modifiers/liveness_to_safety_translator.cpp:76-92 | the property fails in exactly the bad states of the instrumented system |
| LivenessExact.StepDecodes | modifiers/liveness_to_safety_translator.cpp:16-93 | T of the translated system holds between two valuations exactly when the instrumented system steps between the states they encode |
| LivenessExact.EncodeDecodes | modifiers/liveness_to_safety_translator.cpp:16-93 | decoding an encoded state gives it back |
| LivenessExact.CexDecodes | modifiers/liveness_to_safety_translator.cpp:16-93 | a term-level counterexample is a counterexample of the instrumented system |
| LivenessExact.CexEncodes | modifiers/liveness_to_safety_translator.cpp:16-93 | and the other way round |
| LivenessExact.TranslateFindsLassos | modifiers/liveness_to_safety_translator.cpp:16-93 | over any values, the terms the translator leaves behind can violate the property it returns if and only if the given system has a fair lasso |
| LivenessExact.ViolationIsFair | modifiers/liveness_to_safety_translator.cpp:16-93 | so a violation always stands for an infinite fair run |
| LivenessExact.TranslateExact | modifiers/liveness_to_safety_translator.cpp:16-93 | with variables of finite sorts, loop copies having the sort of what they copy, they can violate it if and only if the given system has an infinite run meeting every justice condition infinitely often |
| TypedSystems.TypedConfined | modifiers/liveness_to_safety_translator.cpp:16-93 | finitely many variables of finite sorts have finitely many states |
| LivenessExact.ValidScoped | core/ts.cpp:182-273 | the precondition of the translator suffices for that, and its runs are those of the Init and T the system holds |
| KLiveness.FloorLog2Exact | engines/kliveness.cpp:143-147 | the binary width is the least that can hold k |
| KLiveness.CounterFirstHits | engines/kliveness.cpp:162-192 | under every encoding the counter equals its target for the first time at the k-th increment |
| KLiveness.OneHotStuck | engines/kliveness.cpp:169-174 | beyond the target a one-hot counter is zero for good |
| KLiveness.KTimesIsCex | engines/kliveness.cpp:137-192 | a run in which justice held k times violates the instrumented property |
| KLiveness.SafeCounterProvesLiveness | engines/kliveness.cpp:114-116 | safety for some k excludes every fair run, for all encodings |
| KLiveness.EncodingsAgree | engines/kliveness.cpp:162-192 | the three encodings have counterexamples for the same k |
| KLiveness.ChangeIsJustice | engines/kliveness.cpp:223-237 | in a counterexample the counter changes exactly at justice steps, wrap-around included |
| KLiveness.DetectRevisit | engines/kliveness.cpp:209-285 | for k > 1 answers exactly whether two justice steps agree on the compared variables |
| KLiveness.FindRevisit | engines/kliveness.cpp:239-284 | the visited map finds the first time whose values were seen before, or there is none |
| KLiveness.JusticeSteps | engines/kliveness.cpp:223-237 | the backward scan yields exactly the justice steps, in order |
| KLiveness.RevisitIsFair | engines/kliveness.cpp:254-279 | a revisit extends to an infinite fair run although the counter and variables without update are ignored |
| KLiveness.RevisitForced | engines/kliveness.cpp:239-284 | a counterexample for more rounds than there are value combinations has a revisit |
| KLiveness.KLiveness.CheckCount | engines/kliveness.cpp:83-126 | one round is TRUE or FALSE as its safety prover answers, with proof or fair run, or the count is passed over for the reasons above |
| KLiveness.KLiveness.CheckUntil | engines/kliveness.cpp:75-130 | TRUE excludes fair runs, FALSE exhibits one; every count passed over had no proof from its safety prover, no two justice steps of its counterexample agreed on the compared variables, and the bounded search found nothing, as far as the options ask for them; so with the revisit test a count above the number of value combinations is decided whenever its safety prover is |
| TransitionSystems.TransitionSystem.MakeStatevar | core/ts.cpp:293-302 | a fresh variable without update, or the exception; the deterministic flag is cleared either way |
| TransitionSystems.TransitionSystem.MakeInputvar | core/ts.cpp:286-291 | a fresh input, or the exception |
| TransitionSystems.TransitionSystem.SetInit | core/ts.cpp:161-170 | replaces Init; the shape survives only if no constraint had extended to Init |
| TransitionSystems.TransitionSystem.ConstrainInit | core/ts.cpp:172-180 | Init gains the conjunct unless it is not over current states |
| TransitionSystems.TransitionSystem.AssignNext | core/ts.cpp:182-216 | T gains the update, a second one or one over next states is refused; after a success in a functional system without constraints the deterministic flag says whether all variables have updates, otherwise it stays |
| TransitionSystems.TransitionSystem.AddInvar | core/ts.cpp:218-235 | the invariant joins Init, T and, primed, T; the flag is cleared even if it is refused |
| TransitionSystems.TransitionSystem.ConstrainInputs | core/ts.cpp:237-249 | the constraint joins T alone, but is recorded as extending to Init and the next state, which keeps the system replayable exactly if it mentions an input or was added before |
| TransitionSystems.TransitionSystem.AddConstraint | core/ts.cpp:251-273 | only a state-only constraint extends to Init and the next state, and only on request |
| TransitionSystems.FreeNextTarget | core/ts.cpp:182-273 | the target of a step may be exchanged for any that agrees on the updated variables and meets the primed constraints |
| TransitionSystems.PrimeMeans | core/ts.cpp:309-315 | the primed copy of a state term says of the next state what the term says of the current one |
| SystemShape.ValidFreeNext | core/ts.cpp:182-273 | every system built through the interface has the free-next shape that the revisit test relies on |
| SystemShape.ValidWellShaped | core/ts.cpp:182-273 | and, over finite sorts with the inputs projected away, the shape that k-induction relies on |
| SystemShape.TransitionsExact | engines/kinduction.cpp:274-297 | the projected system has exactly the transitions of the original |
| SystemShape.DeterministicStep | core/ts.cpp:205-215 | a system still marked deterministic has exactly one successor for every state and input |
| RelationalView.Abstract | engines/ic3sa.cpp:225-248 | the relational copy: same variables, updates and constraints, with every constraint recorded as extending added to Init and, primed, to T |
| RelationalView.CopyExact | engines/ic3sa.cpp:233-247 | the copy has the semantics of the original if and only if Init and T already imply every state-only constraint recorded as extending to them |
| RelationalView.ReplayableCopyExact | engines/ic3sa.cpp:233-247 | it has them whenever each such constraint really was added to Init and the next state, which every operation but constrain_inputs maintains |
| RelationalView.LostInitialState | core/ts.cpp:237-249 | a system with a state-only input constraint whose copy loses an initial state |
| Terms.SubstEval | core/unroller.cpp:37-48 | a substituted term has the value the term has under the values of the replacements |
| Terms.EvalAgree | engines/ic3sa.cpp:834-884 | a term depends on its free symbols only |
| Unroller.UnrollMeans | core/unroller.cpp:37-48 | an unrolled term says of step k what the term says of a step |
| Unroller.Unroller.AtTime | core/unroller.cpp:37-48 | the result has the meaning of t at step k, whatever variables joined the system since; untiming it gives t with next states read as current ones |
| Unroller.UntimeUndoes | core/unroller.cpp:50-53 | untime undoes at_time exactly on the terms without next-state variables |
| Unroller.Unroller.VarAtTime | core/unroller.cpp:83-105 | every timed copy is made once, so make_symbol never meets a name in use |
| Unroller.Unroller.VarCacheAtTime | core/unroller.cpp:107-154 | the entry returned knows all variables of the system, and the refresh brings every older entry up to date |
| Unroller.Unroller.RefreshEntries | core/unroller.cpp:131-151 | all entries cover all variables afterwards |
| Unroller.Unroller.GetCurrTime | core/unroller.cpp:65-81 | the least time of the variables, with both exceptions exact |
| Unroller.CurrTimeOfUnrolled | core/unroller.cpp:65-81 | on an unrolled term it is k if and only if the term mentions a current state or an input; otherwise k+1 |
| FunctionalUnroller.CacheYields | core/functional_unroller.cpp:50-108 | for every interval and order of requests, a model of the extra constraints up to k gives each entry the value at step k of the run it describes |
| FunctionalUnroller.ConstraintsHarmless | core/functional_unroller.cpp:86-91 | the extra constraints exclude no run: filling in the copies satisfies them and changes nothing of the run |
| FunctionalUnroller.FunctionalUnroller.AtTime | core/functional_unroller.cpp:41-48 | under the extra constraints up to k the result is t at step k; next-state variables are refused; older entries and constraints stay |
| FunctionalUnroller.FunctionalUnroller.VarCacheAtTime | core/functional_unroller.cpp:50-108 | which entries introduce new copies depends on the step asked for |
| FunctionalUnroller.FunctionalUnroller.ExtraConstraintsAt | core/functional_unroller.h:78-85 | given the constraints before it, the one of step k holds exactly when the copies made for that step have the values of the run; refused exactly for steps not unrolled yet |
| FunctionalUnroller.SatisfiesExact | core/functional_unroller.cpp:86-91 | the extra constraints up to k hold in exactly the models whose copies follow the run |
| FunctionalUnroller.CreatedAsDocumented | core/functional_unroller.cpp:60-64 | a request creates copies every interval steps, as documented, if and only if the interval is at most 1, it builds at most one entry past the first, or no multiple of the interval is passed |
| Justification.ControllingFound | engines/ic3sa.cpp:901-934 | a controlled term has an argument with the controlling value, so the assertion holds |
| Justification.ControllingForces | engines/ic3sa.cpp:886-934 | that argument with that value forces the value of the term in every model |
| Justification.ControlledExact | engines/ic3sa.cpp:886-899 | a connective is taken as controlled if and only if one of its arguments alone fixes its value, whatever the others are |
| Justification.CoiOfControlled | engines/ic3sa.cpp:864-868 | where an argument alone fixes a connective, exactly what justifies the first such argument is collected |
| Justification.CoiOfIte | engines/ic3sa.cpp:850-863 | of an if-then-else only the condition and the branch taken are collected |
| Justification.CoiSuffices | engines/ic3sa.cpp:834-884 | any model that agrees on the collected symbols and obeys the updates gives the term its value in the solver model |
| IC3SA.JustifyCoi | engines/ic3sa.cpp:834-884 | the worklist with its visited set terminates and collects exactly the symbols of the recursive definition |
| IC3SA.GetControlling | engines/ic3sa.cpp:901-934 | returns the first argument with the controlling value |
| IC3SA.ClosedCollects | engines/ic3sa.cpp:843-883 | a set of visited terms closed under visits has collected all they need |
| IC3SA.GetEquivalenceClassesOfSort | engines/ic3sa.cpp:688-709 | the classes hold exactly the terms over the kept symbols, keyed by their value |
| IC3SA.PartitionOfSort | engines/ic3sa.cpp:711-795 | a state satisfies the literals if and only if it partitions the terms as the model does, although value pairs are skipped and trivial literals dropped |
| IC3SA.ClassEqualities | engines/ic3sa.cpp:729-770 | the chain of equalities holds exactly when all terms of the class equal its representative, however that is chosen |
| IC3SA.Disequalities | engines/ic3sa.cpp:774-793 | the disequalities hold exactly when all representatives differ |
| IC3SA.KeptSymbolsStep | engines/ic3sa.cpp:150-174 | every state that agrees with the model on the kept current-state symbols has a step into the target |
| IC3SA.IC3SA.PredecessorGeneralization | engines/ic3sa.cpp:150-201 | the symbols kept justify the target and every constraint, and the cube holds exactly in the states with the same predicates and partition over them |
| IC3SA.IC3SA.AbstractState | engines/ic3sa.cpp:85-105 | the cube fixes every kept predicate and, sort by sort, which kept terms are equal, and nothing else |
| IC3SA.IC3SA.PredicateLiterals | engines/ic3sa.cpp:87-95 | the literals fix the truth of exactly the kept predicates |
| PredicateAbstraction.AbstractionExact | modifiers/implicit_predicate_abstractor.cpp:157-230 | the abstract T holds exactly when a concrete step leads to a state that agrees with the abstract target on the predicates and the Boolean variables |
| PredicateAbstraction.AbstractSuccessors | modifiers/implicit_predicate_abstractor.cpp:157-230 | the abstract successors are exactly what agrees with a concrete successor, so every concrete step is an abstract one |
| PredicateAbstraction.RefinementMeans | modifiers/implicit_predicate_abstractor.cpp:81-87 | the refinement of a predicate says that the real and the renamed next state agree on it |
| PredicateAbstraction.InductiveExact | modifiers/implicit_predicate_abstractor.cpp:69-73 | an abstract step from a to b is a concrete one; for b over the predicates the two claims are equivalent |
| PredicateAbstraction.InterpolantsExclude | engines/ic3ia.cpp:302-329 | with the predicates of an interpolation sequence no abstract run follows the refuted counterexample |
| PredicateAbstraction.FewerRuns | engines/ic3ia.cpp:488-495 | more predicates leave fewer abstract runs |
| PredicateAbstraction.AbstractInvariantProves | engines/ic3ia.cpp:453-504 | TRUE is sound: a formula that contains Init, is closed under the abstract T and excludes Bad rules out every concrete counterexample, for any predicates |
| IC3IA.IC3IA.DoAbstraction | modifiers/implicit_predicate_abstractor.cpp:157-230 | renames exactly the next-state variables that are not Boolean, reusing earlier stand-ins |
| IC3IA.IC3IA.AddPredicate | engines/ic3ia.cpp:453-504 | adds the predicate once, keeps the abstraction exact and only removes abstract steps |
| IC3IA.IC3IA.Refine | engines/ic3ia.cpp:263-386 | the query answers exactly whether a concrete run follows the counterexample, or, without simulation, whether one of its length leads from Init to Bad and avoids Bad in between; after failure or success no abstract run does either, nor one along the counterexample if that was simulated or the predicates were reduced; success adds the fresh or the reduced predicates and no others |
| IC3IA.FullCubeInInit | engines/ic3ia.cpp:154-166 | when the predicates define Init, a full cube that meets Init lies inside it |
| IC3IA.BmcQueryExact | engines/ic3ia.cpp:283-301 | without simulation the query is satisfiable if and only if some concrete run as long as the counterexample leads from Init to Bad and avoids Bad in between |
| IC3IA.InterpolantsExcludeConcrete | engines/ic3ia.cpp:302-329 | an unsat query leaves no concrete run through the formulas |
| BMC.Bmc.CheckUntil | engines/bmc.cpp:56-79 | FALSE is always real, and shortest when every bound is tested alone or an exact search runs on a T that always continues; UNKNOWN then excludes counterexamples up to the bound; in any case the bounds tested are those of the schedule, each in vain, the answer belongs to the next one, and UNKNOWN means that this one exceeds k |
| BMC.BoundsGrow | engines/bmc.cpp:68-78 | by adding the step or by doubling the bounds increase, so from the first one above the bound already reached on each is tested from the last one on |
| BMC.Bmc.Step | engines/bmc.cpp:81-211 | unsat extends the clean bounds and leaves no asserted run that is bad where it was looked for and nowhere among positions already excluded; sat gives what the chosen search promises |
| BMC.StaysHarmless | engines/bmc.cpp:186-211 | unless all untested positions are excluded as well, the clauses asserted after an unsat bound exclude no run |
| BMC.Bmc.FindShortest | engines/bmc.cpp:142-178 | keeps the solver stack in order through the search and its fallback, and reaches the first position the search promises |
| BMC.Bmc.FindShortestCexLinearSearch | engines/bmc.cpp:463-505 | ends at the first position at which an asserted run is bad; its exception cannot be thrown |
| BMC.Bmc.FindShortestCexBinarySearchLessInc | engines/bmc.cpp:384-460 | ends there too |
| BMC.Bmc.FindShortestCexBinarySearch | engines/bmc.cpp:261-378 | on success ends at the first position at which some run is bad and bad nowhere else in the interval |
| BMC.DefaultSearchExact | engines/bmc.cpp:261-378 | that position is the first bad one if and only if some run is bad there alone |
| BMC.DefaultSearchOvershoots | engines/bmc.cpp:261-378 | a system on which it is not |
| BMC.ReportedBoundExact | engines/bmc.cpp:142-152 | the other searches are sure to report the first position if and only if the interval has length 1 or no run is bad at its start |
| BMC.Bmc.IntervalCexUb | engines/bmc.cpp:214-239 | the first position of the interval at which the model is bad |
| BMC.Bmc.IntervalBlockCexUb | engines/bmc.cpp:244-258 | excludes exactly the runs bad in the range, in the top frame only |
| BMC.Bmc.PopSearchFrames | engines/bmc.cpp:173-176 | pops exactly the frames of the search; the counter wraps around |
| BMC.Bmc.ResetEnv | engines/bmc.cpp:50-54 | restarts the engine but keeps the frame counter |
| BMC.CleanIffNoCex | engines/bmc.cpp:81-211 | when every state has a successor, outside Init if runs may not return there, the bounds found clean are exactly those without counterexample |
| BMC.LeastHitIsShortest | engines/bmc.cpp:81-211 | the first bad position is then the true shortest depth |
| BMC.ShortestIsLeastHit | engines/bmc.cpp:81-211 | and the true shortest depth, if tested, is the first bad position |
| BMC.UnitStep | engines/bmc.cpp:96-101 | tested alone, a bound misses no counterexample even if T deadlocks and runs may not return to Init |
| BMC.UnitFindsShortest | engines/bmc.cpp:129-152 | tested alone, a bound yields a shortest counterexample under all options |
| BMC.FoundIsGenuine | engines/bmc.cpp:129-186 | some prefix of the witness is a counterexample, whatever the options |
| BMCGaps.MissedExactly | engines/bmc.cpp:104-127 | a clean bound hides a counterexample if and only if a bad state is reached within it and no bad state lies on an asserted run of that many transitions, told by images and preimages |
| BMCGaps.RightTotalIffNothingMissed | engines/bmc.cpp:104-127 | for given states and T, no Init, Bad and bound is missed if and only if every state has a successor |
| BMCGaps.NothingMissedIff | engines/bmc.cpp:96-127 | for given Init and T, with or without the constraints against Init, no Bad and bound is missed if and only if every state reached within a bound lies on an asserted run of that many transitions |
| BMCGaps.ContinuingMissesNothing | engines/bmc.cpp:96-127 | a successor outside Init for every state suffices |
| BMC.DeadlockHidesCex | engines/bmc.cpp:112-127 | a deadlocked bad state that no longer interval ever finds |
| BMC.NegInitHidesCex | engines/bmc.cpp:96-101 | a counterexample that the constraints against returning to Init hide from every longer interval |

## Left out

- The `g_terminate_requested` path of `block_all`: engines are modelled for runs where the flag stays 0.
- Solver internals, term translation between solvers, labels as symbols, logging, timing, JSON dumps, witnesses beyond the run they describe, and options that only concern output.
- Unknown answers of the solvers and the exceptions that follow from them.
- Integer overflow of bounds (int, unsigned): bounds are unbounded; the one modelled wrap-around is that of the frame counter in BMC.
- Safety engines other than IC3 see T with its inputs quantified away; IC3 keeps inputs for lifting, and the liveness layer because conditions may read them.
- Infinite state spaces for the safety engines, and infinite sorts for the direction of the liveness results from fair runs to lassos.
- `approx_pregen_` and the repair after predecessor generalization (engines/ic3base.cpp:823-842): false for the bit-level engine.
- Abstraction refinement inside `check_until` of IC3 (engines/ic3base.cpp:205-218): a no-op for the bit-level engine; for IC3IA the refinement step itself is modelled, for IC3SA it is not.
- `ic3ia_skip_init_preds_`: without the predicates of Init a full cube that meets Init may leave it.
- Path axioms that IC3SA adds to its copy of T are not part of the constraints it justifies, so the result on kept symbols is stated for T without them.
- Sorts: values are untyped but for the finite sorts of the liveness results, and a term is called well sorted when its connectives have Boolean arguments in the model at hand. BVAnd and BVOr of width 1 are not modelled apart from And and Or.
- Relational extras (`constrain_trans`, `set_trans`, `set_updated_states`), `rebuild_trans_based_on_coi`, `drop_state_updates`, `replace_terms` and promotion of inputs.
- The test for right-total T is a parameter: `is_right_total` treats variables without update as inputs.
- Names: make_symbol is assumed to keep timed, renamed and instrumenting names apart from the user's.
- The width of the binary counter uses the exact integer logarithm; the original computes it in floating point.
- The safety provers and the bounded search that k-liveness starts are parameters that answer as their engines are proved to.
- `reduce_predicates` enters refinement as the unsat core it returns; its failure path is not modelled.
- MBIC3, IC3Bits, SyGuS-PDR, CEGAR wrappers, prophecy arrays, array abstraction, cone of influence, front ends: not modelled.
- IC3.IC3.PredecessorGeneralization: does not promise that the cube stays inside the frame for deterministic systems, because it does not; the exact condition is `Lifting.LiftingKeepsFrameExactly`.
- InterpolantMC.InterpolantMC.CheckUntil: promises an inductive invariant only for right-total T, because the original guarantees no more; the exact condition is `InterpolantMC.InvarExcludesBadIff`.
- BMC.Bmc.CheckUntil: promises a shortest counterexample only under the options named, because the original finds no more under the others.
