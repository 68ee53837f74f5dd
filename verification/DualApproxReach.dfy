/** Dual approximated reachability: a forward sequence over-approximating the states
    reachable from Init and a backward sequence over-approximating the states that
    reach Bad, each strengthened with interpolants against the other. */
module DualApproxReach {
  import opened Systems
  import opened Solver
  import opened FixedPoint

  /** Wherever a run of full length is split, the two sequences are disjoint. */
  ghost predicate Apart<S>(f: seq<set<S>>, b: seq<set<S>>) {
    |f| == |b| && forall j | 0 <= j < |f| :: f[j] !! b[|f| - 1 - j]
  }

  /** Index idx is the last at which a step from f into the matching member of b is impossible. */
  ghost predicate LastNoStep<S>(ts: System<S>, f: seq<set<S>>, b: seq<set<S>>, idx: nat)
    requires |f| == |b|
  {
    && idx < |f| && NoStep(ts, f[idx], b[|f| - 1 - idx])
    && StepsFrom(ts, f, b, idx + 1)
  }

  /** From index lo on a step is possible at every index. */
  ghost predicate StepsFrom<S>(ts: System<S>, f: seq<set<S>>, b: seq<set<S>>, lo: nat)
    requires |f| == |b|
  {
    forall j | lo <= j < |f| :: !NoStep(ts, f[j], b[|f| - 1 - j])
  }

  /** Some run of m transitions leads from Init into the target. */
  ghost predicate RunTo<S(!new)>(ts: System<S>, m: nat, target: set<S>) {
    exists p: seq<S> :: IsPath(ts, p) && |p| == m + 1 && p[0] in ts.init && p[m] in target
  }

  /** Some run from Init is, after m + 1 transitions, in the member of b that could still lead it to Bad. */
  ghost predicate Meets<S(!new)>(ts: System<S>, b: seq<set<S>>, m: nat)
    requires m < |b|
  {
    RunTo(ts, m + 1, b[|b| - 1 - m])
  }

  ghost predicate FirstUnmet<S(!new)>(ts: System<S>, b: seq<set<S>>, idx: nat) {
    1 <= idx < |b| && !Meets(ts, b, idx) && forall m: nat | 1 <= m < idx :: Meets(ts, b, m)
  }

  /** g is f made longer by one member, with no member weakened and the first ones kept. */
  ghost predicate Tightened<S>(f: seq<set<S>>, g: seq<set<S>>, kept: nat) {
    && kept <= |f| && |g| == |f| + 1 && g[..kept] == f[..kept]
    && forall j | 0 <= j < |f| :: g[j] <= f[j]
  }

  // ---------------------------------------------------------------- the passes of pairwise strengthening

  /** The forward pass from index idx has come to i. */
  ghost predicate ForwardPass<S>(ts: System<S>, f0: seq<set<S>>, b: seq<set<S>>, f: seq<set<S>>, idx: nat, i: nat) {
    var n := |f0|;
    && |b| == n && |f| == n + 1 && idx <= i <= n && idx < n
    && f[..idx + 1] == f0[..idx + 1]
    && (forall j | 0 <= j < n :: f[j] <= f0[j])
    && (forall j | idx < j <= i :: f[j] !! b[n - j])
    && Forward(ts, f)
    && (i < n ==> NoStep(ts, f[i], b[n - 1 - i]))
  }

  lemma ForwardPassStep<S>(ts: System<S>, f0: seq<set<S>>, b: seq<set<S>>, f: seq<set<S>>, idx: nat, i: nat, itp: set<S>)
    requires ForwardPass(ts, f0, b, f, idx, i) && i < |f0| && Backward(ts, b)
    requires Image(ts, f[i]) <= itp && itp !! b[|f0| - 1 - i]
    ensures ForwardPass(ts, f0, b, f[i + 1 := f[i + 1] * itp], idx, i + 1)
  {
    var n, g := |f0|, f[i + 1 := f[i + 1] * itp];
    assert Maps(ts, f[i], itp);
    assert g[..idx + 1] == f[..idx + 1];
    forall m, k | 0 <= m < n && k == m + 1 ensures Maps(ts, g[m], g[k]) {
      assert Maps(ts, f[m], f[k]);
    }
    if i + 1 < n {
      assert MapsBack(ts, b[n - 2 - i], b[n - 1 - i]);
    }
    hide Image;
  }

  /** The backward pass has come to i. */
  ghost predicate BackwardPass<S>(ts: System<S>, b0: seq<set<S>>, f: seq<set<S>>, b: seq<set<S>>, idx: nat, i: nat) {
    var n := |b0|;
    && |f| == n + 1 == |b| && idx < n && n - 1 - idx <= i <= n
    && b[..n - idx] == b0[..n - idx]
    && (forall j | 0 <= j < n :: b[j] <= b0[j])
    && (forall j | n - idx <= j <= i :: b[j] !! f[n - j])
    && Backward(ts, b)
    && (i < n ==> NoStep(ts, f[n - 1 - i], b[i]))
  }

  lemma BackwardPassStep<S>(ts: System<S>, b0: seq<set<S>>, f: seq<set<S>>, b: seq<set<S>>, idx: nat, i: nat, itp: set<S>)
    requires BackwardPass(ts, b0, f, b, idx, i) && i < |b0| && Forward(ts, f)
    requires PreImage(ts, b[i]) <= itp && itp !! f[|b0| - 1 - i]
    ensures BackwardPass(ts, b0, f, b[i + 1 := b[i + 1] * itp], idx, i + 1)
  {
    var n, g := |b0|, b[i + 1 := b[i + 1] * itp];
    assert MapsBack(ts, b[i], itp);
    assert g[..n - idx] == b[..n - idx];
    forall m, k | 0 <= m < n && k == m + 1 ensures MapsBack(ts, g[m], g[k]) {
      assert MapsBack(ts, b[m], b[k]);
    }
    if i + 1 < n {
      assert Maps(ts, f[n - 2 - i], f[n - 1 - i]);
    }
    hide PreImage;
  }

  class DualApproxReach<S(==, !new)> {
    const ts: System<S>
    var forwardSeq: seq<set<S>>
    var backwardSeq: seq<set<S>>
    var reachedK: int
    var concreteCex: bool
    var trace: seq<S>
    var invar: set<S>
    /** Number of pushes not yet undone on the solver. */
    var contextLevel: nat

    /** The joint invariant between two steps. */
    ghost predicate Valid()
      reads this
    {
      && WellFormed(ts)
      && reachedK >= -1
      && |forwardSeq| == |backwardSeq| == (if reachedK < 0 then 1 else reachedK + 1)
      && Forward(ts, forwardSeq)
      && Backward(ts, backwardSeq)
      && (reachedK >= 0 ==> Avoids(forwardSeq, ts.bad) && Avoids(backwardSeq, ts.init) && Apart(forwardSeq, backwardSeq))
      && (!concreteCex ==> contextLevel == 0)
      // the assertion of reset_env
      && (concreteCex ==> contextLevel == reachedK + 2)
      && (concreteCex ==> IsCex(ts, trace) && |trace| == reachedK + 2)
    }

    constructor (ts: System<S>)
      requires WellFormed(ts)
      ensures Valid() && this.ts == ts && reachedK == -1 && !concreteCex
    {
      this.ts := ts;
      forwardSeq, backwardSeq := [ts.init], [ts.bad];
      reachedK, concreteCex, contextLevel := -1, false, 0;
      trace, invar := [], {};
    }

    /** A counterexample is genuine and shortest, a proof is an inductive invariant, and
        Unknown means that neither sequence has a fixed point, which is impossible once k exceeds
        both the bound already reached and the number of states outside Init and Bad. */
    method CheckUntil(k: int) returns (r: ProverResult)
      requires Valid() && !concreteCex
      modifies this
      ensures Valid()
      ensures r.True? ==> Invariant(ts, invar) && Safe(ts)
      ensures r.False? ==> ShortestCex(ts, trace)
      ensures r.Unknown? ==> NoCexUpTo(ts, k)
      ensures r.Unknown? ==> k < 0 || k <= old(reachedK) || k <= |ts.states| - |ts.init| - |ts.bad|
      ensures r.Unknown? && k > old(reachedK) && k > 0 ==>
                reachedK == k && NoFixedPoint(forwardSeq) && NoFixedPoint(backwardSeq)
    {
      var i := 0;
      while i <= k
        invariant Valid() && !concreteCex && i >= 0 && (k >= 0 ==> i <= k + 1)
        invariant reachedK == if i - 1 > old(reachedK) then i - 1 else old(reachedK)
        invariant i - 1 > old(reachedK) ==> i - 1 <= |ts.states| - |ts.init| - |ts.bad|
        invariant i - 1 > old(reachedK) && i > 1 ==> NoFixedPoint(forwardSeq) && NoFixedPoint(backwardSeq)
      {
        var proved := Step(i);
        if proved {
          InvariantProves(ts, invar);
          return True;
        } else if concreteCex {
          return False;
        }
        i := i + 1;
      }
      r := Unknown;
      if k >= 0 {
        ForwardRulesOut(ts, forwardSeq);
      }
    }

    method Step(i: nat) returns (proved: bool)
      requires Valid() && !concreteCex && i <= reachedK + 1
      modifies this
      ensures Valid()
      ensures proved ==> !concreteCex && Invariant(ts, invar)
      ensures concreteCex ==> ShortestCex(ts, trace)
      ensures !proved && !concreteCex && i > old(reachedK) ==>
                reachedK == i && i <= |ts.states| - |ts.init| - |ts.bad|
                && (i > 0 ==> NoFixedPoint(forwardSeq) && NoFixedPoint(backwardSeq))
      ensures i <= old(reachedK) ==> !proved && !concreteCex && reachedK == old(reachedK)
    {
      if i <= reachedK {
        return false;
      }
      if i == 0 {
        Step0();
        return false;
      }
      ghost var f0, b0 := forwardSeq, backwardSeq;
      ForwardRulesOut(ts, forwardSeq);
      var done;
      ghost var idx;
      done, idx := LocalStrengthen();
      if !done {
        if i == 1 {
          concreteCex := true;
          return false;
        }
        done, idx := GlobalStrengthen();
        if !done {
          concreteCex := true;
          return false;
        }
      }
      reachedK := reachedK + 1;
      proved := CheckFixedPoints();
    }

    method Step0()
      requires Valid() && !concreteCex && reachedK == -1
      modifies this
      ensures Valid()
      ensures concreteCex ==> ShortestCex(ts, trace)
      ensures !concreteCex ==> reachedK == 0 && |ts.states| - |ts.init| - |ts.bad| >= 0
    {
      contextLevel := contextLevel + 1;
      var r := CheckSat(forwardSeq[0] * backwardSeq[0]);
      match r
      case None =>
        reachedK := 0;
        contextLevel := contextLevel - 1;
        assert forall s | s in ts.init && s in ts.bad :: s in ts.init * ts.bad;
        SmallerThan(ts.init + ts.bad, ts.states);
      case Some(s) =>
        // the level stays up so that the witness can be read off the model
        concreteCex := true;
        trace := [s];
    }

    /** Looks for an index at which F[len-1-i] /\ T /\ B[i]' is unsat, and strengthens from there on. On
        failure at bound 1 the model is a counterexample and the solver levels stay up. */
    method LocalStrengthen() returns (ok: bool, ghost idx: nat)
      requires Valid() && !concreteCex && reachedK >= 0
      modifies this
      ensures reachedK == old(reachedK) && concreteCex == old(concreteCex)
      ensures ok ==> Extended(old(|forwardSeq|)) && contextLevel == 0
      ensures ok ==> LastNoStep(ts, old(forwardSeq), old(backwardSeq), idx)
      ensures ok ==> Tightened(old(forwardSeq), forwardSeq, idx + 1)
                     && Tightened(old(backwardSeq), backwardSeq, old(|backwardSeq|) - idx)
      ensures !ok ==> forwardSeq == old(forwardSeq) && backwardSeq == old(backwardSeq)
      ensures !ok ==> StepsFrom(ts, old(forwardSeq), old(backwardSeq), 0)
      ensures !ok && reachedK > 0 ==> Valid()
      ensures !ok && reachedK == 0 ==> IsCex(ts, trace) && |trace| == 2 && contextLevel == 2
    {
      assert forwardSeq[0] == ts.init && backwardSeq[0] == ts.bad;
      hide Forward, Backward, Avoids, Apart, StepsFrom, NoStep, Tightened;
      var unsatIdx, last;
      unsatIdx, last := FindUnsat();
      if last.Some? {
        if reachedK == 0 {
          trace := [last.value.0, last.value.1];
        } else {
          contextLevel := contextLevel - 2;
        }
        return false, 0;
      }
      contextLevel := contextLevel - 2;
      idx := |forwardSeq| - 1 - unsatIdx;
      PairwiseStrengthen(|forwardSeq| - 1 - unsatIdx);
      ok := true;
    }

    /** The search of local strengthening, from the end of the forward sequence: the number of satisfiable
        queries before the first unsat one, or the model of the query at index 0. */
    method FindUnsat() returns (unsatIdx: nat, last: Option<(S, S)>)
      requires WellFormed(ts) && |forwardSeq| == |backwardSeq| > 0 && contextLevel == 0
      modifies this`contextLevel
      ensures contextLevel == 2 && unsatIdx < |forwardSeq|
      ensures last.None? ==> LastNoStep(ts, forwardSeq, backwardSeq, |forwardSeq| - 1 - unsatIdx)
      ensures last.Some? ==> StepsFrom(ts, forwardSeq, backwardSeq, 0)
      ensures last.Some? ==> last.value in ts.trans && last.value.0 in forwardSeq[0] && last.value.1 in backwardSeq[|forwardSeq| - 1]
    {
      unsatIdx := 0;
      var seqLen := |forwardSeq|;
      contextLevel := contextLevel + 1;
      while true
        invariant unsatIdx < seqLen && contextLevel == 1
        invariant StepsFrom(ts, forwardSeq, backwardSeq, seqLen - unsatIdx)
        decreases seqLen - unsatIdx
      {
        var f0, b1 := forwardSeq[seqLen - 1 - unsatIdx], backwardSeq[unsatIdx];
        contextLevel := contextLevel + 1;
        var r := CheckSat(Steps(ts, f0, b1));
        if r.None? {
          return unsatIdx, None;
        }
        if unsatIdx == seqLen - 1 {
          return unsatIdx, r;
        }
        contextLevel := contextLevel - 1;
        unsatIdx := unsatIdx + 1;
      }
    }

    /** What strengthening leaves behind: both sequences one longer, the joint invariant intact. */
    ghost predicate Extended(seqLen: nat)
      reads this
    {
      && |forwardSeq| == |backwardSeq| == seqLen + 1
      && Forward(ts, forwardSeq) && Avoids(forwardSeq, ts.bad)
      && Backward(ts, backwardSeq) && Avoids(backwardSeq, ts.init)
      && Apart(forwardSeq, backwardSeq)
    }

    /** Unrolls from Init against ever later members of the backward sequence. Either a real
        counterexample of seqLen transitions exists, or an interpolation sequence for the first
        member that no run meets strengthens the forward sequence enough for a pairwise pass from idx. */
    method GlobalStrengthen() returns (ok: bool, ghost idx: nat)
      requires Valid() && !concreteCex && reachedK >= 1
      modifies this
      ensures reachedK == old(reachedK) && concreteCex == old(concreteCex)
      ensures ok ==> Extended(old(|forwardSeq|)) && contextLevel == 0
      ensures ok ==> FirstUnmet(ts, old(backwardSeq), idx)
      ensures ok ==> Tightened(old(backwardSeq), backwardSeq, old(|backwardSeq|) - idx)
      ensures !ok ==> forwardSeq == old(forwardSeq) && backwardSeq == old(backwardSeq)
      ensures !ok ==> IsCex(ts, trace) && |trace| == reachedK + 2 == contextLevel
    {
      hide Forward, Backward, Avoids, Apart, Tightened;
      var unsatIdx, last;
      Starts();
      unsatIdx, last := FindUnmet();
      if last.Some? {
        trace := last.value;
        return false, 0;
      }
      // one level per assertion: init /\ T, the later transitions and the backward member
      contextLevel := contextLevel - (unsatIdx + 2);
      var goal := backwardSeq[|backwardSeq| - 1 - unsatIdx];
      var itp := GetSequenceInterpolants(ts, forwardSeq[0], unsatIdx + 1, goal);
      assert Meets(ts, backwardSeq, unsatIdx) <==> RunTo(ts, unsatIdx + 1, goal);
      assert itp.Some?;  // "expect UNSAT interpolation query" is never thrown
      idx := unsatIdx;
      StrengthenForward(itp.value, unsatIdx, goal);
      PairwiseStrengthen(unsatIdx);
      ok := true;
    }

    lemma Starts()
      requires Valid()
      ensures forwardSeq[0] == ts.init && backwardSeq[0] == ts.bad && ts.init <= ts.states
    {
    }

    /** The search of global strengthening: the first member no run meets, or a run that meets the last. */
    method FindUnmet() returns (unsatIdx: nat, last: Option<seq<S>>)
      requires WellFormed(ts) && |backwardSeq| > 1 && contextLevel == 0
      modifies this`contextLevel
      ensures contextLevel == unsatIdx + 2
      ensures last.None? ==> FirstUnmet(ts, backwardSeq, unsatIdx)
      ensures last.Some? ==> unsatIdx == |backwardSeq| - 1 && IsPath(ts, last.value) && |last.value| == |backwardSeq| + 1
      ensures last.Some? ==> last.value[0] in ts.init && last.value[|backwardSeq|] in backwardSeq[0]
    {
      hide RunTo;
      var seqLen := |backwardSeq|;
      contextLevel := contextLevel + 1;
      unsatIdx := 1;
      while true
        invariant 1 <= unsatIdx < seqLen && contextLevel == unsatIdx
        invariant forall m: nat | 1 <= m < unsatIdx :: Meets(ts, backwardSeq, m)
        decreases seqLen - unsatIdx
      {
        contextLevel := contextLevel + 2;
        var target := backwardSeq[seqLen - 1 - unsatIdx];
        var r := CheckRuns(unsatIdx + 1, target);
        assert Meets(ts, backwardSeq, unsatIdx) <==> RunTo(ts, unsatIdx + 1, target);
        if r.None? {
          return unsatIdx, None;
        }
        if unsatIdx == seqLen - 1 {
          return unsatIdx, r;
        }
        contextLevel := contextLevel - 1;
        unsatIdx := unsatIdx + 1;
      }
    }

    /** Init /\ T^m /\ target at time m. */
    method CheckRuns(m: nat, target: set<S>) returns (r: Option<seq<S>>)
      requires WellFormed(ts)
      ensures r.None? <==> !RunTo(ts, m, target)
      ensures r.Some? ==> IsPath(ts, r.value) && |r.value| == m + 1 && r.value[0] in ts.init && r.value[m] in target
    {
      r := CheckSat(Runs(ts, ts.init, m, target));
      if r.Some? {
        RunsSound(ts, ts.init, m, target, r.value);
      } else {
        forall p | IsPath(ts, p) && |p| == m + 1 && p[0] in ts.init ensures p[m] !in target {
          if p[m] in target {
            RunsComplete(ts, ts.init, target, p);
          }
        }
      }
    }

    /** The loop of global strengthening that conjoins the interpolants. */
    method StrengthenForward(itp: seq<set<S>>, unsatIdx: nat, goal: set<S>)
      requires Valid() && !concreteCex && 1 <= unsatIdx < |forwardSeq|
      requires InterpolationSequence(ts, ts.init, unsatIdx + 1, goal, itp)
      modifies this`forwardSeq
      ensures Valid() && |forwardSeq| == old(|forwardSeq|)
      ensures forall j | 0 <= j < |forwardSeq| ::
                forwardSeq[j] == if 1 <= j <= unsatIdx + 1 then old(forwardSeq)[j] * itp[j - 1] else old(forwardSeq)[j]
      ensures NoStep(ts, forwardSeq[unsatIdx], goal)
    {
      var seqLen := |forwardSeq|;
      var last := if seqLen < unsatIdx + 2 then seqLen else unsatIdx + 2;
      var i := 1;
      while i < last
        invariant 1 <= i <= last && |forwardSeq| == seqLen
        invariant forall j | 0 <= j < seqLen ::
                    forwardSeq[j] == if 1 <= j < i then old(forwardSeq)[j] * itp[j - 1] else old(forwardSeq)[j]
      {
        forwardSeq := forwardSeq[i := forwardSeq[i] * itp[i - 1]];
        i := i + 1;
      }
      forall j, k | 0 <= j < seqLen && k == j + 1 < seqLen ensures Maps(ts, forwardSeq[j], forwardSeq[k]) {
        assert Maps(ts, old(forwardSeq)[j], old(forwardSeq)[k]);
        if 1 <= j && k < i {
          assert Maps(ts, itp[j - 1], itp[k - 1]);
        }
      }
      assert Maps(ts, itp[unsatIdx - 1], itp[unsatIdx]);
    }

    /** Iterated pairwise strengthening from an index at which F[idx] /\ T /\ B[len-1-idx]' is
        unsat. No interpolation query it issues can be satisfiable. */
    method PairwiseStrengthen(idx: nat)
      requires Valid() && reachedK >= 0 && idx < |forwardSeq|
      requires NoStep(ts, forwardSeq[idx], backwardSeq[|forwardSeq| - 1 - idx])
      modifies this`forwardSeq, this`backwardSeq
      ensures Extended(old(|forwardSeq|))
      ensures Tightened(old(forwardSeq), forwardSeq, idx + 1)
      ensures Tightened(old(backwardSeq), backwardSeq, old(|backwardSeq|) - idx)
    {
      PairwiseForward(idx);
      PairwiseBackward(idx);
    }

    method PairwiseForward(idx: nat)
      requires Valid() && reachedK >= 0 && idx < |forwardSeq|
      requires NoStep(ts, forwardSeq[idx], backwardSeq[|forwardSeq| - 1 - idx])
      modifies this`forwardSeq
      ensures Tightened(old(forwardSeq), forwardSeq, idx + 1)
      ensures forall j | idx < j <= old(|forwardSeq|) :: forwardSeq[j] !! backwardSeq[old(|forwardSeq|) - j]
      ensures Forward(ts, forwardSeq) && Avoids(forwardSeq, ts.bad)
    {
      var seqLen := |forwardSeq|;
      ghost var f0 := forwardSeq;
      forwardSeq := forwardSeq + [ts.states];
      var i := idx;
      assert ForwardPass(ts, f0, backwardSeq, forwardSeq, idx, i) by {
        assert forwardSeq[..idx + 1] == f0[..idx + 1];
      }
      while i < seqLen
        invariant ForwardPass(ts, f0, backwardSeq, forwardSeq, idx, i)
      {
        var b := backwardSeq[seqLen - 1 - i];
        var itp := GetInterpolant(ts.states, Image(ts, forwardSeq[i]), b);
        assert itp.Some?;  // "expect UNSAT interpolation query" is never thrown
        ForwardPassStep(ts, f0, backwardSeq, forwardSeq, idx, i, itp.value);
        forwardSeq := forwardSeq[i + 1 := forwardSeq[i + 1] * itp.value];
        i := i + 1;
      }
    }

    method PairwiseBackward(idx: nat)
      requires WellFormed(ts) && |forwardSeq| == |backwardSeq| + 1 && idx < |backwardSeq|
      requires Forward(ts, forwardSeq) && Backward(ts, backwardSeq) && Avoids(backwardSeq, ts.init)
      requires NoStep(ts, forwardSeq[idx], backwardSeq[|backwardSeq| - 1 - idx])
      modifies this`backwardSeq
      ensures Tightened(old(backwardSeq), backwardSeq, old(|backwardSeq|) - idx)
      ensures forall j | old(|backwardSeq|) - idx <= j <= old(|backwardSeq|) :: backwardSeq[j] !! forwardSeq[old(|backwardSeq|) - j]
      ensures Backward(ts, backwardSeq) && Avoids(backwardSeq, ts.init)
    {
      var seqLen := |backwardSeq|;
      ghost var b0 := backwardSeq;
      backwardSeq := backwardSeq + [ts.states];
      var i := seqLen - 1 - idx;
      assert BackwardPass(ts, b0, forwardSeq, backwardSeq, idx, i) by {
        assert backwardSeq[..seqLen - idx] == b0[..seqLen - idx];
      }
      while i < seqLen
        invariant BackwardPass(ts, b0, forwardSeq, backwardSeq, idx, i)
      {
        var f := forwardSeq[seqLen - 1 - i];
        var itp := GetInterpolant(ts.states, PreImage(ts, backwardSeq[i]), f);
        assert itp.Some?;  // "expect UNSAT interpolation query" is never thrown
        BackwardPassStep(ts, b0, forwardSeq, backwardSeq, idx, i, itp.value);
        backwardSeq := backwardSeq[i + 1 := backwardSeq[i + 1] * itp.value];
        i := i + 1;
      }
    }

    method CheckFixedPoints() returns (proved: bool)
      requires Valid() && reachedK >= 1 && !concreteCex
      modifies this`invar
      ensures proved ==> Invariant(ts, invar)
      ensures !proved ==> reachedK <= |ts.states| - |ts.init| - |ts.bad|
      ensures !proved ==> NoFixedPoint(forwardSeq) && NoFixedPoint(backwardSeq)
    {
      var fixedPoint;
      proved, fixedPoint := CheckFixedPoint(forwardSeq);
      if proved {
        ghost var i :| 1 <= i < |forwardSeq| && fixedPoint == Union(forwardSeq[..i]) && forwardSeq[i] <= fixedPoint;
        ForwardFixedPoint(ts, forwardSeq, i);
        invar := fixedPoint;
        return;
      }
      NoFixedPointBound(ts, forwardSeq, ts.init, ts.bad);
      proved, fixedPoint := CheckFixedPoint(backwardSeq);
      if proved {
        ghost var i :| 1 <= i < |backwardSeq| && fixedPoint == Union(backwardSeq[..i]) && backwardSeq[i] <= fixedPoint;
        BackwardFixedPoint(ts, backwardSeq, i);
        invar := ts.states - fixedPoint;
      }
    }
  }
}
