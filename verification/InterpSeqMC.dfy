/** Interpolation-sequence model checking: at every bound one interpolation sequence
    refines a single forward reachability sequence. */
module InterpSeqMC {
  import opened Systems
  import opened Solver
  import opened FixedPoint

  class InterpSeqMC<S(==, !new)> {
    const ts: System<S>
    /** R_0 = Init, R_1, R_2, ... */
    var reachSeq: seq<set<S>>
    /** Length of the unrolled transition sequence. */
    var transSeqLen: nat
    var reachedK: int
    var concreteCex: bool
    var trace: seq<S>
    var invar: set<S>
    var contextLevel: nat

    ghost predicate Valid()
      reads this
    {
      && WellFormed(ts)
      && reachedK >= -1
      && Forward(ts, reachSeq)
      && (concreteCex ==> IsCex(ts, trace) && |trace| == reachedK + 2)
      && contextLevel == (if concreteCex then 1 else 0)
      && (!concreteCex ==> |reachSeq| == transSeqLen + 1 == (if reachedK < 0 then 1 else reachedK + 1))
      && (reachedK >= 0 ==> Avoids(reachSeq, ts.bad))
    }

    constructor (ts: System<S>)
      requires WellFormed(ts)
      ensures Valid() && this.ts == ts && reachedK == -1 && !concreteCex
    {
      this.ts := ts;
      reachSeq, transSeqLen := [ts.init], 0;
      reachedK, concreteCex, contextLevel := -1, false, 0;
      trace, invar := [], {};
    }

    /** Same guarantees as dual approximated reachability, from one sequence alone. A proof
        ends the run: the engine does not account for the bound it was found at. */
    method CheckUntil(k: int) returns (r: ProverResult)
      requires Valid() && !concreteCex
      modifies this
      ensures r.True? ==> Invariant(ts, invar) && Safe(ts)
      ensures r.False? ==> Valid() && ShortestCex(ts, trace)
      ensures r.Unknown? ==> Valid() && NoCexUpTo(ts, k)
      ensures r.Unknown? ==> k < 0 || k <= old(reachedK) || k <= |ts.states| - |ts.init| - |ts.bad|
      ensures r.Unknown? && k > old(reachedK) && k > 0 ==> reachedK == k && NoFixedPoint(reachSeq)
    {
      var i := 0;
      while i <= k
        invariant Valid() && !concreteCex && i >= 0 && (k >= 0 ==> i <= k + 1)
        invariant reachedK == if i - 1 > old(reachedK) then i - 1 else old(reachedK)
        invariant i - 1 > old(reachedK) ==> i - 1 <= |ts.states| - |ts.init| - |ts.bad|
        invariant i - 1 > old(reachedK) && i > 1 ==> NoFixedPoint(reachSeq)
      {
        var proved := Step(i);
        if proved {
          InvariantProves(ts, invar);
          return True;
        } else if concreteCex {
          return False;
        }
        i := i + 1;
      }
      r := Unknown;
      if k >= 0 {
        ForwardRulesOut(ts, reachSeq);
      }
    }

    method Step(i: nat) returns (proved: bool)
      requires Valid() && !concreteCex && i <= reachedK + 1
      modifies this
      ensures proved ==> !concreteCex && Invariant(ts, invar)
      ensures !proved ==> Valid()
      ensures concreteCex ==> ShortestCex(ts, trace)
      ensures !proved && !concreteCex && i > old(reachedK) ==>
                reachedK == i && i <= |ts.states| - |ts.init| - |ts.bad| && (i > 0 ==> NoFixedPoint(reachSeq))
      ensures i <= old(reachedK) ==> !proved && !concreteCex && reachedK == old(reachedK)
    {
      if i <= reachedK {
        return false;
      }
      if i == 0 {
        Step0();
        return false;
      }
      ForwardRulesOut(ts, reachSeq);
      transSeqLen := transSeqLen + 1;
      var r := GetSequenceInterpolants(ts, ts.init, transSeqLen, ts.bad);
      match r
      case Some(itp) =>
        Conjoin(itp);
        proved := CheckReachSeq();
        if !proved {
          reachedK := reachedK + 1;
        }
      case None =>
        ghost var p :| IsPath(ts, p) && |p| == transSeqLen + 1 && p[0] in ts.init && p[transSeqLen] in ts.bad;
        Replay(p);
        proved := false;
    }

    /** Replays a satisfiable query with model generation. */
    method Replay(ghost p: seq<S>)
      requires WellFormed(ts) && NoCexUpTo(ts, transSeqLen - 1)
      requires IsCex(ts, p) && |p| == transSeqLen + 1
      modifies this`contextLevel, this`concreteCex, this`trace
      ensures concreteCex && contextLevel == old(contextLevel) + 1
      ensures ShortestCex(ts, trace) && |trace| == transSeqLen + 1
    {
      contextLevel := contextLevel + 1;
      var model := CheckSat(Runs(ts, ts.init, transSeqLen, ts.bad));
      RunsComplete(ts, ts.init, ts.bad, p);
      assert model.Some?;  // "Expecting satisfiable result" is never thrown
      RunsSound(ts, ts.init, transSeqLen, ts.bad, model.value);
      concreteCex, trace := true, model.value;
    }

    method Step0()
      requires Valid() && !concreteCex && reachedK == -1
      modifies this
      ensures Valid()
      ensures concreteCex ==> ShortestCex(ts, trace)
      ensures !concreteCex ==> reachedK == 0 <= |ts.states| - |ts.init| - |ts.bad|
    {
      contextLevel := contextLevel + 1;
      var r := CheckSat(reachSeq[0] * ts.bad);
      match r
      case None =>
        reachedK := 0;
        contextLevel := contextLevel - 1;
        assert forall s | s in ts.init && s in ts.bad :: s in ts.init * ts.bad;
        SmallerThan(ts.init + ts.bad, ts.states);
      case Some(s) =>
        concreteCex, trace := true, [s];
    }

    /** Appends `true` and conjoins the new interpolants; the accumulated conjunctions stay a
        forward sequence, and all of them now avoid Bad. */
    method Conjoin(itp: seq<set<S>>)
      requires WellFormed(ts) && Forward(ts, reachSeq) && Avoids(reachSeq, ts.bad)
      requires transSeqLen == |reachSeq| && InterpolationSequence(ts, ts.init, transSeqLen, ts.bad, itp)
      modifies this`reachSeq
      ensures |reachSeq| == old(|reachSeq|) + 1
      ensures Forward(ts, reachSeq) && Avoids(reachSeq, ts.bad)
      ensures reachSeq[0] == old(reachSeq)[0] && reachSeq[|itp|] == itp[|itp| - 1]
      ensures forall j | 1 <= j < |itp| :: reachSeq[j] == old(reachSeq)[j] * itp[j - 1]
    {
      ghost var before := reachSeq + [ts.states];
      reachSeq := reachSeq + [ts.states];
      var j := 0;
      while j < |itp|
        invariant 0 <= j <= |itp| && |reachSeq| == |before|
        invariant forall m | 0 <= m < |before| ::
                    reachSeq[m] == if 1 <= m <= j then before[m] * itp[m - 1] else before[m]
      {
        reachSeq := reachSeq[j + 1 := reachSeq[j + 1] * itp[j]];
        j := j + 1;
      }
      forall m, n | 0 <= m < |reachSeq| && n == m + 1 < |reachSeq| ensures Maps(ts, reachSeq[m], reachSeq[n]) {
        assert Maps(ts, before[m], before[n]);
        if m > 0 {
          assert Maps(ts, itp[m - 1], itp[n - 1]);
        }
      }
    }

    method CheckReachSeq() returns (proved: bool)
      requires WellFormed(ts) && Forward(ts, reachSeq) && Avoids(reachSeq, ts.bad) && |reachSeq| > 1
      modifies this`invar
      ensures proved ==> Invariant(ts, invar)
      ensures !proved ==> |reachSeq| - 1 <= |ts.states| - |ts.init| - |ts.bad| && NoFixedPoint(reachSeq)
    {
      var fixedPoint;
      proved, fixedPoint := CheckFixedPoint(reachSeq);
      if proved {
        ghost var i :| 1 <= i < |reachSeq| && fixedPoint == Union(reachSeq[..i]) && reachSeq[i] <= fixedPoint;
        ForwardFixedPoint(ts, reachSeq, i);
        invar := fixedPoint;
      } else {
        NoFixedPointBound(ts, reachSeq, ts.init, ts.bad);
      }
    }
  }
}
