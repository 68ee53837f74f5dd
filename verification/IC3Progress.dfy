/** Why IC3 cannot run forever on a finite system. With N states, a propagation phase over
    many frames finds many equal neighbours; each of them either ends the run or loses a
    state. The sum of the frame sizes pays for it. */
module IC3Progress {
  import opened IC3Formulas
  import opened IC3Frames
  import opened IC3Goals
  import FixedPoint

  /** How many of the frames 1..m equal their successor. */
  ghost function EqualPairs(sys: BitSystem, frames: Frames, m: nat): nat {
    if m == 0 then 0 else EqualPairs(sys, frames, m - 1) + if EqualFrames(sys, frames, m) then 1 else 0
  }

  lemma FrameSetGrows(sys: BitSystem, frames: Frames, i: nat)
    requires i >= 1
    ensures FrameSet(sys, frames, i) <= FrameSet(sys, frames, i + 1)
    ensures |FrameSet(sys, frames, i)| <= |FrameSet(sys, frames, i + 1)|
    ensures !EqualFrames(sys, frames, i) ==> |FrameSet(sys, frames, i)| < |FrameSet(sys, frames, i + 1)|
    ensures FrameSet(sys, frames, i + 1) <= States(sys.n)
  {
    var a, b := FrameSet(sys, frames, i), FrameSet(sys, frames, i + 1);
    forall s | s in a ensures s in b {
      FrameSetExact(sys, frames, i, s);
      FrameSetExact(sys, frames, i + 1, s);
    }
    FixedPoint.SmallerThan(a, b);
    if !EqualFrames(sys, frames, i) {
      var s: State :| InFrame(sys, frames, i + 1, s) && !InFrame(sys, frames, i, s);
      FrameSetExact(sys, frames, i, s);
      FrameSetExact(sys, frames, i + 1, s);
    }
  }

  /** A growing chain over N states has at most N proper steps. */
  lemma {:induction false} ProperSteps(sys: BitSystem, frames: Frames, m: nat)
    ensures m - EqualPairs(sys, frames, m) <= |FrameSet(sys, frames, m + 1)|
    ensures |FrameSet(sys, frames, m + 1)| <= |States(sys.n)|
  {
    if m > 0 {
      ProperSteps(sys, frames, m - 1);
      FrameSetGrows(sys, frames, m);
    }
    FixedPoint.SmallerThan(FrameSet(sys, frames, m + 1), States(sys.n));
  }

  /** A phase in which every equal pair among 1..m lost a state pays one per pair. */
  lemma {:induction false} EqualPairsPay(sys: BitSystem, before: Frames, after: Frames, m: nat)
    requires Within(sys, after, before)
    requires forall j | 1 <= j <= m && EqualFrames(sys, before, j) :: LostState(sys, before, after, j)
    ensures FrameSum(sys, after, m) + EqualPairs(sys, before, m) <= FrameSum(sys, before, m)
  {
    if m > 0 {
      EqualPairsPay(sys, before, after, m - 1);
      FrameShrinks(sys, before, after, m);
    }
  }

  lemma FrameShrinks(sys: BitSystem, before: Frames, after: Frames, j: nat)
    requires Within(sys, after, before) && j >= 1
    ensures |FrameSet(sys, after, j)| <= |FrameSet(sys, before, j)|
    ensures LostState(sys, before, after, j) ==> |FrameSet(sys, after, j)| < |FrameSet(sys, before, j)|
  {
    var a, b := FrameSet(sys, after, j), FrameSet(sys, before, j);
    forall s | s in a ensures s in b {
      FrameSetExact(sys, after, j, s);
      FrameSetExact(sys, before, j, s);
    }
    FixedPoint.SmallerThan(a, b);
    if s :| InFrame(sys, before, j, s) && !InFrame(sys, after, j, s) {
      FrameSetExact(sys, after, j, s);
      FrameSetExact(sys, before, j, s);
    }
  }

  lemma {:induction false} FrameSumSame(sys: BitSystem, before: Frames, after: Frames, m: nat)
    requires SameMeaning(sys, before, after)
    ensures FrameSum(sys, before, m) == FrameSum(sys, after, m)
  {
    if m > 0 {
      FrameSumSame(sys, before, after, m - 1);
      forall s ensures s in FrameSet(sys, before, m) <==> s in FrameSet(sys, after, m) {
        FrameSetExact(sys, before, m, s);
        FrameSetExact(sys, after, m, s);
      }
      assert FrameSet(sys, before, m) == FrameSet(sys, after, m);
    }
  }

  /** The budget left when f is the frontier. */
  function Budget(n: int, f: int): int {
    2 * n + (f - 1) * (4 * n - f)
  }

  /** One blocking phase, a new frame and one propagation phase without a proof. */
  lemma PhaseSpends(sys: BitSystem, blocked: Frames, pushed: Frames, after: Frames)
    requires |blocked| >= 2 && pushed == blocked + [[]] && |after| == |pushed|
    requires SameMeaning(sys, blocked, pushed) && Within(sys, after, pushed)
    requires forall j | 1 <= j < |pushed| - 1 && EqualFrames(sys, pushed, j) :: LostState(sys, pushed, after, j)
    requires 2 * Size(sys, blocked) <= Budget(|States(sys.n)|, |blocked| - 1)
    ensures 2 * Size(sys, after) <= Budget(|States(sys.n)|, |after| - 1)
  {
    var f, n := |blocked| - 1, |States(sys.n)|;
    EqualPairsPay(sys, pushed, after, f);
    FrameShrinks(sys, pushed, after, f + 1);
    ProperSteps(sys, pushed, f);
    FrameSumSame(sys, blocked, pushed, f);
    assert Size(sys, after) == FrameSum(sys, after, f) + |FrameSet(sys, after, f + 1)|;
    assert Size(sys, after) <= Size(sys, blocked) + 2 * n - f;
    assert Budget(n, f + 1) == Budget(n, f) + 4 * n - 2 * f;
  }

  lemma {:induction false} StatesNonEmpty(n: nat)
    ensures |States(n)| >= 1
  {
    var s: State := seq(n, i => false);
    StatesExact(n, s);
    FixedPoint.SmallerThan({s}, States(n));
  }

  lemma ProductAtLeast(a: int, g: int)
    requires a >= 0 && g >= 1
    ensures a * (-g) <= -a
  {
  }

  /** The budget is overdrawn once the frontier passes four times the number of states. */
  lemma BudgetBound(n: int, f: int)
    requires n >= 1 && f > 4 * n
    ensures Budget(n, f) < 0
  {
    var a, g := f - 1, f - 4 * n;
    ProductAtLeast(a, g);
    assert 4 * n - f == -g;
  }
}
