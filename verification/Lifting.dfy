/** Lifting a predecessor cube by an unsat core: exactly when every core the solver may answer
    with keeps the cube inside the frame, a system where one does not, and a system where the
    core may be empty. */
module Lifting {
  import opened Systems
  import opened Solver
  import opened IC3Formulas
  import opened IC3Frames
  import opened IC3Goals
  import IC3

  type Step = (State, State, State)

  // ---------------------------------------------------------------- exactly when the frame is kept

  /** A selection of the literals of p that excludes every offender. */
  ghost predicate IsCore(p: State, offenders: set<State>, red: seq<Lit>) {
    && (forall l | l in red :: l in IC3.ModelLits(p))
    && forall o | o in offenders :: !IC3.AllHold(red, o)
  }

  /** o has the value of p wherever s has it. */
  ghost predicate AgreesWhere(p: State, s: State, o: State)
    requires |p| == |s| == |o|
  {
    forall v | 0 <= v < |p| && s[v] == p[v] :: o[v] == p[v]
  }

  /** The literals that p shares with s. */
  function Shared(p: State, s: State, k: nat): (r: seq<Lit>)
    requires |p| == |s| && k <= |p|
    ensures forall l :: l in r <==> l.v < k && p[l.v] == s[l.v] == l.pos
  {
    if k == 0 then []
    else Shared(p, s, k - 1) + (if p[k - 1] == s[k - 1] then [Lit(k - 1, p[k - 1])] else [])
  }

  lemma InModelLits(p: State, l: Lit)
    ensures l in IC3.ModelLits(p) <==> l.v < |p| && p[l.v] == l.pos
  {
    if l.v < |p| && p[l.v] == l.pos {
      assert IC3.ModelLits(p)[l.v] == l;
    }
  }

  /** Every cube lifted from p stays in the frame exactly when no state outside can be told apart
      from p together with all the offenders: for each such state some offender agrees with p
      wherever the state does. */
  lemma LiftingStaysInFrame(p: State, offenders: set<State>, frame: set<State>)
    requires forall o | o in offenders :: |o| == |p|
    ensures (forall red, s: State | IsCore(p, offenders, red) && |s| == |p| && IC3.AllHold(red, s) :: s in frame)
       <==> forall s: State | |s| == |p| && s !in frame :: exists o :: o in offenders && AgreesWhere(p, s, o)
  {
    forall s: State, red | IsCore(p, offenders, red) && |s| == |p| && IC3.AllHold(red, s)
      ensures forall o | o in offenders :: !AgreesWhere(p, s, o)
    {
      forall o | o in offenders ensures !AgreesWhere(p, s, o) {
        var l :| l in red && !Holds(l, o);
        InModelLits(p, l);
        assert Holds(l, s);
      }
    }
    forall s: State | |s| == |p| && forall o | o in offenders :: !AgreesWhere(p, s, o)
      ensures IsCore(p, offenders, Shared(p, s, |p|)) && IC3.AllHold(Shared(p, s, |p|), s)
    {
      SharedIsCore(p, s, offenders);
    }
  }

  lemma SharedIsCore(p: State, s: State, offenders: set<State>)
    requires |p| == |s| && forall o | o in offenders :: |o| == |p| && !AgreesWhere(p, s, o)
    ensures IsCore(p, offenders, Shared(p, s, |p|)) && IC3.AllHold(Shared(p, s, |p|), s)
  {
    var red := Shared(p, s, |p|);
    forall l | l in red ensures l in IC3.ModelLits(p) && Holds(l, s) {
      InModelLits(p, l);
    }
    forall o | o in offenders ensures !IC3.AllHold(red, o) {
      SharedTells(p, s, o);
    }
    hide Shared;
    hide Holds;
    hide AgreesWhere;
  }

  lemma SharedTells(p: State, s: State, o: State)
    requires |p| == |s| == |o| && !AgreesWhere(p, s, o)
    ensures !IC3.AllHold(Shared(p, s, |p|), o)
  {
    var v :| 0 <= v < |p| && s[v] == p[v] && o[v] != p[v];
    assert Lit(v, p[v]) in Shared(p, s, |p|);
    assert !Holds(Lit(v, p[v]), o);
    hide Shared;
  }

  /** The queries of the engine: the predecessor and the offenders of a model found at frame i - 1.
      A system that is not deterministic always keeps the frame, because all states outside it are
      offenders. */
  lemma LiftingKeepsFrameExactly(sys: BitSystem, frames: Frames, i: nat, t: CexTerm, e: Step)
    requires WellFormedBits(sys) && i >= 2 && IC3.IsPredecessorModel(sys, frames, i, t, e)
    ensures (forall red, s: State | IsCoreFor(sys, frames, i, t, e, red) && |s| == sys.n && IC3.AllHold(red, s) :: InFrame(sys, frames, i - 1, s))
       <==> forall s: State | |s| == sys.n && !InFrame(sys, frames, i - 1, s) :: SomeOffenderAgrees(sys, frames, i, t, e, s)
    ensures !sys.deterministic ==>
              forall s: State | |s| == sys.n && !InFrame(sys, frames, i - 1, s) :: SomeOffenderAgrees(sys, frames, i, t, e, s)
  {
    var offenders := set s | s in States(sys.n) && IC3.IsOffender(sys, frames, i, t, e, s);
    var frame := FrameSet(sys, frames, i - 1);
    forall s: State ensures s in States(sys.n) <==> |s| == sys.n {
      StatesExact(sys.n, s);
    }
    forall s: State ensures s in frame <==> InFrame(sys, frames, i - 1, s) {
      FrameSetExact(sys, frames, i - 1, s);
    }
    assert forall s: State :: s in offenders <==> IC3.IsOffender(sys, frames, i, t, e, s);
    forall red ensures IsCoreFor(sys, frames, i, t, e, red) <==> IsCore(e.0, offenders, red) {
    }
    forall s: State | |s| == sys.n
      ensures SomeOffenderAgrees(sys, frames, i, t, e, s) <==> exists o :: o in offenders && AgreesWhere(e.0, s, o)
    {
    }
    LiftingStaysInFrame(e.0, offenders, frame);
    if !sys.deterministic {
      forall s: State | |s| == sys.n && !InFrame(sys, frames, i - 1, s) ensures SomeOffenderAgrees(sys, frames, i, t, e, s) {
        assert IC3.IsOffender(sys, frames, i, t, e, s) && AgreesWhere(e.0, s, s);
      }
    }
    hide IC3.IsOffender;
    hide InFrame;
    hide AgreesWhere;
    hide IsCore;
  }

  /** What the reducer may return: literals of the predecessor that exclude every offender. */
  ghost predicate IsCoreFor(sys: BitSystem, frames: Frames, i: nat, t: CexTerm, e: Step, red: seq<Lit>)
    requires i >= 1
  {
    && (forall l | l in red :: l in IC3.ModelLits(e.0))
    && forall o: State | IC3.IsOffender(sys, frames, i, t, e, o) :: !IC3.AllHold(red, o)
  }

  ghost predicate SomeOffenderAgrees(sys: BitSystem, frames: Frames, i: nat, t: CexTerm, e: Step, s: State)
    requires WellFormedBits(sys) && i >= 1 && e in sys.trans && |s| == sys.n
  {
    exists o: State :: IC3.IsOffender(sys, frames, i, t, e, o) && AgreesWhere(e.0, s, o)
  }

  // ---------------------------------------------------------------- a cube that leaves it

  /** Two state variables and no inputs: 00 -> 01 -> 10 -> 11 -> 10, and 11 is bad. */
  function NextOf(s: State): State {
    if s == [false, false] then [false, true] else if s == [true, false] then [true, true] else [true, false]
  }

  const Moves: set<Step> := set s | s in States(2) :: (s, [], NextOf(s))

  const Sample := BitSystem(2, {[]}, {[false, false]}, Moves, {[true, true]}, true)

  const NotFirst := IC3Formula([Lit(0, false)], true)

  /** What the engine may hold after bound 2: the bad predecessor 10 was blocked at level 1 by the
      clause that the first variable is false. At bound 3 it is the goal at level 2. */
  const SampleFrames: Frames := [[], [NotFirst], []]

  const Target := IC3Formula([Lit(0, true), Lit(1, false)], false)
  const Lifted := IC3Formula([Lit(1, true)], false)
  const Model: Step := ([false, true], [], [true, false])

  lemma SatSample(s: State)
    requires |s| == 2
    ensures Sat(NotFirst, s) <==> !s[0]
    ensures Sat(Target, s) <==> s[0] && !s[1]
    ensures Sat(Lifted, s) <==> s[1]
  {
    var a, b, c := Lit(0, false), Lit(0, true), Lit(1, false);
    assert NotFirst.children[0] == a && Target.children[0] == b && Target.children[1] == c && Lifted.children[0] == Lit(1, true);
    assert a in NotFirst.children && b in Target.children && c in Target.children && Lit(1, true) in Lifted.children;
    assert Holds(a, s) <==> !s[0];
    assert Holds(b, s) <==> s[0];
    assert Holds(c, s) <==> !s[1];
    assert Holds(Lit(1, true), s) <==> s[1];
  }

  lemma SampleMoves(s: State)
    requires |s| == 2
    ensures (s, [], NextOf(s)) in Moves
  {
    StatesExact(2, s);
  }

  lemma SampleMovesOnly(e: Step)
    requires e in Moves
    ensures |e.0| == 2 && e.1 == [] && e.2 == NextOf(e.0) && |e.2| == 2
  {
  }

  lemma SampleIsDeterministic()
    ensures WellFormedBits(Sample)
  {
    forall s: State, x: State | |s| == 2 && x in Sample.inputs ensures Enabled(Sample, s, x) {
      SampleMoves(s);
    }
    forall e | e in Moves ensures |e.0| == |e.2| == 2 && e.1 in Sample.inputs && e.2 == NextOf(e.0) {
      SampleMovesOnly(e);
    }
    hide Moves;
  }

  lemma SampleFrame(s: State)
    ensures InFrame(Sample, SampleFrames, 1, s) <==> |s| == 2 && !s[0]
    ensures InFrame(Sample, SampleFrames, 2, s) <==> |s| == 2 && s != [true, true]
  {
    if |s| == 2 {
      SatSample(s);
    }
    assert AllSat(SampleFrames[2], s);
    assert NotFirst in SampleFrames[1];
    assert AllSat(SampleFrames[1], s) <==> Sat(NotFirst, s);
    hide NotFirst;
    hide Moves;
  }

  lemma SampleInv()
    ensures FrameInv(Sample, SampleFrames)
  {
    assert Clauses(SampleFrames);
    SampleFrame([false, false]);
    forall e, i | e in Moves && 0 <= i < 2 && InFrame(Sample, SampleFrames, i, e.0)
      ensures InFrame(Sample, SampleFrames, i + 1, e.2)
    {
      SampleMovesOnly(e);
      SampleFrame(e.0);
      SampleFrame(e.2);
      assert e.0 == [e.0[0], e.0[1]];
    }
    hide Moves;
  }

  lemma TargetStepsIntoBad()
    ensures LeadsTo(Sample, Target, Bad)
  {
    forall s: State | |s| == 2 && Sat(Target, s) ensures HasSuccessorIn(Sample, s, Bad) {
      SatSample(s);
      assert s == [s[0], s[1]];
      SampleMoves(s);
    }
    hide Moves;
  }

  lemma LiftedIsCore()
    ensures IsCoreFor(Sample, SampleFrames, 2, Cube(Target), Model, Lifted.children)
  {
    assert IC3.ModelLits(Model.0)[1] == Lit(1, true);
    forall s: State | IC3.IsOffender(Sample, SampleFrames, 2, Cube(Target), Model, s) ensures !IC3.AllHold(Lifted.children, s) {
      var d :| d in Sample.trans && d.1 == Model.1 && d.0 == s && !Describes(Sample, Cube(Target), d.2);
      SampleMovesOnly(d);
      SatSample(s);
      SatSample(d.2);
      assert s == [s[0], s[1]];
    }
    hide Moves;
    hide InFrame;
    hide Target;
  }

  /** The second literal of the predecessor 01 excludes every offender, so it is an unsat core the
      solver may answer with; but the lifted cube also holds 11, which is not in frame 1. The
      promise that a predecessor cube implies the frame below fails for deterministic systems. */
  lemma LiftedCubeLeavesFrame()
    ensures WellFormedBits(Sample) && Sample.deterministic && FrameInv(Sample, SampleFrames)
    ensures LeadsTo(Sample, Target, Bad) && IC3.IsPredecessorModel(Sample, SampleFrames, 2, Cube(Target), Model)
    ensures IsCoreFor(Sample, SampleFrames, 2, Cube(Target), Model, Lifted.children)
    ensures Sat(Lifted, [true, true]) && !InFrame(Sample, SampleFrames, 1, [true, true])
  {
    SampleIsDeterministic();
    SampleInv();
    TargetStepsIntoBad();
    LiftedIsCore();
    SampleMoves(Model.0);
    forall s: State | InFrame(Sample, SampleFrames, 1, s) ensures !Sat(Target, s) {
      SampleFrame(s);
      SatSample(s);
    }
    SampleFrame(Model.0);
    SampleFrame([true, true]);
    SatSample(Model.2);
    SatSample([true, true]);
    hide Moves;
    hide InFrame;
    hide Target;
    hide WellFormedBits;
    hide FrameInv;
    hide LeadsTo;
    hide IsCoreFor;
  }

  // ---------------------------------------------------------------- an empty core

  const Falling: set<Step> := {([false], [], [true]), ([true], [], [true])}

  /** One state variable, which is set in one step and then stays; set is bad, and no state is
      initial. */
  const NoInit := BitSystem(1, {[]}, {}, Falling, {[true]}, true)

  const NoInitModel: Step := ([false], [], [true])

  /** Here the assertion that the core is not empty can fail. The two base checks pass, and at bound 2
      the bad predecessor of the frontier, under frames that store nothing yet, has no offender at
      all: no literal is needed to exclude them. */
  lemma EmptyCoreHappens()
    ensures WellFormedBits(NoInit) && FrameInv(NoInit, [[], []])
    ensures NoInit.init !! NoInit.bad && forall e | e in NoInit.trans && e.0 in NoInit.init :: e.2 !in NoInit.bad
    ensures IC3.IsPredecessorModel(NoInit, [[], []], 2, Bad, NoInitModel)
    ensures IsCoreFor(NoInit, [[], []], 2, Bad, NoInitModel, [])
  {
    forall s: State, x: State | |s| == 1 && x in NoInit.inputs ensures Enabled(NoInit, s, x) {
      var e: Step := if s[0] then ([true], [], [true]) else ([false], [], [true]);
      assert e in NoInit.trans && e.0 == s && e.1 == x;
    }
    IC3.EmptyCoreExact(NoInit, [[], []], 2, Bad, NoInitModel);
  }
}
