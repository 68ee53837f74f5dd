/** Bit-level IC3: the common engine with the cube operations of its Boolean flavour. */
module IC3 {
  import opened Systems
  import opened Solver
  import opened IC3Formulas
  import opened IC3Frames
  import opened IC3Goals
  import IC3Progress
  import FixedPoint

  type Step = (State, State, State)

  // ---------------------------------------------------------------- solver calls with cores

  predicate AllHold(ls: seq<Lit>, s: State) {
    forall l | l in ls :: Holds(l, s)
  }

  /** check_sat_assuming with the primed literals ls as assumptions. On unsat the core is a
      set of assumptions that suffices; it is empty only if the assertions alone are unsat. */
  method CheckSatAssuming(base: set<Step>, ls: seq<Lit>) returns (r: Option<Step>, core: set<Lit>)
    ensures r.Some? ==> r.value in base && AllHold(ls, r.value.2)
    ensures r.None? ==> forall l | l in core :: l in ls
    ensures r.None? ==> forall e | e in base :: exists l :: l in core && !Holds(l, e.2)
  {
    var models := set e | e in base && AllHold(ls, e.2);
    assert forall e | e in base && AllHold(ls, e.2) :: e in models;
    r := CheckSat(models);
    core := set l | l in ls;
  }

  /** reduce_assump_unsatcore: a selection of the assumptions that still rules out every
      state of base, given that all of them together do. */
  method ReduceAssumpUnsatCore(base: set<State>, ls: seq<Lit>) returns (red: seq<Lit>)
    requires forall s | s in base :: !AllHold(ls, s)
    ensures |red| <= |ls| && forall l | l in red :: l in ls
    ensures forall s | s in base :: !AllHold(red, s)
  {
    red := ls;
  }

  // ---------------------------------------------------------------- facts about cubes

  /** get_model_ic3formula: one literal per state variable. */
  function ModelLits(s: State): seq<Lit> {
    seq(|s|, v requires 0 <= v < |s| => Lit(v, s[v]))
  }

  lemma ModelLitsExact(s: State, t: State)
    requires |s| == |t|
    ensures AllHold(ModelLits(s), t) <==> s == t
  {
    var c := ModelLits(s);
    if AllHold(c, t) {
      forall v | 0 <= v < |s| ensures s[v] == t[v] {
        assert c[v] in c && Holds(c[v], t);
      }
    }
  }

  /** The cube c can be blocked up to level k. */
  ghost predicate CubeLearnable(sys: BitSystem, frames: Frames, k: nat, c: IC3Formula) {
    && !c.disjunction && c.children != [] && 1 <= k < |frames|
    && Disjoint(sys, frames, 0, c)
    && forall e | e in sys.trans && InFrame(sys, frames, k - 1, e.0) && !Sat(c, e.0) :: !Sat(c, e.2)
  }

  lemma LearnableNegation(sys: BitSystem, frames: Frames, k: nat, c: IC3Formula)
    ensures CubeLearnable(sys, frames, k, c) ==> Learnable(sys, frames, k, Negate(c))
    ensures Learnable(sys, frames, k, c) ==> CubeLearnable(sys, frames, k, Negate(c))
  {
    forall s ensures Sat(Negate(c), s) <==> !Sat(c, s) {
      NegateExact(c, s);
    }
    NegateExact(c, []);
  }

  /** out is a generalization of c that is inductive relative to c at frame k - 1. */
  ghost predicate Generalizes(sys: BitSystem, frames: Frames, k: nat, c: IC3Formula, out: IC3Formula) {
    && k >= 1 && !out.disjunction && out.children != []
    && |out.children| <= |c.children| && (forall l | l in out.children :: l in c.children)
    && Disjoint(sys, frames, 0, out)
    && forall e | e in sys.trans && InFrame(sys, frames, k - 1, e.0) && !Sat(c, e.0) :: !Sat(out, e.2)
  }

  lemma GeneralizationLearnable(sys: BitSystem, frames: Frames, k: nat, c: IC3Formula, out: IC3Formula)
    requires !c.disjunction && 1 <= k < |frames| && Generalizes(sys, frames, k, c, out)
    ensures CubeLearnable(sys, frames, k, out)
  {
  }

  /** Some transition leaves frame k - 1 outside c and enters c. */
  ghost predicate Enters(sys: BitSystem, frames: Frames, k: nat, c: IC3Formula, e: Step)
    requires k >= 1
  {
    e in sys.trans && InFrame(sys, frames, k - 1, e.0) && !Sat(c, e.0) && Sat(c, e.2)
  }

  /** A transition from frame k leaves the states of clause u. */
  ghost predicate Escapes(sys: BitSystem, frames: Frames, k: nat, u: IC3Formula, e: Step) {
    e in sys.trans && InFrame(sys, frames, k, e.0) && Sat(u, e.0) && !Sat(u, e.2)
  }

  /** What lifting the predecessor e.0 of t must exclude, projected on the current state: under the
      inputs of e, T and not t' for a deterministic system, and otherwise the negation of frame
      i - 1, T, not t and t' at the next state of e. */
  ghost predicate IsOffender(sys: BitSystem, frames: Frames, i: nat, t: CexTerm, e: Step, s: State)
    requires i >= 1
  {
    if sys.deterministic then
      exists d :: d in sys.trans && d.1 == e.1 && d.0 == s && !Describes(sys, t, d.2)
    else
      |s| == sys.n
      && !(InFrame(sys, frames, i - 1, s) && (s, e.1, e.2) in sys.trans && !Describes(sys, t, s) && Describes(sys, t, e.2))
  }

  /** A model of a query for predecessors of t at frame i - 1, where t is disjoint from that frame. */
  ghost predicate IsPredecessorModel(sys: BitSystem, frames: Frames, i: nat, t: CexTerm, e: Step)
    requires i >= 1
  {
    && e in sys.trans && InFrame(sys, frames, i - 1, e.0) && Describes(sys, t, e.2)
    && forall s: State | InFrame(sys, frames, i - 1, s) :: !Describes(sys, t, s)
  }

  /** All transitions under the inputs of e lead into t. */
  ghost predicate AllLeadInto(sys: BitSystem, t: CexTerm, e: Step) {
    forall d | d in sys.trans && d.1 == e.1 :: Describes(sys, t, d.2)
  }

  /** The lifting query is unsatisfiable on its own, so that the core may come back empty, exactly
      for a deterministic system all of whose transitions under the inputs at hand lead into t. */
  lemma EmptyCoreExact(sys: BitSystem, frames: Frames, i: nat, t: CexTerm, e: Step)
    requires WellFormedBits(sys) && i >= 1 && IsPredecessorModel(sys, frames, i, t, e)
    ensures (forall s: State :: !IsOffender(sys, frames, i, t, e, s)) <==> sys.deterministic && AllLeadInto(sys, t, e)
  {
    if sys.deterministic {
      if forall s: State :: !IsOffender(sys, frames, i, t, e, s) {
        forall d | d in sys.trans && d.1 == e.1 ensures Describes(sys, t, d.2) {
          assert !IsOffender(sys, frames, i, t, e, d.0);
        }
      }
    } else {
      assert IsOffender(sys, frames, i, t, e, e.2);
    }
  }

  /** Then there is no initial state: it would step into t although t is disjoint from frame i - 1. */
  lemma EmptyCoreNeedsEmptyInit(sys: BitSystem, frames: Frames, i: nat, t: CexTerm, e: Step)
    requires WellFormedBits(sys) && FrameInv(sys, frames) && 2 <= i <= |frames|
    requires IsPredecessorModel(sys, frames, i, t, e) && sys.deterministic && AllLeadInto(sys, t, e)
    ensures sys.init == {}
  {
    if s :| s in sys.init {
      assert Enabled(sys, s, e.1);
      var d :| d in sys.trans && d.0 == s && d.1 == e.1;
      InitStays(sys, frames, i, d);
    }
  }

  lemma InitStays(sys: BitSystem, frames: Frames, i: nat, d: Step)
    requires FrameInv(sys, frames) && 2 <= i <= |frames| && d in sys.trans && d.0 in sys.init
    ensures InFrame(sys, frames, i - 1, d.2)
  {
    FramesGrow(sys, frames, 0, i - 2, d.0);
  }

  datatype BlockResult = Blocked | CexFound | Threw

  /** Threw: the reducer returned an empty core for a predecessor cube, which the engine
      answers with an assertion failure or an out-of-range exception. */
  datatype Outcome = Verdict(result: ProverResult) | EmptyCore

  class IC3 {
    const sys: BitSystem
    /** ic3_pregen_ and ic3_indgen_ */
    const pregen: bool
    const indgen: bool
    var frames: Frames
    /** Per frame label, the clauses the solver holds for it; the property is implicit. */
    var asserted: Frames
    var reachedK: int
    var cex: seq<CexTerm>
    var invar: set<State>
    var failedToReset: bool

    /** Between blocking and propagation steps. */
    ghost predicate Running()
      reads this
    {
      && WellFormedBits(sys)
      && FrameInv(sys, frames)
      && Agree(sys, frames, asserted)
    }

    /** The only circumstances in which an empty core can cut a run short. */
    predicate LiftsWithoutInit() {
      pregen && sys.deterministic && sys.init == {}
    }

    // ------------------------------------------------------------ queries

    /** Checks whether c is inductive relative to frame i - 1. On success out is a core-based
        generalization; otherwise, with getPred, a cube of predecessors. */
    method RelIndCheck(i: nat, c: IC3Formula, getPred: bool) returns (ok: bool, out: IC3Formula, threw: bool)
      requires Running() && 1 <= i < |frames|
      requires !c.disjunction && c.children != [] && Disjoint(sys, frames, 0, c)
      requires getPred ==> Disjoint(sys, frames, i - 1, c)
      ensures ok ==> !threw && Generalizes(sys, frames, i, c, out) && (Sorted(c.children) ==> Sorted(out.children))
      ensures !ok ==> exists e :: Enters(sys, frames, i, c, e)
      ensures !ok && getPred && !threw ==> IsPredecessor(i, Cube(c), out)
      ensures threw ==> getPred && LiftsWithoutInit()
    {
      threw := false;
      var base := set e | e in sys.trans && InLabels(sys, asserted, i - 1, e.0) && !Sat(c, e.0);
      var r, core := CheckSatAssuming(base, c.children);
      ghost var below: nat := i - 1;
      forall s ensures InLabels(sys, asserted, below, s) <==> InFrame(sys, frames, below, s) {
        LabelsExact(sys, frames, asserted, below, s);
      }
      if r.Some? {
        assert Enters(sys, frames, i, c, r.value);
        ok, out := false, c;
        if getPred {
          var p := Predecessor(i, Cube(c), r.value);
          threw := p.None?;
          if p.Some? {
            out := p.value;
          }
        }
        return;
      }
      ok := true;
      forall e | e in sys.trans && InFrame(sys, frames, i - 1, e.0) && !Sat(c, e.0)
        ensures exists l :: l in core && !Holds(l, e.2)
      {
        assert e in base;
      }
      if core == {} {
        out := c;
      } else {
        out := GeneralizeByCore(i, c, core);
      }
    }

    /** Splits the cube by the core and re-adds dropped literals until Init is excluded. */
    method GeneralizeByCore(i: nat, c: IC3Formula, core: set<Lit>) returns (out: IC3Formula)
      requires Running() && 1 <= i < |frames| && !c.disjunction && Disjoint(sys, frames, 0, c)
      requires core != {} && forall l | l in core :: l in c.children
      requires forall e | e in sys.trans && InFrame(sys, frames, i - 1, e.0) && !Sat(c, e.0) ::
                 exists l :: l in core && !Holds(l, e.2)
      ensures Generalizes(sys, frames, i, c, out) && Sorted(out.children)
      ensures forall l | l in core :: l in out.children
    {
      var gen: seq<Lit>, rem: seq<Lit> := [], [];
      var k := 0;
      while k < |c.children|
        invariant 0 <= k <= |c.children| && |gen| + |rem| == k
        invariant forall l :: l in gen <==> l in c.children[..k] && l in core
        invariant forall l :: l in rem <==> l in c.children[..k] && l !in core
      {
        assert c.children[..k + 1] == c.children[..k] + [c.children[k]];
        if c.children[k] in core {
          gen := gen + [c.children[k]];
        } else {
          rem := rem + [c.children[k]];
        }
        k := k + 1;
      }
      assert c.children[..k] == c.children;
      forall s | s in sys.init ensures !AllHold(gen + rem, s) {
        assert InFrame(sys, frames, 0, s);
        assert forall l | l in c.children :: l in gen + rem;
      }
      ghost var l0 :| l0 in core;
      assert l0 in gen;
      var keep := FixIfIntersectsInitial(gen, rem);
      out := Conjunction(keep);
      SortCorrect(keep);
      assert l0 in out.children;
      forall s | s in sys.init ensures !Sat(out, s) {
        assert !AllHold(keep, s);
      }
    }

    method FixIfIntersectsInitial(keep: seq<Lit>, rem: seq<Lit>) returns (r: seq<Lit>)
      requires forall s | s in sys.init :: !AllHold(keep + rem, s)
      ensures |r| <= |keep| + |rem|
      ensures forall l | l in r :: l in keep || l in rem
      ensures forall l | l in keep :: l in r
      ensures forall s | s in sys.init :: !AllHold(r, s)
    {
      if rem == [] {
        assert keep + rem == keep;
        return keep;
      }
      var base := set s | s in sys.init && AllHold(keep, s);
      forall s | s in base ensures !AllHold(rem, s) {
        assert !AllHold(keep + rem, s);
      }
      var red := ReduceAssumpUnsatCore(base, rem);
      r := keep + red;
      forall s | s in sys.init ensures !AllHold(r, s) {
        if AllHold(keep, s) {
          assert s in base;
          var l :| l in red && !Holds(l, s);
          assert l in r;
        } else {
          var l :| l in keep && !Holds(l, s);
          assert l in r;
        }
      }
    }

    /** What a predecessor of t found at frame i - 1 guarantees. It meets frame i - 1, every
        one of its states has a successor in t, and without determinism it stays inside
        frame i - 1. */
    ghost predicate IsPredecessor(i: nat, t: CexTerm, p: IC3Formula)
      reads this
    {
      && i >= 1
      && !p.disjunction && p.children != []
      && LeadsTo(sys, p, t)
      && (exists s :: InFrame(sys, frames, i - 1, s) && Sat(p, s))
    }

    /** Reads the predecessor off the model e and lifts it if predecessor generalization is
        enabled; None when the lifting core comes back empty. */
    method Predecessor(i: nat, t: CexTerm, e: Step) returns (p: Option<IC3Formula>)
      requires Running() && 1 <= i <= |frames| && IsPredecessorModel(sys, frames, i, t, e)
      ensures p.Some? ==> IsPredecessor(i, t, p.value)
      ensures p.None? ==> LiftsWithoutInit() && i >= 2 && AllLeadInto(sys, t, e)
    {
      assert e.0 != e.2;
      var cube := Conjunction(ModelLits(e.0));
      assert ModelLits(e.0)[0] in ModelLits(e.0);
      forall s: State | |s| == sys.n ensures Sat(cube, s) <==> s == e.0 {
        ModelLitsExact(e.0, s);
      }
      if pregen {
        p := PredecessorGeneralization(i, t, e, cube);
      } else {
        p := Some(cube);
        assert HasSuccessorIn(sys, e.0, t);
      }
    }

    /** Lifting by an unsat core, in the two forms for deterministic and other systems. */
    method PredecessorGeneralization(i: nat, t: CexTerm, e: Step, cube: IC3Formula) returns (p: Option<IC3Formula>)
      requires Running() && 1 <= i <= |frames| && IsPredecessorModel(sys, frames, i, t, e)
      requires !cube.disjunction && cube.children != []
      requires forall s: State | |s| == sys.n :: Sat(cube, s) <==> s == e.0
      ensures p.Some? ==> IsPredecessor(i, t, p.value)
      ensures p.Some? && i >= 2 && !sys.deterministic ==>
                forall s: State | |s| == sys.n && Sat(p.value, s) :: InFrame(sys, frames, i - 1, s)
      ensures p.None? ==> sys.deterministic && sys.init == {} && i >= 2 && AllLeadInto(sys, t, e)
    {
      assert HasSuccessorIn(sys, e.0, t);
      if i == 1 {
        return Some(cube);
      }
      var offenders := ComputeOffenders(i, t, e);
      forall s | s in offenders ensures !AllHold(cube.children, s) {
        assert !Sat(cube, s);
      }
      var red := ReduceAssumpUnsatCore(offenders, cube.children);
      if red == [] {
        EmptyCoreExact(sys, frames, i, t, e);
        EmptyCoreNeedsEmptyInit(sys, frames, i, t, e);
        return None;
      }
      var lifted := Conjunction(red);
      assert red[0] in lifted.children;
      CubeWeakens(cube, lifted, e.0);
      forall s: State | |s| == sys.n && Sat(lifted, s)
        ensures HasSuccessorIn(sys, s, t) && (!sys.deterministic ==> InFrame(sys, frames, i - 1, s))
      {
        assert AllHold(red, s);
        NonOffenderSteps(i, t, e, s);
      }
      p := Some(lifted);
    }

    /** The states that satisfy the formula handed to the reducer. */
    method ComputeOffenders(i: nat, t: CexTerm, e: Step) returns (offenders: set<State>)
      requires Running() && 2 <= i <= |frames| && IsPredecessorModel(sys, frames, i, t, e)
      ensures forall s: State :: s in offenders <==> IsOffender(sys, frames, i, t, e, s)
      ensures forall s | s in offenders :: |s| == sys.n && s != e.0
    {
      if sys.deterministic {
        offenders := set d | d in sys.trans && d.1 == e.1 && !Describes(sys, t, d.2) :: d.0;
      } else {
        offenders := set s | s in States(sys.n) &&
                             !(InFrame(sys, frames, i - 1, s) && (s, e.1, e.2) in sys.trans && !Describes(sys, t, s) && Describes(sys, t, e.2));
        forall s: State ensures s in States(sys.n) <==> |s| == sys.n {
          StatesExact(sys.n, s);
        }
      }
    }

    lemma NonOffenderSteps(i: nat, t: CexTerm, e: Step, s: State)
      requires WellFormedBits(sys) && i >= 2 && e in sys.trans && Describes(sys, t, e.2)
      requires !IsOffender(sys, frames, i, t, e, s) && |s| == sys.n
      ensures HasSuccessorIn(sys, s, t)
      ensures !sys.deterministic ==> InFrame(sys, frames, i - 1, s)
    {
      if sys.deterministic {
        assert Enabled(sys, s, e.1);
      }
    }

    /** Can a state of the frontier reach Bad in one step? */
    method ReachesBad() returns (reaches: bool, goal: IC3Formula, threw: bool)
      requires Running()
      ensures !reaches ==> forall e | e in sys.trans && InFrame(sys, frames, |frames| - 1, e.0) :: e.2 !in sys.bad
      ensures reaches && !threw ==> IsPredecessor(|frames|, Bad, goal)
      ensures threw ==> LiftsWithoutInit()
    {
      var top: nat := |frames| - 1;
      var models := set e | e in sys.trans && InLabels(sys, asserted, top, e.0) && e.2 in sys.bad;
      var r := CheckSat(models);
      forall s ensures InLabels(sys, asserted, top, s) <==> InFrame(sys, frames, top, s) {
        LabelsExact(sys, frames, asserted, top, s);
      }
      reaches, goal, threw := r.Some?, IC3Formula([], false), false;
      if r.Some? {
        var p := Predecessor(|frames|, Bad, r.value);
        threw := p.None?;
        if p.Some? {
          goal := p.value;
        }
      } else {
        forall e | e in sys.trans && InFrame(sys, frames, top, e.0) ensures e.2 !in sys.bad {
          assert e in models || e.2 !in sys.bad;
        }
      }
    }

    /** Exact: the syntactic scan can only confirm what the semantic check decides. */
    method IsBlocked(g: ProofGoal) returns (blocked: bool)
      requires Running() && GoalOk(sys, frames, g) && g.idx >= 1
      ensures blocked <==> AlreadyBlocked(sys, frames, g)
    {
      var clause := Negate(g.target);
      var i := g.idx;
      while i < |frames|
        invariant g.idx <= i <= |frames|
      {
        var j := 0;
        while j < |frames[i]|
          invariant 0 <= j <= |frames[i]|
        {
          if Subsumes(frames[i][j], clause) {
            SyntacticallyBlocked(g, i, frames[i][j]);
            return true;
          }
          j := j + 1;
        }
        i := i + 1;
      }
      var models := set s | s in States(sys.n) && InLabels(sys, asserted, g.idx, s) && Sat(g.target, s);
      var r := CheckSat(models);
      forall s: State | InFrame(sys, frames, g.idx, s) && Sat(g.target, s) ensures s in models {
        StatesExact(sys.n, s);
        LabelsExact(sys, frames, asserted, g.idx, s);
      }
      if r.Some? {
        LabelsExact(sys, frames, asserted, g.idx, r.value);
      }
      blocked := r.None?;
    }

    lemma SyntacticallyBlocked(g: ProofGoal, i: nat, u: IC3Formula)
      requires Running() && g.idx >= 1 && !g.target.disjunction
      requires g.idx <= i < |frames| && u in frames[i] && Subsumes(u, Negate(g.target))
      ensures AlreadyBlocked(sys, frames, g)
    {
      forall s: State | InFrame(sys, frames, g.idx, s) ensures !Sat(g.target, s) {
        assert AllSat(frames[i], s);
        SubsumedImplied(u, Negate(g.target), s);
        NegateExact(g.target, s);
      }
    }

    // ------------------------------------------------------------ generalization

    method CheckIntersectsInitial(c: IC3Formula) returns (r: bool)
      ensures !r <==> Disjoint(sys, frames, 0, c)
    {
      var models := set s | s in sys.init && Sat(c, s);
      var m := CheckSat(models);
      assert forall s | s in sys.init && Sat(c, s) :: s in models;
      if m.Some? {
        assert InFrame(sys, frames, 0, m.value);
      }
      r := m.Some?;
    }

    /** Drops literals one at a time. The clause it returns blocks c, holds initially and is
        inductive relative to frame i - 1, and no literal is left in it untested. */
    method InductiveGeneralization(i: nat, c: IC3Formula) returns (block: IC3Formula, ghost cube: IC3Formula)
      requires Running() && 1 <= i < |frames| && CubeLearnable(sys, frames, i, c)
      ensures Learnable(sys, frames, i, block) && block == Negate(cube)
      ensures forall s | Sat(c, s) :: !Sat(block, s)
      ensures |cube.children| > 1 ==> forall l | l in cube.children :: Needed(i, c, cube.children, l)
    {
      hide Needed;
      hide Tried;
      hide CubeLearnable;
      hide Learnable;
      hide FrameInv;
      hide Agree;
      hide WellFormedBits;
      hide Sorted;
      var necessary: set<Lit> := {};
      var gen := c.children;
      var j := 0;
      CubeChildren(i, c);
      NoneTried(gen);
      while j < |gen| && |gen| > 1
        invariant gen != [] && 0 <= j <= |gen|
        invariant forall l | l in gen :: l in c.children
        invariant CubeLearnable(sys, frames, i, IC3Formula(gen, false))
        invariant forall l | l in gen && l in necessary :: Needed(i, c, gen, l)
        invariant Tried(gen, j, necessary)
        decreases |gen|, (set l | l in gen) - necessary, |gen| - j
      {
        var dropped := gen[j];
        if dropped in necessary {
          TriedOne(gen, j, necessary);
          j := j + 1;
          continue;
        }
        var shorter := gen[..j] + gen[j + 1..];
        ghost var before := gen;
        var test := Conjunction(shorter);
        SortCorrect(shorter);
        assert forall l :: l in gen <==> l in test.children || l == dropped by {
          assert gen == gen[..j] + [dropped] + gen[j + 1..];
        }
        assert |test.children| == |gen| - 1;
        var ok, out := DropSucceeds(i, test);
        if ok {
          CubeChildren(i, out);
          gen := out.children;
          j := 0;
          TriedSorted(gen, necessary);
          StillNeeded(i, c, before, gen, necessary);
        } else {
          NewlyNeeded(i, c, before, test, dropped);
          TriedAgain(before, j, necessary);
          necessary := necessary + {dropped};
          gen := test.children + [dropped];
          assert (set l | l in gen) == (set l | l in before);
          SameCube(i, before, gen);
          StillNeeded(i, c, before, gen, necessary);
        }
      }
      var final := Conjunction(gen);
      SameCube(i, gen, final.children);
      LearnableNegation(sys, frames, i, final);
      block, cube := Negate(final), final;
      forall s | Sat(c, s) ensures !Sat(block, s) {
        CubeWeakens(c, final, s);
        NegateExact(final, s);
      }
      if |gen| > 1 {
        AllTried(gen, necessary);
        StillNeeded(i, c, gen, final.children, necessary);
      }
    }

    /** The cube meets Init or is not inductive relative to frame i - 1. */
    ghost predicate Refused(i: nat, d: IC3Formula)
      requires i >= 1
      reads this
    {
      !Disjoint(sys, frames, 0, d) || exists e :: Enters(sys, frames, i, d, e)
    }

    /** Literal l of gen was tried: without it, a cube made of literals of c that contains the others
        of gen was refused. */
    ghost predicate Needed(i: nat, c: IC3Formula, gen: seq<Lit>, l: Lit)
      requires i >= 1
      reads this
    {
      exists d: IC3Formula :: !d.disjunction && Refused(i, d) && l !in d.children
                              && (forall x | x in d.children :: x in c.children)
                              && forall x | x in gen && x != l :: x in d.children
    }

    lemma StillNeeded(i: nat, c: IC3Formula, gen: seq<Lit>, shorter: seq<Lit>, necessary: set<Lit>)
      requires i >= 1 && forall l | l in gen && l in necessary :: Needed(i, c, gen, l)
      requires forall l | l in shorter :: l in gen
      ensures forall l | l in shorter && l in necessary :: Needed(i, c, shorter, l)
    {
      forall l | l in shorter && l in necessary ensures Needed(i, c, shorter, l) {
        var d: IC3Formula :| !d.disjunction && Refused(i, d) && l !in d.children
                             && (forall x | x in d.children :: x in c.children)
                             && forall x | x in gen && x != l :: x in d.children;
      }
    }

    lemma NewlyNeeded(i: nat, c: IC3Formula, gen: seq<Lit>, test: IC3Formula, l: Lit)
      requires i >= 1 && CubeLearnable(sys, frames, i, IC3Formula(gen, false)) && Refused(i, test) && !test.disjunction
      requires forall x | x in gen :: x in c.children
      requires forall x :: x in gen <==> x in test.children || x == l
      ensures Needed(i, c, gen, l)
    {
      if l in test.children {
        assert forall s :: Sat(test, s) <==> Sat(IC3Formula(gen, false), s);
      }
    }

    /** The first j literals of gen are marked. Once any is marked, gen is sorted but for a marked
        literal that may follow at its end. */
    ghost predicate Tried(gen: seq<Lit>, j: nat, marked: set<Lit>) {
      && j <= |gen|
      && (marked == {} || exists a, b :: gen == a + b && Sorted(a) && |b| <= 1 && forall l | l in b :: l in marked)
      && forall m | 0 <= m < j :: gen[m] in marked
    }

    lemma TriedAgain(gen: seq<Lit>, j: nat, marked: set<Lit>)
      requires Tried(gen, j, marked) && j < |gen| && gen[j] !in marked
      ensures Tried(Sort(gen[..j] + gen[j + 1..]) + [gen[j]], j, marked + {gen[j]})
    {
      var shorter, l := gen[..j] + gen[j + 1..], gen[j];
      SortCorrect(shorter);
      FrontStaysTried(gen, j, marked, shorter, Sort(shorter));
      hide Sorted;
      var a, b := Sort(shorter), [l];
      assert a + b == Sort(shorter) + [l] && forall x | x in b :: x in marked + {l};
    }

    lemma FrontStaysTried(gen: seq<Lit>, j: nat, marked: set<Lit>, shorter: seq<Lit>, t: seq<Lit>)
      requires Tried(gen, j, marked) && j < |gen| && gen[j] !in marked && shorter == gen[..j] + gen[j + 1..]
      requires Sorted(t) && multiset(t) == multiset(shorter)
      ensures |t| == |gen| - 1 && forall m | 0 <= m < j :: t[m] in marked
    {
      assert |multiset(t)| == |multiset(shorter)|;
      assert forall m | 0 <= m < j :: gen[m] in marked && marked != {};
      if marked != {} {
        var a, b :| gen == a + b && Sorted(a) && |b| <= 1 && forall l | l in b :: l in marked;
        assert forall m | |a| <= m < |gen| :: gen[m] in b;
        assert shorter == a[..j] + a[j + 1..] + b;
        forall l | l in a[..j] ensures l in marked {
          var m :| 0 <= m < j && a[m] == l;
          assert gen[m] == l;
        }
        MarkedStayInFront(a, b, j, t, marked);
      }
    }

    lemma TriedOne(gen: seq<Lit>, j: nat, marked: set<Lit>)
      requires Tried(gen, j, marked) && j < |gen| && gen[j] in marked
      ensures Tried(gen, j + 1, marked)
    {
    }

    lemma NoneTried(gen: seq<Lit>)
      ensures Tried(gen, 0, {})
    {
    }

    lemma AllTried(gen: seq<Lit>, marked: set<Lit>)
      requires Tried(gen, |gen|, marked)
      ensures forall l | l in gen :: l in marked
    {
    }

    lemma TriedSorted(gen: seq<Lit>, marked: set<Lit>)
      requires Sorted(gen)
      ensures Tried(gen, 0, marked)
    {
      assert gen == gen + [] && forall l | l in [] :: l in marked;
    }

    /** Neither meets Init nor fails the relative-induction check. */
    method DropSucceeds(i: nat, test: IC3Formula) returns (ok: bool, out: IC3Formula)
      requires Running() && 1 <= i < |frames| && !test.disjunction && test.children != [] && Sorted(test.children)
      ensures ok ==> CubeLearnable(sys, frames, i, out) && |out.children| <= |test.children|
      ensures ok ==> Sorted(out.children) && forall l | l in out.children :: l in test.children
      ensures !ok <==> Refused(i, test)
    {
      ok, out := false, test;
      var meets := CheckIntersectsInitial(test);
      if !meets {
        var threw;
        ok, out, threw := RelIndCheck(i, test, false);
        if ok {
          GeneralizationLearnable(sys, frames, i, test, out);
        }
      }
    }

    lemma CubeChildren(i: nat, c: IC3Formula)
      requires CubeLearnable(sys, frames, i, c)
      ensures CubeLearnable(sys, frames, i, IC3Formula(c.children, false)) && c.children != [] && !c.disjunction
    {
    }

    lemma SameCube(i: nat, a: seq<Lit>, b: seq<Lit>)
      requires CubeLearnable(sys, frames, i, IC3Formula(a, false)) && b != []
      requires forall l :: l in a <==> l in b
      ensures CubeLearnable(sys, frames, i, IC3Formula(b, false))
    {
    }

    /** Pushes a learned clause as far up as relative induction allows, generalizing it on
        the way. */
    method FindHighestFrame(i: nat, u: IC3Formula) returns (j: nat, pushed: IC3Formula)
      requires Running() && Learnable(sys, frames, i, u)
      ensures i <= j < |frames| && Learnable(sys, frames, j, pushed)
      ensures forall s | Sat(pushed, s) :: Sat(u, s)
      ensures j < |frames| - 1 ==> exists e :: Escapes(sys, frames, j, pushed, e)
    {
      var conj := Negate(u);
      LearnableNegation(sys, frames, i, u);
      NegatedImplies(u, conj);
      j := i;
      while j < |frames| - 1
        invariant i <= j < |frames|
        invariant CubeLearnable(sys, frames, j, conj)
        invariant forall s | !Sat(conj, s) :: Sat(u, s)
      {
        var ok, gen, threw := RelIndCheck(j + 1, conj, false);
        if !ok {
          break;
        }
        GeneralizationLearnable(sys, frames, j + 1, conj, gen);
        forall s | !Sat(gen, s) ensures Sat(u, s) {
          if Sat(conj, s) {
            CubeWeakens(conj, gen, s);
          }
        }
        conj := gen;
        j := j + 1;
      }
      LearnableNegation(sys, frames, j, conj);
      pushed := Negate(conj);
      NegatedImplies(conj, pushed);
      LeavesClause(j, j + 1, conj, pushed);
    }

    lemma LeavesClause(k: nat, above: nat, c: IC3Formula, u: IC3Formula)
      requires above == k + 1 && forall s :: Sat(u, s) <==> !Sat(c, s)
      ensures (exists e :: Escapes(sys, frames, k, u, e)) <==> exists e :: Enters(sys, frames, above, c, e)
    {
      forall e ensures Escapes(sys, frames, k, u, e) <==> Enters(sys, frames, above, c, e) {
        hide InFrame;
      }
    }

    lemma NegatedImplies(c: IC3Formula, n: IC3Formula)
      requires n == Negate(c)
      ensures forall s :: Sat(n, s) <==> !Sat(c, s)
    {
      forall s ensures Sat(n, s) <==> !Sat(c, s) {
        NegateExact(c, s);
      }
    }

    // ------------------------------------------------------------ storing clauses

    /** Compacts one frame in place, leaving out the clauses that u subsumes. */
    method RemoveSubsumed(orig: seq<IC3Formula>, u: IC3Formula) returns (fj: seq<IC3Formula>)
      ensures IsPruned(orig, fj, u)
    {
      fj := orig;
      var k, l := 0, 0;
      while l < |fj|
        invariant 0 <= k <= l <= |fj| == |orig|
        invariant forall m | l <= m < |fj| :: fj[m] == orig[m]
        invariant forall c :: c in fj[..k] <==> c in orig[..l] && !Subsumes(u, c)
      {
        ghost var kept := fj[..k];
        var c := fj[l];
        assert orig[..l + 1] == orig[..l] + [c];
        if !Subsumes(u, c) {
          fj := fj[k := c];
          assert fj[..k + 1] == kept + [c];
          k := k + 1;
        }
        l := l + 1;
      }
      assert orig[..l] == orig;
      fj := fj[..k];
    }

    /** The frames below j have lost exactly the clauses that u subsumes. */
    ghost predicate PrunedBelow(before: Frames, now: Frames, j: nat, u: IC3Formula) {
      && |now| == |before|
      && forall m | 0 <= m < |before| :: if 1 <= m < j then IsPruned(before[m], now[m], u) else now[m] == before[m]
    }

    ghost predicate IsPruned(f: seq<IC3Formula>, g: seq<IC3Formula>, u: IC3Formula) {
      forall c :: c in g <==> c in f && !Subsumes(u, c)
    }

    /** Takes the clauses that u subsumes out of the frames up to i. */
    method Prune(i: nat, u: IC3Formula)
      requires i < |frames|
      modifies this`frames
      ensures PrunedBelow(old(frames), frames, i + 1, u)
    {
      var j := 1;
      while j <= i
        invariant 1 <= j <= i + 1 && PrunedBelow(old(frames), frames, j, u)
      {
        var fj := RemoveSubsumed(frames[j], u);
        frames := frames[j := fj];
        j := j + 1;
      }
    }

    /** Adds u at level i, dropping the clauses it subsumes when it is new. */
    method ConstrainFrame(i: nat, u: IC3Formula, isNew: bool)
      requires Running() && Learnable(sys, frames, i, u)
      modifies this`frames, this`asserted
      ensures Running() && |frames| == old(|frames|)
      ensures Strengthened(sys, old(frames), frames, i, u) && Stored(old(frames), frames, i, u, isNew)
      ensures !isNew ==> frames == Append(old(frames), i, u)
    {
      ghost var before := frames;
      if isNew {
        Prune(i, u);
      }
      StoreExact(before, frames, i, u, isNew);
      PruneThenAppend(sys, before, frames, i, u);
      AppendStrengthens(sys, asserted, i, u);
      hide Pruned;
      hide Stored;
      frames := Append(frames, i, u);
      asserted := Append(asserted, i, u);
      StrengthenKeepsInv(sys, before, frames, i, u);
    }

    lemma StoreExact(before: Frames, now: Frames, i: nat, u: IC3Formula, isNew: bool)
      requires 1 <= i < |before| && before[0] == [] && Clauses(before) && u.disjunction && u.children != []
      requires if isNew then PrunedBelow(before, now, i + 1, u) else now == before
      ensures Pruned(before, now, i, u) && now[0] == [] && Clauses(now)
      ensures Stored(before, Append(now, i, u), i, u, isNew)
    {
      forall j | 0 <= j < |before|
        ensures forall c | c in now[j] :: c in before[j]
        ensures forall c | c in before[j] :: c in now[j] || (j <= i && c.disjunction && Subsumes(u, c))
      {
        assert if isNew && 1 <= j <= i then IsPruned(before[j], now[j], u) else now[j] == before[j];
      }
      hide Subsumes;
      var after := Append(now, i, u);
      forall j, c | 0 <= j < |before|
        ensures c in after[j] <==> (j == i && c == u) || (c in before[j] && !(isNew && 1 <= j <= i && Subsumes(u, c)))
      {
        assert if isNew && 1 <= j <= i then IsPruned(before[j], now[j], u) else now[j] == before[j];
        assert c in after[j] <==> (j == i && c == u) || c in now[j];
      }
    }

    // ------------------------------------------------------------ blocking

    /** Generalizes, pushes and stores the clause for a goal that passed its check. */
    method BlockGoal(g: ProofGoal, collateral: IC3Formula) returns (idx: nat, ghost u: IC3Formula)
      requires Running() && 1 <= g.idx < |frames| && !g.target.disjunction
      requires Generalizes(sys, frames, g.idx, g.target, collateral)
      modifies this`frames, this`asserted
      ensures Running() && |frames| == old(|frames|)
      ensures g.idx <= idx < |frames| && Strengthened(sys, old(frames), frames, idx, u)
      ensures Stored(old(frames), frames, idx, u, true)
      ensures idx < |frames| - 1 ==> exists e :: Escapes(sys, old(frames), idx, u, e)
      ensures forall s | Sat(g.target, s) :: !Sat(u, s)
    {
      GeneralizationLearnable(sys, frames, g.idx, g.target, collateral);
      forall s | Sat(g.target, s) ensures Sat(collateral, s) {
        CubeWeakens(g.target, collateral, s);
      }
      var clause;
      if indgen {
        ghost var kept;
        clause, kept := InductiveGeneralization(g.idx, collateral);
      } else {
        clause := Negate(collateral);
        LearnableNegation(sys, frames, g.idx, collateral);
        NegatedImplies(collateral, clause);
      }
      var pushed;
      idx, pushed := FindHighestFrame(g.idx, clause);
      ConstrainFrame(idx, pushed, true);
      u := pushed;
    }

    /** Blocks every bad predecessor of the frontier, or follows one back to Init. It
        terminates: each round shrinks some frame, skips a blocked goal, or descends. */
    method BlockAll() returns (r: BlockResult)
      requires Running()
      modifies this`frames, this`asserted, this`cex
      ensures Running() && |frames| == old(|frames|)
      ensures Size(sys, frames) <= Size(sys, old(frames))
      ensures r.Blocked? ==> forall e | e in sys.trans && InFrame(sys, frames, |frames| - 1, e.0) :: e.2 !in sys.bad
      ensures r.CexFound? ==> Genuine(sys, cex)
      ensures r.Threw? ==> LiftsWithoutInit()
    {
      while true
        invariant Running() && |frames| == old(|frames|)
        invariant Size(sys, frames) <= Size(sys, old(frames))
        decreases Size(sys, frames)
      {
        var reaches, goal, threw := ReachesBad();
        if threw {
          return Threw;
        }
        if !reaches {
          return Blocked;
        }
        r := BlockGoals(goal);
        if !r.Blocked? {
          return;
        }
      }
    }

    /** Queues one bad predecessor of the frontier and blocks it. */
    method BlockGoals(goal: IC3Formula) returns (r: BlockResult)
      requires Running() && IsPredecessor(|frames|, Bad, goal)
      modifies this`frames, this`asserted, this`cex
      ensures Running() && |frames| == old(|frames|)
      ensures Size(sys, frames) <= Size(sys, old(frames))
      ensures r.Blocked? ==> Size(sys, frames) < Size(sys, old(frames))
      ensures r.CexFound? ==> Genuine(sys, cex)
      ensures r.Threw? ==> LiftsWithoutInit()
    {
      var proofGoals := new ProofGoalQueue();
      ghost var first := ProofGoal(goal, |frames| - 1, None);
      FirstGoalOk(first);
      proofGoals.NewProofGoal(goal, |frames| - 1, None);
      assert AllGoalsOk(sys, frames, proofGoals.queue);
      hide GoalOk;
      r := DrainGoals(proofGoals, first);
    }

    /** The inner loop. The first goal is not blocked yet, so the queue cannot run empty before some
        frame has lost a state. */
    method DrainGoals(proofGoals: ProofGoalQueue, ghost first: ProofGoal) returns (r: BlockResult)
      requires Running() && proofGoals.Valid() && AllGoalsOk(sys, frames, proofGoals.queue)
      requires first in proofGoals.queue && !AlreadyBlocked(sys, frames, first)
      modifies this`frames, this`asserted, this`cex, proofGoals
      ensures Running() && |frames| == old(|frames|)
      ensures Size(sys, frames) <= Size(sys, old(frames))
      ensures r.Blocked? ==> Size(sys, frames) < Size(sys, old(frames))
      ensures r.CexFound? ==> Genuine(sys, cex)
      ensures r.Threw? ==> LiftsWithoutInit()
    {
      hide GoalOk;
      hide AllGoalsOk;
      hide FrameInv;
      hide Agree;
      hide WellFormedBits;
      hide AlreadyBlocked;
      hide BlockedCount;
      hide Size;
      hide Genuine;
      while !proofGoals.Empty()
        invariant Running() && |frames| == old(|frames|)
        invariant proofGoals.Valid() && AllGoalsOk(sys, frames, proofGoals.queue)
        invariant Size(sys, frames) < Size(sys, old(frames)) || (frames == old(frames) && first in proofGoals.queue)
        decreases Size(sys, frames), BlockedCount(sys, frames, proofGoals.queue), proofGoals.TopIdx()
      {
        var verdict := ProcessTop(proofGoals);
        if verdict.Some? {
          return verdict.value;
        }
      }
      r := Blocked;
    }

    /** One round of the inner loop; None means that it goes on. Either a frame lost a state, or
        the frames are untouched and the queue moved on without losing an unblocked goal. */
    method ProcessTop(proofGoals: ProofGoalQueue) returns (r: Option<BlockResult>)
      requires Running() && proofGoals.Valid() && !proofGoals.Empty()
      requires AllGoalsOk(sys, frames, proofGoals.queue)
      modifies this`frames, this`asserted, this`cex, proofGoals
      ensures Running() && |frames| == old(|frames|)
      ensures Size(sys, frames) < Size(sys, old(frames)) || frames == old(frames)
      ensures r == Some(CexFound) ==> Genuine(sys, cex)
      ensures r == Some(Threw) ==> LiftsWithoutInit()
      ensures r != Some(Blocked)
      ensures r.None? ==> proofGoals.Valid() && AllGoalsOk(sys, frames, proofGoals.queue)
      ensures r.None? && frames == old(frames) ==>
                forall g | g in old(proofGoals.queue) && !AlreadyBlocked(sys, frames, g) :: g in proofGoals.queue
      ensures r.None? && Size(sys, frames) == Size(sys, old(frames)) ==>
                BlockedCount(sys, frames, proofGoals.queue) < old(BlockedCount(sys, frames, proofGoals.queue))
                || (BlockedCount(sys, frames, proofGoals.queue) == old(BlockedCount(sys, frames, proofGoals.queue))
                    && proofGoals.TopIdx() < old(proofGoals.TopIdx()))
    {
      hide GoalOk;
      hide FrameInv;
      hide Agree;
      hide WellFormedBits;
      hide AlreadyBlocked;
      hide Disjoint;
      hide IsPredecessor;
      hide Generalizes;
      hide Size;
      hide BlockedCount;
      hide Genuine;
      var g := proofGoals.Top();
      ghost var q := proofGoals.queue;
      assert proofGoals.TopIdx() == g.idx;
      GoalShape(g);
      if g.idx == 0 {
        TraceOfGoal(g);
        cex := Trace(g);
        proofGoals.Clear();
        return Some(CexFound);
      }
      var blocked := IsBlocked(g);
      if blocked {
        BlockedCountPop(sys, frames, q, proofGoals.root);
        PopKeeps(q, proofGoals.root);
        proofGoals.Pop();
        return None;
      }
      var ok, collateral, threw := RelIndCheck(g.idx, g.target, true);
      if threw {
        return Some(Threw);
      }
      if ok {
        BlockTop(proofGoals, collateral);
      } else {
        PredecessorOk(g, collateral);
        BlockedCountPush(sys, frames, q, ProofGoal(collateral, g.idx - 1, Some(g)));
        proofGoals.NewProofGoal(collateral, g.idx - 1, Some(g));
        assert proofGoals.queue[|q|].idx == g.idx - 1;
        assert proofGoals.TopIdx() < g.idx;
      }
      r := None;
    }

    /** Blocks the top goal and re-adds it one frame above where its clause now holds. */
    method BlockTop(proofGoals: ProofGoalQueue, collateral: IC3Formula)
      requires Running() && proofGoals.Valid() && !proofGoals.Empty()
      requires AllGoalsOk(sys, frames, proofGoals.queue) && proofGoals.Top().idx >= 1
      requires !AlreadyBlocked(sys, frames, proofGoals.Top())
      requires Generalizes(sys, frames, proofGoals.Top().idx, proofGoals.Top().target, collateral)
      modifies this`frames, this`asserted, proofGoals
      ensures Running() && |frames| == old(|frames|) && Size(sys, frames) < Size(sys, old(frames))
      ensures proofGoals.Valid() && AllGoalsOk(sys, frames, proofGoals.queue)
    {
      hide GoalOk;
      hide FrameInv;
      hide Agree;
      hide AlreadyBlocked;
      var g := proofGoals.Top();
      ghost var before := frames;
      GoalShape(g);
      proofGoals.Pop();
      var idx;
      ghost var u;
      idx, u := BlockGoal(g, collateral);
      GoalsStayOk(before, idx, u, proofGoals.queue);
      BlockingShrinks(before, g, idx, u);
      if idx < |frames| - 1 {
        ReaddedOk(before, g, idx, u);
        proofGoals.NewProofGoal(g.target, idx + 1, g.next);
      }
    }

    lemma GoalShape(g: ProofGoal)
      requires Running() && GoalOk(sys, frames, g)
      ensures !g.target.disjunction && g.target.children != [] && g.idx < |frames|
      ensures g.idx >= 1 ==> Disjoint(sys, frames, 0, g.target) && Disjoint(sys, frames, g.idx - 1, g.target)
    {
    }

    lemma TraceOfGoal(g: ProofGoal)
      requires WellFormedBits(sys) && GoalOk(sys, frames, g) && g.idx == 0
      ensures Genuine(sys, Trace(g))
    {
      var s :| s in sys.init && Sat(g.target, s);
      TraceGenuine(sys, g, s);
    }

    lemma FirstGoalOk(g: ProofGoal)
      requires Running() && g.idx == |frames| - 1 && g.next.None? && IsPredecessor(|frames|, Bad, g.target)
      ensures GoalOk(sys, frames, g) && !AlreadyBlocked(sys, frames, g)
    {
      LeadsOutside(g.idx - 1, g.target, Bad);
    }

    /** A cube that leads to t lies outside any frame whose successor frame excludes t. */
    lemma LeadsOutside(i: nat, c: IC3Formula, t: CexTerm)
      requires Running() && i < |frames| - 1 && LeadsTo(sys, c, t)
      requires forall s: State | InFrame(sys, frames, i + 1, s) :: !Describes(sys, t, s)
      ensures Disjoint(sys, frames, i, c)
    {
      forall s: State | InFrame(sys, frames, i, s) ensures !Sat(c, s) {
        assert forall e | e in sys.trans && e.0 == s :: InFrame(sys, frames, i + 1, e.2);
        assert !HasSuccessorIn(sys, s, t);
      }
    }

    /** The predecessor of a goal at index i >= 1 goes to i - 1, where it is not yet blocked; it
        is disjoint from frame i - 2 because that frame maps into frame i - 1. */
    lemma PredecessorOk(g: ProofGoal, c: IC3Formula)
      requires Running() && GoalOk(sys, frames, g) && g.idx >= 1
      requires IsPredecessor(g.idx, Cube(g.target), c)
      ensures GoalOk(sys, frames, ProofGoal(c, g.idx - 1, Some(g)))
      ensures !AlreadyBlocked(sys, frames, ProofGoal(c, g.idx - 1, Some(g)))
    {
      if g.idx >= 2 {
        LeadsOutside(g.idx - 2, c, Cube(g.target));
      }
    }

    lemma ReaddedOk(before: Frames, g: ProofGoal, idx: nat, u: IC3Formula)
      requires Running() && GoalOk(sys, before, g) && g.idx <= idx < |frames| - 1 && g.idx >= 1
      requires Strengthened(sys, before, frames, idx, u)
      requires forall s | Sat(g.target, s) :: !Sat(u, s)
      ensures GoalOk(sys, frames, ProofGoal(g.target, idx + 1, g.next))
    {
    }

    lemma GoalsStayOk(before: Frames, idx: nat, u: IC3Formula, q: seq<ProofGoal>)
      requires AllGoalsOk(sys, before, q) && Strengthened(sys, before, frames, idx, u)
      ensures AllGoalsOk(sys, frames, q)
    {
    }

    /** A goal that was not blocked before is blocked now, so some frame lost a state. */
    lemma BlockingShrinks(before: Frames, g: ProofGoal, idx: nat, u: IC3Formula)
      requires Strengthened(sys, before, frames, idx, u) && 1 <= g.idx <= idx < |frames|
      requires !AlreadyBlocked(sys, before, g)
      requires forall s | Sat(g.target, s) :: !Sat(u, s)
      ensures Size(sys, frames) < Size(sys, before)
    {
      var s: State :| InFrame(sys, before, g.idx, s) && Sat(g.target, s);
      assert !InFrame(sys, frames, g.idx, s);
      FrameSumShrinks(sys, before, frames, idx, u, |frames| - 1);
    }

    lemma PopKeeps(q: seq<ProofGoal>, r: nat)
      requires r < |q|
      ensures forall g | g in q && g != q[r] :: g in q[..r] + q[r + 1..]
    {
    }

    // ------------------------------------------------------------ propagation

    /** The loop state: positions below k are kept, from k on the frame is as it was, and
        what has been passed over is kept or implied one frame up. */
    ghost predicate Compacting(orig: seq<IC3Formula>, i: nat, k: nat, j: nat)
      reads this
    {
      && i + 1 < |frames|
      && k <= j <= |frames[i]| == |orig|
      && (forall m | k <= m < |orig| :: frames[i][m] == orig[m])
      && (forall c | c in frames[i] :: c in orig)
      && (forall m | 0 <= m < j :: orig[m] in frames[i][..k] || Implied(frames[i + 1], orig[m]))
    }

    lemma ClauseCube(i: nat, c: IC3Formula)
      requires Running() && 1 <= i < |frames| && c in frames[i]
      ensures !Negate(c).disjunction && Negate(c).children != [] && Disjoint(sys, frames, 0, Negate(c))
    {
      NegateExact(c, []);
      forall s | s in sys.init ensures !Sat(Negate(c), s) {
        FramesGrow(sys, frames, 0, i, s);
        assert AllSat(frames[i], s);
        NegateExact(c, s);
      }
    }

    lemma PushedClause(i: nat, c: IC3Formula, gen: IC3Formula)
      requires Running() && 1 <= i < |frames| - 1 && !Negate(c).disjunction
      requires Generalizes(sys, frames, i + 1, Negate(c), gen)
      ensures Learnable(sys, frames, i + 1, Negate(gen))
      ensures forall s | Sat(Negate(gen), s) :: Sat(c, s)
    {
      GeneralizationLearnable(sys, frames, i + 1, Negate(c), gen);
      LearnableNegation(sys, frames, i + 1, gen);
      NegatedImplies(gen, Negate(gen));
      NegatedImplies(c, Negate(c));
      forall s | Sat(Negate(gen), s) ensures Sat(c, s) {
        if !Sat(c, s) {
          CubeWeakens(Negate(c), gen, s);
        }
      }
    }

    /** A clause that cannot be pushed has a successor of frame i outside it; if the two
        frames were equal at the start, frame i has lost that state. */
    lemma KeptLoses(before: Frames, i: nat, above: nat, c: IC3Formula, n: IC3Formula)
      requires Running() && 1 <= i < |frames| - 1 && c in frames[i] && Within(sys, frames, before)
      requires n == Negate(c) && above == i + 1 && exists e :: Enters(sys, frames, above, n, e)
      ensures EqualFrames(sys, before, i) ==> LostState(sys, before, frames, i)
    {
      var e :| Enters(sys, frames, above, n, e);
      assert InFrame(sys, frames, i + 1, e.2);
      NegateExact(c, e.2);
      assert !AllSat(frames[i], e.2);
      assert !InFrame(sys, frames, i, e.2);
    }

    /** Pushes the clauses of frame i that are inductive relative to it, compacting the frame in
        place. If the frames i and i + 1 were equal, it empties frame i unless a state
        was lost from it meanwhile. */
    method Propagate(i: nat) returns (all: bool)
      requires Running() && 1 <= i < |frames| - 1
      modifies this`frames, this`asserted
      ensures Running() && |frames| == old(|frames|)
      ensures all <==> frames[i] == []
      ensures TouchesPair(old(frames), frames, i)
      ensures Within(sys, frames, old(frames))
      ensures !all && EqualFrames(sys, old(frames), i) ==> LostState(sys, old(frames), frames, i)
    {
      hide FrameInv;
      hide Agree;
      hide WellFormedBits;
      hide Within;
      hide LostState;
      hide EqualFrames;
      hide Compacting;
      ghost var orig, before := frames[i], frames;
      var k, j := 0, 0;
      StartCompacting(i);
      while j < |frames[i]|
        invariant Running() && |frames| == |before|
        invariant Compacting(orig, i, k, j) && k <= j <= |frames[i]|
        invariant TouchesPair(before, frames, i) && Within(sys, frames, before)
        invariant k > 0 && EqualFrames(sys, before, i) ==> LostState(sys, before, frames, i)
      {
        var kept := PropagateClause(orig, before, i, k, j);
        if kept {
          k := k + 1;
        }
        j := j + 1;
      }
      Truncate(orig, before, i, k);
      assert TouchesPair(before, frames, i);
      all := frames[i] == [];
    }

    lemma StartCompacting(i: nat)
      requires i + 1 < |frames|
      ensures Compacting(frames[i], i, 0, 0) && Within(sys, frames, frames)
    {
    }

    /** One clause of the loop of propagate. */
    method PropagateClause(ghost orig: seq<IC3Formula>, ghost before: Frames, i: nat, k: nat, j: nat) returns (kept: bool)
      requires Running() && Compacting(orig, i, k, j) && 1 <= i < |frames| - 1 && k <= j < |frames[i]|
      requires Within(sys, frames, before)
      modifies this`frames, this`asserted
      ensures Running() && |frames| == old(|frames|) && |frames[i]| == old(|frames[i]|)
      ensures Compacting(orig, i, if kept then k + 1 else k, j + 1)
      ensures TouchesPair(old(frames), frames, i)
      ensures kept <==> exists e :: Escapes(sys, old(frames), i, old(frames)[i][j], e)
      ensures Within(sys, frames, before)
      ensures LostState(sys, before, old(frames), i) ==> LostState(sys, before, frames, i)
      ensures kept && EqualFrames(sys, before, i) ==> LostState(sys, before, frames, i)
    {
      hide FrameInv;
      hide Agree;
      hide WellFormedBits;
      hide Generalizes;
      hide Enters;
      hide LostState;
      hide EqualFrames;
      hide Disjoint;
      ghost var now := frames;
      var c := frames[i][j];
      ClauseCube(i, c);
      var ok, gen, threw := RelIndCheck(i + 1, Negate(c), false);
      PushableExact(i, i + 1, c, Negate(c), ok, gen);
      if ok {
        PushedClause(i, c, gen);
        PushClause(orig, i, k, j, c, Negate(gen));
      } else {
        KeptLoses(before, i, i + 1, c, Negate(c));
        KeepClause(orig, i, k, j);
      }
      StaysLost(sys, before, now, frames, i);
      kept := !ok;
    }

    lemma PushableExact(i: nat, above: nat, c: IC3Formula, n: IC3Formula, ok: bool, gen: IC3Formula)
      requires n == Negate(c) && !n.disjunction && above == i + 1
      requires if ok then Generalizes(sys, frames, above, n, gen) else exists e :: Enters(sys, frames, above, n, e)
      ensures !ok <==> exists e :: Escapes(sys, frames, i, c, e)
    {
      NegatedImplies(c, n);
      LeavesClause(i, above, n, c);
      if ok {
        forall e ensures !Enters(sys, frames, above, n, e) {
          if Enters(sys, frames, above, n, e) {
            CubeWeakens(n, gen, e.2);
          }
        }
      }
    }

    /** The clause c moves up one frame as u, which may be stronger. */
    method PushClause(ghost orig: seq<IC3Formula>, i: nat, k: nat, j: nat, c: IC3Formula, u: IC3Formula)
      requires Running() && Compacting(orig, i, k, j) && 1 <= i < |frames| - 1 && j < |frames[i]| && c == frames[i][j]
      requires Learnable(sys, frames, i + 1, u) && forall s | Sat(u, s) :: Sat(c, s)
      modifies this`frames, this`asserted
      ensures Running() && |frames| == old(|frames|) && frames[i] == old(frames)[i]
      ensures TouchesPair(old(frames), frames, i)
      ensures Compacting(orig, i, k, j + 1)
      ensures Within(sys, frames, old(frames))
    {
      hide FrameInv;
      hide Agree;
      hide WellFormedBits;
      ghost var now := frames;
      ConstrainFrame(i + 1, u, false);
      assert u in frames[i + 1];
      forall m | 0 <= m <= j ensures orig[m] in frames[i][..k] || Implied(frames[i + 1], orig[m]) {
        if m < j && Implied(now[i + 1], orig[m]) {
          var v :| v in now[i + 1] && forall s | Sat(v, s) :: Sat(orig[m], s);
          assert v in frames[i + 1];
        }
      }
    }

    /** Fi[k++] = c */
    method KeepClause(ghost orig: seq<IC3Formula>, i: nat, k: nat, j: nat)
      requires Running() && Compacting(orig, i, k, j) && j < |frames[i]| && i >= 1
      modifies this`frames
      ensures TouchesPair(old(frames), frames, i)
      ensures Running() && |frames| == old(|frames|) && |frames[i]| == old(|frames[i]|)
      ensures Within(sys, frames, old(frames))
      ensures Compacting(orig, i, k + 1, j + 1)
    {
      hide WellFormedBits;
      hide InFrame;
      ghost var now := frames;
      frames := frames[i := frames[i][k := frames[i][j]]];
      KeptCovers(now, frames, orig, i, k, j);
      DropImplied(sys, now, frames, i);
      SameMeaningKeepsInv(sys, now, frames, asserted);
    }

    lemma KeptCovers(now: Frames, after: Frames, orig: seq<IC3Formula>, i: nat, k: nat, j: nat)
      requires i + 1 < |now| && k <= j < |now[i]| == |orig|
      requires forall m | k <= m < |orig| :: now[i][m] == orig[m]
      requires forall m | 0 <= m < j :: orig[m] in now[i][..k] || Implied(now[i + 1], orig[m])
      requires after == now[i := now[i][k := now[i][j]]]
      ensures forall d | d in now[i] :: d in after[i] || Implied(now[i + 1], d)
      ensures after[i][..k + 1] == now[i][..k] + [orig[j]]
    {
      assert after[i][..k + 1] == now[i][..k] + [orig[j]];
      forall d | d in now[i] ensures d in after[i] || Implied(now[i + 1], d) {
        var m :| 0 <= m < |now[i]| && now[i][m] == d;
        if m != k {
          assert after[i][m] == d;
        } else if k == j {
          assert after[i][k] == d;
        } else if orig[k] in now[i][..k] {
          assert d in after[i][..k + 1];
        }
      }
    }

    /** Fi.resize(k) */
    method Truncate(ghost orig: seq<IC3Formula>, ghost before: Frames, i: nat, k: nat)
      requires Running() && i >= 1 && i + 1 < |frames| && Compacting(orig, i, k, |frames[i]|)
      requires Within(sys, frames, before)
      modifies this`frames
      ensures Running() && |frames| == old(|frames|)
      ensures TouchesPair(old(frames), frames, i)
      ensures Within(sys, frames, before)
      ensures LostState(sys, before, old(frames), i) ==> LostState(sys, before, frames, i)
      ensures |frames[i]| == k
    {
      ghost var now := frames;
      frames := frames[i := frames[i][..k]];
      forall d | d in now[i] ensures d in frames[i] || Implied(now[i + 1], d) {
        var m :| 0 <= m < |orig| && orig[m] == d;
      }
      DropImplied(sys, now, frames, i);
      SameMeaningKeepsInv(sys, now, frames, asserted);
      StaysLost(sys, before, now, frames, i);
    }

    // ------------------------------------------------------------ steps

    /** Between steps. Before the first two checks there are two empty frames; later the
        frontier index is the number of transitions covered, and the frame sizes are
        within budget. */
    ghost predicate Valid()
      reads this
    {
      && WellFormedBits(sys)
      && reachedK >= -1
      && (reachedK >= 0 ==> sys.init !! sys.bad)
      && (if reachedK >= 1 then
            Running() && |frames| == reachedK + 1 && NoneEmptied(frames)
            && 2 * Size(sys, frames) <= IC3Progress.Budget(|States(sys.n)|, reachedK)
          else
            frames == [[], []] && asserted == [[], []])
    }

    constructor (sys: BitSystem, pregen: bool, indgen: bool)
      requires WellFormedBits(sys)
      ensures Valid() && this.sys == sys && reachedK == -1
    {
      this.sys, this.pregen, this.indgen := sys, pregen, indgen;
      frames, asserted, reachedK := [[], []], [[], []], -1;
      cex, invar, failedToReset := [], {}, false;
    }

    /** The two base checks: Init against Bad, and Init against Bad in one step. */
    method Step01() returns (r: ProverResult)
      requires Valid() && reachedK < 1
      modifies this`reachedK, this`cex
      ensures r.Unknown? || (r.False? && Genuine(sys, cex))
      ensures r.Unknown? ==> Valid() && reachedK == 1
      ensures r.False? ==> reachedK < 1
    {
      if reachedK < 0 {
        var r := CheckSat(sys.init * sys.bad);
        if r.Some? {
          cex := [Bad];
          InitialCex(r.value);
          return False;
        }
        assert forall s | s in sys.init && s in sys.bad :: s in sys.init * sys.bad;
        reachedK := 0;
      }
      var models := set e | e in sys.trans && e.0 in sys.init && e.2 in sys.bad;
      assert forall e | e in sys.trans && e.0 in sys.init && e.2 in sys.bad :: e in models;
      var m := CheckSat(models);
      if m.Some? {
        var e := m.value;
        var g := ProofGoal(Conjunction(ModelLits(e.0)), 0, None);
        OneStepChain(e, g);
        cex := Trace(g);
        return False;
      }
      BaseFrames();
      reachedK := 1;
      r := Unknown;
    }

    lemma InitialCex(s: State)
      requires WellFormedBits(sys) && s in sys.init && s in sys.bad
      ensures Genuine(sys, [Bad])
    {
      StatesExact(sys.n, s);
      assert Follows(sys, [s], [Bad]) && IsCex(sys.Ts(), [s]);
    }

    lemma OneStepChain(e: Step, g: ProofGoal)
      requires WellFormedBits(sys) && e in sys.trans && e.0 in sys.init && e.2 in sys.bad
      requires g == ProofGoal(Conjunction(ModelLits(e.0)), 0, None)
      ensures Genuine(sys, Trace(g))
    {
      forall s: State | |s| == sys.n ensures Sat(g.target, s) <==> s == e.0 {
        ModelLitsExact(e.0, s);
      }
      assert HasSuccessorIn(sys, e.0, Bad);
      TraceGenuine(sys, g, e.0);
    }

    lemma BaseFrames()
      requires WellFormedBits(sys) && sys.init !! sys.bad && frames == [[], []] && asserted == frames
      requires forall e | e in sys.trans && e.0 in sys.init :: e.2 !in sys.bad
      ensures FrameInv(sys, frames) && Agree(sys, frames, asserted)
      ensures 2 * Size(sys, frames) <= IC3Progress.Budget(|States(sys.n)|, 1)
    {
      FixedPoint.SmallerThan(FrameSet(sys, frames, 1), States(sys.n));
      assert Size(sys, frames) == FrameSum(sys, frames, 0) + |FrameSet(sys, frames, 1)|;
    }

    /** Blocks, opens a frame, propagates. A proof is the frame above an emptied one. */
    method Step(i: int) returns (r: Outcome)
      requires Valid() && i <= reachedK + 1
      modifies this
      ensures r == Verdict(True) ==> Invariant(sys.Ts(), invar)
      ensures r == Verdict(False) ==> Genuine(sys, cex)
      ensures r == EmptyCore ==> LiftsWithoutInit()
      ensures r == Verdict(Unknown) ==> Valid() && reachedK >= i
      ensures r == Verdict(Unknown) ==>
                reachedK == if i <= old(reachedK) then old(reachedK) else if old(reachedK) < 1 then 1 else old(reachedK) + 1
    {
      if i <= reachedK {
        return Verdict(Unknown);
      }
      if reachedK < 1 {
        var base := Step01();
        return Verdict(base);
      }
      var blocked := BlockAll();
      match blocked
      case CexFound =>
        return Verdict(False);
      case Threw =>
        return EmptyCore;
      case Blocked =>
        var proved := PushAndPropagate();
        if proved {
          return Verdict(True);
        }
        ResetSolver();
        reachedK := reachedK + 1;
        r := Verdict(Unknown);
    }

    /** push_frame and the propagation loop after a successful blocking phase. */
    method PushAndPropagate() returns (proved: bool)
      requires Running()
      requires forall e | e in sys.trans && InFrame(sys, frames, |frames| - 1, e.0) :: e.2 !in sys.bad
      requires 2 * Size(sys, frames) <= IC3Progress.Budget(|States(sys.n)|, |frames| - 1)
      modifies this`frames, this`asserted, this`invar
      ensures proved ==> Invariant(sys.Ts(), invar)
      ensures !proved ==> Running() && |frames| == old(|frames|) + 1 && NoneEmptied(frames)
      ensures !proved ==> 2 * Size(sys, frames) <= IC3Progress.Budget(|States(sys.n)|, |frames| - 1)
    {
      hide FrameInv;
      hide Agree;
      hide WellFormedBits;
      hide Size;
      hide IC3Progress.Budget;
      hide LostState;
      hide EqualFrames;
      hide InFrame;
      ghost var blocked := frames;
      BlockedLength();
      PushFrameKeepsInv(sys, frames, asserted);
      frames, asserted := frames + [[]], asserted + [[]];
      ghost var pushed := frames;
      var j := 1;
      while j < |frames| - 1
        invariant Running() && |frames| == |pushed| && 1 <= j <= |frames| - 1
        invariant Within(sys, frames, pushed)
        invariant forall m | 1 <= m < j :: frames[m] != []
        invariant forall m | 1 <= m < j && EqualFrames(sys, pushed, m) :: LostState(sys, pushed, frames, m)
      {
        ghost var now := frames;
        var all := Propagate(j);
        if all {
          EmptyFrameProves(sys, frames, j);
          invar := FrameSet(sys, frames, j + 1);
          return true;
        }
        PhaseStep(pushed, now, frames, j);
        j := j + 1;
      }
      IC3Progress.PhaseSpends(sys, blocked, pushed, frames);
      proved := false;
    }

    lemma BlockedLength()
      requires Running()
      ensures |frames| >= 2
    {
    }

    /** Lost states stay lost, and a pair that was equal at the start of the phase has lost one
        by the time its lower frame has been propagated. */
    lemma PhaseStep(pushed: Frames, now: Frames, after: Frames, j: nat)
      requires Within(sys, now, pushed) && Within(sys, after, now) && j >= 1
      requires EqualFrames(sys, now, j) ==> LostState(sys, now, after, j)
      requires forall m | 1 <= m < j && EqualFrames(sys, pushed, m) :: LostState(sys, pushed, now, m)
      ensures Within(sys, after, pushed)
      ensures forall m | 1 <= m <= j && EqualFrames(sys, pushed, m) :: LostState(sys, pushed, after, m)
    {
    }

    /** Rebuilds the label assertions from the stored frames, if the solver supports it. */
    method ResetSolver()
      requires Running()
      modifies this`asserted, this`failedToReset
      ensures Running()
    {
      if failedToReset {
        return;
      }
      if * {
        asserted := frames;
      } else {
        failedToReset := true;
      }
    }

    /** True: the returned set is an inductive invariant. False: cex_ describes a real run from
        Init to Bad. Unknown is impossible once k passes four times the number of states.
        The run always ends; it is cut short only on a system without initial states. */
    method CheckUntil(k: int) returns (r: Outcome)
      requires Valid()
      modifies this
      ensures r == Verdict(True) ==> Invariant(sys.Ts(), invar) && Safe(sys.Ts())
      ensures r == Verdict(False) ==> Genuine(sys, cex) && !Safe(sys.Ts())
      ensures r == EmptyCore ==> LiftsWithoutInit()
      ensures r == Verdict(Unknown) ==> NoCexUpTo(sys.Ts(), k)
      ensures r == Verdict(Unknown) ==> k <= 4 * |States(sys.n)|
      ensures r == Verdict(Unknown) ==> Valid() && reachedK == if k <= old(reachedK) then old(reachedK) else if k < 1 then 1 else k
      ensures r == Verdict(Unknown) && reachedK >= 1 ==>
                |frames| == reachedK + 1 && forall j | 1 <= j < reachedK :: frames[j] != []
    {
      var i := reachedK + 1;
      while i <= k
        invariant Valid() && old(reachedK) <= reachedK && old(reachedK) + 1 <= i <= reachedK + 1
        invariant reachedK == if i - 1 <= old(reachedK) then old(reachedK) else if i - 1 < 1 then 1 else i - 1
        invariant i - 1 <= k || reachedK == old(reachedK)
        decreases k - i
      {
        r := Step(i);
        if r != Verdict(Unknown) {
          if r == Verdict(True) {
            InvariantProves(sys.Ts(), invar);
          }
          return;
        }
        i := i + 1;
      }
      r := Verdict(Unknown);
      IC3Progress.StatesNonEmpty(sys.n);
      if reachedK > 4 * |States(sys.n)| {
        IC3Progress.BudgetBound(|States(sys.n)|, reachedK);
        assert false;
      }
      CoveredBound();
    }

    /** The frames rule out every counterexample they are long enough for. */
    lemma CoveredBound()
      requires Valid()
      ensures NoCexUpTo(sys.Ts(), reachedK)
    {
      if reachedK == 0 {
        TsWellFormed(sys);
      } else if reachedK > 0 {
        var fs := frames;
        var f := seq(|fs|, i requires 0 <= i < |fs| => FrameSet(sys, fs, i));
        FramesForward(f);
        FixedPoint.ForwardRulesOut(sys.Ts(), f);
      }
    }

    lemma FramesForward(f: seq<set<State>>)
      requires Running() && |f| == |frames| && forall i | 0 <= i < |f| :: f[i] == FrameSet(sys, frames, i)
      ensures FixedPoint.Forward(sys.Ts(), f) && FixedPoint.Avoids(f, sys.bad)
    {
      TsWellFormed(sys);
      forall i: nat, s: State ensures s in FrameSet(sys, frames, i) <==> InFrame(sys, frames, i, s) {
        FrameSetExact(sys, frames, i, s);
      }
      forall s: State ensures s in States(sys.n) <==> |s| == sys.n {
        StatesExact(sys.n, s);
      }
      forall i, j | 0 <= i < |f| && j == i + 1 < |f| ensures Maps(sys.Ts(), f[i], f[j]) {
        FrameMaps(i);
      }
      forall s | s in sys.init ensures s !in sys.bad {
        assert InFrame(sys, frames, 1, s);
      }
    }

    lemma FrameMaps(i: nat)
      requires Running() && i + 1 < |frames|
      ensures Maps(sys.Ts(), FrameSet(sys, frames, i), FrameSet(sys, frames, i + 1))
    {
      forall e | e in sys.Ts().trans && e.0 in FrameSet(sys, frames, i)
        ensures e.1 in FrameSet(sys, frames, i + 1)
      {
        var d :| d in sys.trans && e == (d.0, d.2);
        FrameSetExact(sys, frames, i, d.0);
        FrameSetExact(sys, frames, i + 1, d.2);
        assert InFrame(sys, frames, i + 1, d.2);
      }
    }
  }
}
