/** Implicit predicate abstraction: the next-state variables in T are renamed, and a predicate
    is a demand that the renamed and the real next state agree on it. */
module PredicateAbstraction {
  import opened Terms
  import opened TransitionSystems

  type State = Name -> Value

  /** The concrete system; Boolean variables are kept precise. */
  datatype Concrete = Concrete(statevars: set<Name>, boolvars: set<Name>, inputvars: set<Name>, init: Term, trans: Term, bad: Term)

  ghost predicate ConcreteScope(c: Concrete, x: Symbol) {
    match x
    case Curr(v) => v in c.statevars
    case Next(v) => v in c.statevars
    case Input(v) => v in c.inputvars && !v.HatOf?
    case Timed(_, _) => false
  }

  ghost predicate WellScoped(c: Concrete) {
    && c.boolvars <= c.statevars
    && (forall x | x in Symbols(c.trans) :: ConcreteScope(c, x))
    && OverStates(c, c.init) && OverStates(c, c.bad)
  }

  ghost predicate OverStates(c: Concrete, t: Term) {
    Symbols(t) <= CurrSymbols(c.statevars)
  }

  // ---------------------------------------------------------------- steps

  /** From s under inputs i to t, with h for the renamed next-state variables. */
  function StepOf(s: State, i: State, t: State, h: State, fun: Functions): Model {
    Model((x: Symbol) => match x
          case Curr(v) => s(v)
          case Next(v) => t(v)
          case Input(v) => if v.HatOf? then h(v.v) else i(v)
          case Timed(_, _) => B(false), fun)
  }

  function StateModel(s: State, fun: Functions): Model {
    StepOf(s, s, s, s, fun)
  }

  ghost predicate In(t: Term, s: State, fun: Functions) {
    Truth(t, StateModel(s, fun))
  }

  ghost predicate ConcStep(c: Concrete, s: State, i: State, t: State, fun: Functions) {
    Truth(c.trans, StepOf(s, i, t, t, fun))
  }

  /** The next state that the renamed transition relation speaks of. */
  function Merge(c: Concrete, t: State, h: State): State {
    (v: Name) => if v in c.boolvars then t(v) else h(v)
  }

  /** t and r agree on every predicate. */
  ghost predicate SamePredicates(preds: set<Term>, t: State, r: State, fun: Functions) {
    forall p | p in preds :: Eval(p, StateModel(t, fun)) == Eval(p, StateModel(r, fun))
  }

  /** The abstract step: a concrete one, up to the predicates. */
  ghost predicate AbsStep(c: Concrete, preds: set<Term>, s: State, i: State, t: State, h: State, fun: Functions) {
    ConcStep(c, s, i, Merge(c, t, h), fun) && SamePredicates(preds, t, Merge(c, t, h), fun)
  }

  // ---------------------------------------------------------------- the terms

  /** Each next-state variable that is not Boolean, and its stand-in. */
  function FullCache(c: Concrete): Substitution {
    map x | x in NextSymbols(c.statevars - c.boolvars) :: Sym(Input(HatOf(x.v)))
  }

  function NextSymbols(vs: set<Name>): (r: set<Symbol>)
    ensures forall x | x in r :: x.Next?
  {
    set v | v in vs :: Next(v)
  }

  /** pred(X') <-> pred(X^) */
  function PredicateRefinement(p: Term, cache: Substitution): Term {
    MkEqual(Prime(p), Subst(Prime(p), cache))
  }

  ghost predicate IsPredicate(c: Concrete, p: Term) {
    OverStates(c, p) && (p.Sym? ==> p.x.v in c.boolvars)
  }

  /** The abstract transition relation for a set of predicates. */
  ghost predicate IsAbstraction(c: Concrete, cache: Substitution, trans: Term, preds: set<Term>) {
    forall m: Model :: Truth(trans, m) <==>
                       Truth(Subst(c.trans, cache), m) && forall p | p in preds && !p.Sym? :: Truth(PredicateRefinement(p, cache), m)
  }

  /** Renaming the next state evaluates the term in the merged next state. */
  lemma RenamedMeans(c: Concrete, t: Term, s: State, i: State, r: State, h: State, fun: Functions)
    requires c.boolvars <= c.statevars && forall x | x in Symbols(t) :: ConcreteScope(c, x)
    ensures Eval(Subst(t, FullCache(c)), StepOf(s, i, r, h, fun)) == Eval(t, StepOf(s, i, Merge(c, r, h), Merge(c, r, h), fun))
  {
    var m, k := StepOf(s, i, r, h, fun), StepOf(s, i, Merge(c, r, h), Merge(c, r, h), fun);
    forall x | x in Symbols(t) ensures k.sym(x) == Replaced(FullCache(c), m, x) {
      assert ConcreteScope(c, x);
    }
    SubstEval(t, FullCache(c), m, k);
  }

  /** The primed copy of a state term speaks of the next state alone. */
  lemma PrimedMeans(c: Concrete, p: Term, s: State, i: State, r: State, h: State, fun: Functions)
    requires OverStates(c, p)
    ensures Eval(Prime(p), StepOf(s, i, r, h, fun)) == Eval(p, StateModel(r, fun))
    ensures forall x | x in Symbols(Prime(p)) :: x.Next? && x.v in c.statevars
  {
    var sub := map x | x in Symbols(p) && x.Curr? :: Sym(Next(x.v));
    SubstEval(p, sub, StepOf(s, i, r, h, fun), StateModel(r, fun));
    PrimedSymbols(p, sub);
  }

  lemma {:induction false} PrimedSymbols(p: Term, sub: Substitution)
    requires forall x | x in Symbols(p) :: x.Curr? && x in sub && sub[x] == Sym(Next(x.v))
    ensures forall y | y in Symbols(Subst(p, sub)) :: y.Next? && Curr(y.v) in Symbols(p)
    decreases p, 1
  {
    if p.App? {
      PrimedAllSymbols(p.args, sub);
    }
  }

  lemma {:induction false} PrimedAllSymbols(ts: seq<Term>, sub: Substitution)
    requires forall x | x in SymbolsAll(ts) :: x.Curr? && x in sub && sub[x] == Sym(Next(x.v))
    ensures forall y | y in SymbolsAll(SubstAll(ts, sub)) :: y.Next? && Curr(y.v) in SymbolsAll(ts)
    decreases ts, 0
  {
    if ts != [] {
      PrimedSymbols(ts[0], sub);
      PrimedAllSymbols(ts[1..], sub);
      assert SubstAll(ts, sub)[1..] == SubstAll(ts[1..], sub);
    }
  }

  lemma RefinementMeans(c: Concrete, p: Term, s: State, i: State, t: State, h: State, fun: Functions)
    requires c.boolvars <= c.statevars && OverStates(c, p)
    ensures Truth(PredicateRefinement(p, FullCache(c)), StepOf(s, i, t, h, fun)) <==>
            Eval(p, StateModel(t, fun)) == Eval(p, StateModel(Merge(c, t, h), fun))
  {
    var r := Merge(c, t, h);
    PrimedMeans(c, p, s, i, t, h, fun);
    PrimedMeans(c, p, s, i, r, r, fun);
    RenamedMeans(c, Prime(p), s, i, t, h, fun);
    TruthEqual(Prime(p), Subst(Prime(p), FullCache(c)), StepOf(s, i, t, h, fun));
  }

  /** The abstract transition relation means exactly this: a concrete step whose target agrees with
      the abstract target on the predicates and on the Boolean variables. */
  lemma AbstractionExact(c: Concrete, trans: Term, preds: set<Term>, s: State, i: State, t: State, h: State, fun: Functions)
    requires WellScoped(c) && IsAbstraction(c, FullCache(c), trans, preds)
    requires forall p | p in preds :: IsPredicate(c, p)
    ensures Truth(trans, StepOf(s, i, t, h, fun)) <==> AbsStep(c, preds, s, i, t, h, fun)
  {
    var r := Merge(c, t, h);
    RenamedMeans(c, c.trans, s, i, t, h, fun);
    forall p | p in preds && !p.Sym?
      ensures Truth(PredicateRefinement(p, FullCache(c)), StepOf(s, i, t, h, fun)) <==> Eval(p, StateModel(t, fun)) == Eval(p, StateModel(r, fun))
    {
      RefinementMeans(c, p, s, i, t, h, fun);
    }
    forall p | p in preds && p.Sym? ensures Eval(p, StateModel(t, fun)) == Eval(p, StateModel(r, fun)) {
      assert p.x in Symbols(p);
    }
  }

  // ---------------------------------------------------------------- what the abstraction keeps

  /** t and r agree on the predicates and on the Boolean variables. */
  ghost predicate Alike(c: Concrete, preds: set<Term>, t: State, r: State, fun: Functions) {
    (forall v | v in c.boolvars :: t(v) == r(v)) && SamePredicates(preds, t, r, fun)
  }

  /** Only the values of the system's own variables matter to a predicate. */
  lemma SameOnStates(c: Concrete, p: Term, t: State, r: State, fun: Functions)
    requires OverStates(c, p) && forall v | v in c.statevars :: t(v) == r(v)
    ensures Eval(p, StateModel(t, fun)) == Eval(p, StateModel(r, fun))
  {
    EvalAgree(p, StateModel(t, fun), StateModel(r, fun));
  }

  lemma SameStep(c: Concrete, s: State, i: State, t: State, r: State, fun: Functions)
    requires WellScoped(c) && forall v | v in c.statevars :: t(v) == r(v)
    ensures ConcStep(c, s, i, t, fun) <==> ConcStep(c, s, i, r, fun)
  {
    forall x | x in Symbols(c.trans) ensures StepOf(s, i, t, t, fun).sym(x) == StepOf(s, i, r, r, fun).sym(x) {
      assert ConcreteScope(c, x);
    }
    EvalAgree(c.trans, StepOf(s, i, t, t, fun), StepOf(s, i, r, r, fun));
  }

  /** Abstract successors are what is alike to concrete ones: the abstraction is as precise as the
      predicates allow, and every concrete step is an abstract one. */
  lemma AbstractSuccessors(c: Concrete, preds: set<Term>, s: State, i: State, t: State, fun: Functions)
    requires WellScoped(c) && forall p | p in preds :: IsPredicate(c, p)
    ensures (exists h: State :: AbsStep(c, preds, s, i, t, h, fun)) <==>
            (exists r: State :: ConcStep(c, s, i, r, fun) && Alike(c, preds, t, r, fun))
    ensures ConcStep(c, s, i, t, fun) ==> AbsStep(c, preds, s, i, t, t, fun)
  {
    if h: State :| AbsStep(c, preds, s, i, t, h, fun) {
      assert Alike(c, preds, t, Merge(c, t, h), fun);
    }
    if r: State :| ConcStep(c, s, i, r, fun) && Alike(c, preds, t, r, fun) {
      SameStep(c, s, i, r, Merge(c, t, r), fun);
      forall p | p in preds ensures Eval(p, StateModel(t, fun)) == Eval(p, StateModel(Merge(c, t, r), fun)) {
        SameOnStates(c, p, r, Merge(c, t, r), fun);
      }
      assert AbsStep(c, preds, s, i, t, r, fun);
    }
    if ConcStep(c, s, i, t, fun) {
      SameStep(c, s, i, t, Merge(c, t, t), fun);
      forall p | p in preds ensures Eval(p, StateModel(t, fun)) == Eval(p, StateModel(Merge(c, t, t), fun)) {
        SameOnStates(c, p, t, Merge(c, t, t), fun);
      }
    }
  }

  /** A combination of predicates. */
  ghost predicate BuiltFrom(t: Term, preds: set<Term>)
    decreases t
  {
    t in preds || t.Val? || (t.App? && forall a | a in t.args :: BuiltFrom(a, preds))
  }

  lemma {:induction false} BuiltFromSame(t: Term, preds: set<Term>, s: State, r: State, fun: Functions)
    requires BuiltFrom(t, preds) && SamePredicates(preds, s, r, fun)
    ensures Eval(t, StateModel(s, fun)) == Eval(t, StateModel(r, fun))
  {
    if t !in preds && t.App? {
      forall k | 0 <= k < |t.args| ensures Eval(t.args[k], StateModel(s, fun)) == Eval(t.args[k], StateModel(r, fun)) {
        assert t.args[k] in t.args;
        BuiltFromSame(t.args[k], preds, s, r, fun);
      }
      assert EvalAll(t.args, StateModel(s, fun)) == EvalAll(t.args, StateModel(r, fun));
    }
  }

  ghost predicate ConcInductive(c: Concrete, a: Term, b: Term, fun: Functions) {
    forall s: State, i: State, t: State | In(a, s, fun) && ConcStep(c, s, i, t, fun) :: In(b, t, fun)
  }

  ghost predicate AbsInductive(c: Concrete, preds: set<Term>, a: Term, b: Term, fun: Functions) {
    forall s: State, i: State, t: State, h: State | In(a, s, fun) && AbsStep(c, preds, s, i, t, h, fun) :: In(b, t, fun)
  }

  /** For a formula b over the predicates, a /\ T => b' holds abstractly if and only if it holds
      concretely; for any other b the abstract claim still implies the concrete one. */
  lemma InductiveExact(c: Concrete, preds: set<Term>, a: Term, b: Term, fun: Functions)
    requires WellScoped(c) && forall p | p in preds :: IsPredicate(c, p)
    ensures AbsInductive(c, preds, a, b, fun) ==> ConcInductive(c, a, b, fun)
    ensures BuiltFrom(b, preds) ==> (AbsInductive(c, preds, a, b, fun) <==> ConcInductive(c, a, b, fun))
  {
    if AbsInductive(c, preds, a, b, fun) {
      forall s: State, i: State, t: State | In(a, s, fun) && ConcStep(c, s, i, t, fun) ensures In(b, t, fun) {
        AbstractSuccessors(c, preds, s, i, t, fun);
      }
    }
    if BuiltFrom(b, preds) && ConcInductive(c, a, b, fun) {
      forall s: State, i: State, t: State, h: State | In(a, s, fun) && AbsStep(c, preds, s, i, t, h, fun) ensures In(b, t, fun) {
        BuiltFromSame(b, preds, t, Merge(c, t, h), fun);
      }
    }
  }

  // ---------------------------------------------------------------- safety

  ghost predicate ConcStepAt(c: Concrete, states: seq<State>, inputs: seq<State>, j: int, fun: Functions)
    requires 0 <= j < |inputs| && |states| == |inputs| + 1
  {
    ConcStep(c, states[j], inputs[j], states[j + 1], fun)
  }

  ghost predicate ConcRun(c: Concrete, states: seq<State>, inputs: seq<State>, fun: Functions) {
    && |states| == |inputs| + 1
    && forall j {:trigger ConcStepAt(c, states, inputs, j, fun)} | 0 <= j < |inputs| :: ConcStepAt(c, states, inputs, j, fun)
  }

  /** A concrete run from Init to Bad. */
  ghost predicate ConcCex(c: Concrete, states: seq<State>, inputs: seq<State>, fun: Functions) {
    ConcRun(c, states, inputs, fun) && In(c.init, states[0], fun) && In(c.bad, states[|inputs|], fun)
  }

  /** A formula over states means the same in a state and in a step from it. */
  lemma SameNowState(c: Concrete, p: Term, s: State, i: State, t: State, h: State, fun: Functions)
    requires OverStates(c, p)
    ensures Truth(p, StepOf(s, i, t, h, fun)) <==> In(p, s, fun)
  {
    EvalAgree(p, StepOf(s, i, t, h, fun), StateModel(s, fun));
  }

  /** inv /\ T => inv' for the abstract transition term. */
  ghost predicate TermInductive(trans: Term, inv: Term) {
    forall m: Model | Truth(inv, m) && Truth(trans, m) :: Truth(Prime(inv), m)
  }

  lemma {:induction false} RunStaysIn(c: Concrete, inv: Term, states: seq<State>, inputs: seq<State>, fun: Functions, j: nat)
    requires ConcInductive(c, inv, inv, fun) && ConcRun(c, states, inputs, fun) && In(inv, states[0], fun) && j <= |inputs|
    ensures In(inv, states[j], fun)
  {
    if j > 0 {
      RunStaysIn(c, inv, states, inputs, fun, j - 1);
      assert ConcStepAt(c, states, inputs, j - 1, fun);
    }
  }

  lemma TermInductiveIsConcrete(c: Concrete, trans: Term, preds: set<Term>, inv: Term, fun: Functions)
    requires WellScoped(c) && IsAbstraction(c, FullCache(c), trans, preds) && forall p | p in preds :: IsPredicate(c, p)
    requires OverStates(c, inv) && TermInductive(trans, inv)
    ensures ConcInductive(c, inv, inv, fun)
  {
    forall s: State, i: State, t: State | In(inv, s, fun) && ConcStep(c, s, i, t, fun) ensures In(inv, t, fun) {
      AbstractSuccessors(c, preds, s, i, t, fun);
      AbstractionExact(c, trans, preds, s, i, t, t, fun);
      SameNowState(c, inv, s, i, t, t, fun);
      PrimedMeans(c, inv, s, i, t, t, fun);
      assert Truth(Prime(inv), StepOf(s, i, t, t, fun));
    }
  }

  /** TRUE is sound: a formula that contains Init, is closed under the abstract T and excludes Bad
      rules out every concrete run from Init to Bad, for any set of predicates. */
  lemma AbstractInvariantProves(c: Concrete, trans: Term, preds: set<Term>, inv: Term, fun: Functions)
    requires WellScoped(c) && IsAbstraction(c, FullCache(c), trans, preds) && forall p | p in preds :: IsPredicate(c, p)
    requires OverStates(c, inv) && TermInductive(trans, inv)
    requires forall s: State | In(c.init, s, fun) :: In(inv, s, fun)
    requires forall s: State | In(inv, s, fun) :: !In(c.bad, s, fun)
    ensures forall states, inputs :: !ConcCex(c, states, inputs, fun)
  {
    TermInductiveIsConcrete(c, trans, preds, inv, fun);
    forall states, inputs ensures !ConcCex(c, states, inputs, fun) {
      if ConcCex(c, states, inputs, fun) {
        RunStaysIn(c, inv, states, inputs, fun, |inputs|);
      }
    }
  }

  // ---------------------------------------------------------------- refinement

  /** An abstract run whose j-th state satisfies the j-th formula. */
  datatype AbsRun = AbsRun(states: seq<State>, inputs: seq<State>, hats: seq<State>)

  ghost predicate AbsStepAt(c: Concrete, preds: set<Term>, r: AbsRun, j: int, fun: Functions)
    requires 0 <= j < |r.states| - 1 && |r.inputs| == |r.hats| == |r.states| - 1
  {
    AbsStep(c, preds, r.states[j], r.inputs[j], r.states[j + 1], r.hats[j], fun)
  }

  ghost predicate IsAbsRun(c: Concrete, preds: set<Term>, r: AbsRun, fun: Functions) {
    && |r.states| > 0 && |r.inputs| == |r.hats| == |r.states| - 1
    && forall j {:trigger AbsStepAt(c, preds, r, j, fun)} | 0 <= j < |r.states| - 1 :: AbsStepAt(c, preds, r, j, fun)
  }

  ghost predicate Follows(c: Concrete, preds: set<Term>, formulas: seq<Term>, r: AbsRun, fun: Functions) {
    && |r.states| == |formulas| && IsAbsRun(c, preds, r, fun)
    && forall j | 0 <= j < |formulas| :: In(formulas[j], r.states[j], fun)
  }

  /** What get_sequence_interpolants promises for formulas[0](0) /\ T(0), ..., formulas[n](n). */
  ghost predicate Interpolates(c: Concrete, formulas: seq<Term>, itp: seq<Term>, fun: Functions) {
    && |formulas| == |itp| + 1 >= 2
    && ConcInductive(c, formulas[0], itp[0], fun)
    && (forall j | 1 <= j < |itp| :: ConcInductive(c, MkAnd(itp[j - 1], formulas[j]), itp[j], fun))
    && forall s: State :: !(In(itp[|itp| - 1], s, fun) && In(formulas[|itp|], s, fun))
  }

  lemma {:induction false} InterpolantReached(c: Concrete, preds: set<Term>, formulas: seq<Term>, itp: seq<Term>, r: AbsRun, fun: Functions, j: nat)
    requires WellScoped(c) && forall p | p in preds :: IsPredicate(c, p)
    requires Interpolates(c, formulas, itp, fun) && forall k | 0 <= k < |itp| :: BuiltFrom(itp[k], preds)
    requires Follows(c, preds, formulas, r, fun) && j < |itp|
    ensures In(itp[j], r.states[j + 1], fun)
  {
    assert AbsStepAt(c, preds, r, j, fun);
    if j == 0 {
      InductiveExact(c, preds, formulas[0], itp[0], fun);
    } else {
      InterpolantReached(c, preds, formulas, itp, r, fun, j - 1);
      InductiveExact(c, preds, MkAnd(itp[j - 1], formulas[j]), itp[j], fun);
      TruthAnd(itp[j - 1], formulas[j], StateModel(r.states[j], fun));
    }
  }

  /** Once the predicates of the interpolants are in, no abstract run follows the formulas. */
  lemma InterpolantsExclude(c: Concrete, preds: set<Term>, formulas: seq<Term>, itp: seq<Term>, fun: Functions)
    requires WellScoped(c) && forall p | p in preds :: IsPredicate(c, p)
    requires Interpolates(c, formulas, itp, fun) && forall k | 0 <= k < |itp| :: BuiltFrom(itp[k], preds)
    ensures forall r: AbsRun :: !Follows(c, preds, formulas, r, fun)
  {
    forall r: AbsRun ensures !Follows(c, preds, formulas, r, fun) {
      if Follows(c, preds, formulas, r, fun) {
        InterpolantReached(c, preds, formulas, itp, r, fun, |itp| - 1);
      }
    }
  }

  /** More predicates leave fewer runs. */
  lemma FewerRuns(c: Concrete, preds: set<Term>, more: set<Term>, formulas: seq<Term>, r: AbsRun, fun: Functions)
    requires preds <= more && Follows(c, more, formulas, r, fun)
    ensures Follows(c, preds, formulas, r, fun)
  {
    forall j | 0 <= j < |r.states| - 1 ensures AbsStepAt(c, preds, r, j, fun) {
      assert AbsStepAt(c, more, r, j, fun);
    }
  }
}
