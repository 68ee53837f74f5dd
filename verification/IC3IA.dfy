/** IC3 via implicit abstraction: the abstract system grows by one conjunct for each
    predicate, and a spurious counterexample is excluded by the predicates of its interpolants. */
module IC3IA {
  import opened Terms
  import opened TransitionSystems
  import opened PredicateAbstraction
  import opened Solver

  datatype RefineResult = RefineNone | RefineSuccess | RefineFail

  /** The formulas of the refinement query: the counterexample itself, or Init, then not Bad, then
      Bad. */
  function RefineFormulas(c: Concrete, cex: seq<Term>, simCex: bool): (r: seq<Term>)
    ensures |r| == |cex|
  {
    if simCex then cex
    else seq(|cex|, i requires 0 <= i < |cex| => if i == 0 then c.init else if i + 1 == |cex| then c.bad else MkNot(c.bad))
  }

  /** A concrete run through the formulas. */
  ghost predicate ConcFollows(c: Concrete, formulas: seq<Term>, states: seq<State>, inputs: seq<State>, fun: Functions) {
    && |states| == |formulas| > 0 && |inputs| == |states| - 1
    && (forall j | 0 <= j < |formulas| :: In(formulas[j], states[j], fun))
    && ConcRun(c, states, inputs, fun)
  }

  /** All states of a cube agree on the predicates. */
  ghost predicate IsFullCube(cube: Term, preds: set<Term>, fun: Functions) {
    forall s: State, r: State | In(cube, s, fun) && In(cube, r, fun) :: SamePredicates(preds, s, r, fun)
  }

  /** When the predicates define Init, a full cube that meets Init lies in it. So a concrete run
      through a simulated counterexample starts in Init. */
  lemma FullCubeInInit(c: Concrete, cube: Term, preds: set<Term>, fun: Functions, s: State, r: State)
    requires IsFullCube(cube, preds, fun) && BuiltFrom(c.init, preds)
    requires In(cube, s, fun) && In(c.init, s, fun) && In(cube, r, fun)
    ensures In(c.init, r, fun)
  {
    BuiltFromSame(c.init, preds, s, r, fun);
  }

  /** What the engine hands over: a chain of cubes that starts in a full cube meeting Init and ends
      inside Bad, where the predicates define Init. */
  ghost predicate IsEngineCex(c: Concrete, cex: seq<Term>, preds: set<Term>, fun: Functions) {
    && |cex| > 0
    && (forall s: State | In(cex[|cex| - 1], s, fun) :: In(c.bad, s, fun))
    && (exists s: State :: In(c.init, s, fun) && In(cex[0], s, fun))
    && (|cex| > 1 ==> IsFullCube(cex[0], preds, fun) && BuiltFrom(c.init, preds))
  }

  /** Its concrete runs are counterexamples. */
  lemma EngineCexIsReal(c: Concrete, cex: seq<Term>, preds: set<Term>, fun: Functions)
    requires IsEngineCex(c, cex, preds, fun)
    requires |cex| > 1 ==> exists states, inputs :: ConcFollows(c, cex, states, inputs, fun)
    ensures exists states, inputs :: ConcCex(c, states, inputs, fun)
  {
    var s: State :| In(c.init, s, fun) && In(cex[0], s, fun);
    if |cex| == 1 {
      assert ConcCex(c, [s], [], fun);
    } else {
      var states, inputs :| ConcFollows(c, cex, states, inputs, fun);
      FullCubeInInit(c, cex[0], preds, fun, s, states[0]);
      assert ConcCex(c, states, inputs, fun);
    }
  }

  /** The states lead from Init to Bad, which they avoid in between. */
  ghost predicate FirstReachesBad(c: Concrete, states: seq<State>, fun: Functions) {
    && |states| > 1 && In(c.init, states[0], fun) && In(c.bad, states[|states| - 1], fun)
    && forall j | 0 < j < |states| - 1 :: !In(c.bad, states[j], fun)
  }

  lemma FormulasExact(c: Concrete, cex: seq<Term>, states: seq<State>, fun: Functions)
    requires |cex| == |states| > 1
    ensures (forall j | 0 <= j < |cex| :: In(RefineFormulas(c, cex, false)[j], states[j], fun)) <==> FirstReachesBad(c, states, fun)
  {
    var f := RefineFormulas(c, cex, false);
    var last := |cex| - 1;
    assert f[0] == c.init && f[last] == c.bad;
    forall j | 0 < j < last ensures f[j] == MkNot(c.bad) && (In(f[j], states[j], fun) <==> !In(c.bad, states[j], fun)) {
      TruthNot(c.bad, StateModel(states[j], fun));
    }
  }

  /** Without simulation the query is satisfiable exactly when some concrete run of the
      counterexample's length leads from Init to Bad and avoids Bad in between. */
  lemma BmcQueryExact(c: Concrete, cex: seq<Term>, fun: Functions)
    requires |cex| > 1
    ensures (exists states, inputs :: ConcFollows(c, RefineFormulas(c, cex, false), states, inputs, fun)) <==>
            (exists states, inputs :: ConcRun(c, states, inputs, fun) && |states| == |cex| && FirstReachesBad(c, states, fun))
  {
    var f := RefineFormulas(c, cex, false);
    if states, inputs :| ConcFollows(c, f, states, inputs, fun) {
      FormulasExact(c, cex, states, fun);
      assert ConcRun(c, states, inputs, fun) && FirstReachesBad(c, states, fun);
    }
    if states, inputs :| ConcRun(c, states, inputs, fun) && |states| == |cex| && FirstReachesBad(c, states, fun) {
      FormulasExact(c, cex, states, fun);
      assert ConcFollows(c, f, states, inputs, fun);
    }
  }

  /** An unsat query leaves no concrete run either: concrete runs are abstract ones. */
  lemma InterpolantsExcludeConcrete(c: Concrete, preds: set<Term>, formulas: seq<Term>, itp: seq<Term>, fun: Functions)
    requires WellScoped(c) && forall p | p in preds :: IsPredicate(c, p)
    requires Interpolates(c, formulas, itp, fun) && forall k | 0 <= k < |itp| :: BuiltFrom(itp[k], preds)
    ensures forall states, inputs :: !ConcFollows(c, formulas, states, inputs, fun)
  {
    InterpolantsExclude(c, preds, formulas, itp, fun);
    forall states, inputs ensures !ConcFollows(c, formulas, states, inputs, fun) {
      if ConcFollows(c, formulas, states, inputs, fun) {
        var r := AbsRun(states, inputs, states[1..]);
        forall j | 0 <= j < |inputs| ensures AbsStepAt(c, preds, r, j, fun) {
          assert ConcStepAt(c, states, inputs, j, fun);
          AbstractSuccessors(c, preds, states[j], inputs[j], states[j + 1], fun);
        }
        assert Follows(c, preds, formulas, r, fun);
      }
    }
  }

  /** No abstract run of n states leads from Init to Bad and avoids Bad in between. */
  ghost predicate NoneReachesBad(c: Concrete, preds: set<Term>, n: nat, fun: Functions) {
    forall a: AbsRun | IsAbsRun(c, preds, a, fun) && |a.states| == n :: !FirstReachesBad(c, a.states, fun)
  }

  lemma NoneFollows(c: Concrete, preds: set<Term>, cex: seq<Term>, fun: Functions)
    requires |cex| > 1 && forall a: AbsRun :: !Follows(c, preds, RefineFormulas(c, cex, false), a, fun)
    ensures NoneReachesBad(c, preds, |cex|, fun)
  {
    forall a: AbsRun | IsAbsRun(c, preds, a, fun) && |a.states| == |cex| ensures !FirstReachesBad(c, a.states, fun) {
      FormulasExact(c, cex, a.states, fun);
      assert !Follows(c, preds, RefineFormulas(c, cex, false), a, fun);
    }
  }

  function StandIns(vs: set<Name>): set<Name> {
    set v | v in vs :: HatOf(v)
  }

  class IC3IA {
    const conc: Concrete
    const fun: Functions
    const simCex: bool
    var abstractionCache: Substitution
    var absInputs: set<Name>
    var absTrans: Term
    var predset: set<Term>

    ghost predicate Valid()
      reads this
    {
      && WellScoped(conc)
      && abstractionCache == FullCache(conc)
      && IsAbstraction(conc, abstractionCache, absTrans, predset)
      && forall p | p in predset :: IsPredicate(conc, p)
    }

    /** Nothing is abstracted yet. */
    constructor (conc: Concrete, fun: Functions, simCex: bool)
      requires WellScoped(conc)
      ensures this.conc == conc && this.fun == fun && this.simCex == simCex
      ensures abstractionCache == map[] && predset == {}
    {
      this.conc, this.fun, this.simCex := conc, fun, simCex;
      abstractionCache, absInputs, absTrans, predset := map[], conc.inputvars, conc.trans, {};
    }

    /** do_abstraction: renames the next-state variables, reusing the stand-ins it already has, and
        forgets all refinements. Returns the Boolean variables, which stay precise. */
    method DoAbstraction() returns (boolSymbols: set<Term>)
      requires abstractionCache == map[] || abstractionCache == FullCache(conc)
      modifies this`abstractionCache, this`absInputs, this`absTrans
      ensures abstractionCache == FullCache(conc) && absTrans == Subst(conc.trans, abstractionCache)
      ensures boolSymbols == set v | v in conc.statevars && v in conc.boolvars :: Sym(Curr(v))
      ensures absInputs == old(absInputs) + if old(abstractionCache) == map[] then StandIns(conc.statevars - conc.boolvars) else {}
    {
      boolSymbols := {};
      var todo := conc.statevars;
      while todo != {}
        invariant todo <= conc.statevars
        invariant boolSymbols == set v | v in conc.statevars - todo && v in conc.boolvars :: Sym(Curr(v))
        invariant forall x | x in abstractionCache :: x in FullCache(conc) && abstractionCache[x] == FullCache(conc)[x]
        invariant forall v | v in conc.statevars - todo && v !in conc.boolvars :: Next(v) in abstractionCache
        invariant old(abstractionCache) != map[] ==> abstractionCache == old(abstractionCache) && absInputs == old(absInputs)
        invariant old(abstractionCache) == map[] ==> absInputs == old(absInputs) + StandIns(conc.statevars - todo - conc.boolvars)
        invariant old(abstractionCache) == map[] ==> forall x | x in abstractionCache :: x.v in conc.statevars - todo
        decreases todo
      {
        var v :| v in todo;
        if v in conc.boolvars {
          boolSymbols := boolSymbols + {Sym(Curr(v))};
        } else {
          var nv := Next(v);
          if nv !in abstractionCache {
            absInputs := absInputs + {HatOf(v)};
            abstractionCache := abstractionCache[nv := Sym(Input(HatOf(v)))];
          }
        }
        todo := todo - {v};
      }
      assert conc.statevars - todo == conc.statevars;
      assert abstractionCache == FullCache(conc);
      absTrans := Subst(conc.trans, abstractionCache);
    }

    /** Adding a predicate only removes abstract steps, so whatever the frames say of all steps stays
        true. A Boolean variable needs no refinement. */
    method AddPredicate(pred: Term) returns (added: bool)
      requires Valid() && IsPredicate(conc, pred)
      modifies this`predset, this`absTrans
      ensures Valid() && added == (pred !in old(predset)) && predset == old(predset) + {pred}
      ensures forall m: Model | Truth(absTrans, m) :: Truth(old(absTrans), m)
    {
      if pred in predset {
        return false;
      }
      hide FullCache;
      ghost var before, preds := absTrans, predset;
      predset := predset + {pred};
      if !pred.Sym? {
        var refinement := PredicateRefinement(pred, abstractionCache);
        absTrans := MkAnd(absTrans, refinement);
        hide PredicateRefinement;
        forall m: Model ensures Truth(absTrans, m) <==> Truth(before, m) && Truth(refinement, m) {
          TruthAnd(before, refinement, m);
        }
      }
      added := true;
    }

    method AddPredicates(preds: set<Term>)
      requires Valid() && forall p | p in preds :: IsPredicate(conc, p)
      modifies this`predset, this`absTrans
      ensures Valid() && predset == old(predset) + preds
      ensures forall m: Model | Truth(absTrans, m) :: Truth(old(absTrans), m)
    {
      var todo := preds;
      while todo != {}
        invariant todo <= preds && Valid() && predset == old(predset) + (preds - todo)
        invariant forall m: Model | Truth(absTrans, m) :: Truth(old(absTrans), m)
        decreases todo
      {
        var p :| p in todo;
        var added := AddPredicate(p);
        todo := todo - {p};
      }
    }

    /** itp is the answer of the interpolating solver, None for a satisfiable query; preds are the
        predicates of the interpolants; reduced, if given, is an unsat core of the fresh ones. After
        a success no abstract run follows the counterexample any more. A failure to find fresh
        predicates means that none did before. */
    method Refine(cex: seq<Term>, itp: Option<seq<Term>>, preds: set<Term>, reduced: Option<set<Term>>) returns (r: RefineResult)
      requires Valid() && |cex| > 0 && forall p | p in preds :: IsPredicate(conc, p)
      requires |cex| > 1 && itp.Some? ==>
                 && Interpolates(conc, RefineFormulas(conc, cex, simCex), itp.value, fun)
                 && forall k | 0 <= k < |itp.value| :: BuiltFrom(itp.value[k], preds)
      requires |cex| > 1 && itp.None? ==>
                 exists states, inputs :: ConcFollows(conc, RefineFormulas(conc, cex, simCex), states, inputs, fun)
      requires reduced.Some? ==>
                 && reduced.value <= preds - predset && reduced.value != {}
                 && forall a: AbsRun :: !Follows(conc, predset + reduced.value, cex, a, fun)
      modifies this`predset, this`absTrans
      ensures Valid()
      ensures r.RefineNone? <==> |cex| == 1 || itp.None?
      ensures |cex| > 1 && simCex ==> (r.RefineNone? <==> exists states, inputs :: ConcFollows(conc, cex, states, inputs, fun))
      ensures |cex| > 1 && !simCex ==>
                (r.RefineNone? <==> exists states, inputs :: ConcRun(conc, states, inputs, fun) && |states| == |cex| && FirstReachesBad(conc, states, fun))
      ensures r.RefineNone? && (IsEngineCex(conc, cex, predset, fun) || (|cex| > 1 && !simCex)) ==>
                exists states, inputs :: ConcCex(conc, states, inputs, fun)
      ensures r.RefineNone? || r.RefineFail? ==> predset == old(predset) && absTrans == old(absTrans)
      ensures r.RefineSuccess? ==> predset == old(predset) + (if reduced.Some? then reduced.value else preds) > old(predset)
      ensures !simCex && (r.RefineFail? || (r.RefineSuccess? && reduced.None?)) ==> NoneReachesBad(conc, predset, |cex|, fun)
      ensures (simCex && !r.RefineNone?) || (r.RefineSuccess? && reduced.Some?) ==> forall a: AbsRun :: !Follows(conc, predset, cex, a, fun)
      ensures forall m: Model | Truth(absTrans, m) :: Truth(old(absTrans), m)
    {
      if |cex| == 1 || itp.None? {
        RealCounterexample(cex);
        return RefineNone;
      }
      hide Follows;
      hide IsAbstraction;
      hide BuiltFrom;
      hide Interpolates;
      var unseen := preds - predset;
      Refuted(cex, itp.value, preds);
      if unseen == {} {
        assert forall p | p in preds :: p !in unseen;
        assert old(predset) + preds == predset;
        return RefineFail;
      }
      if reduced.Some? && |reduced.value| < |unseen| {
        unseen := reduced.value;
      } else if reduced.Some? {
        SameSize(reduced.value, unseen);
      }
      AddPredicates(unseen);
      assert old(predset) + (preds - old(predset)) == old(predset) + preds;
      assert unseen != {} && unseen !! old(predset);
      r := RefineSuccess;
    }

    /** A satisfiable query is a real counterexample. */
    lemma RealCounterexample(cex: seq<Term>)
      requires Valid() && |cex| > 0
      requires |cex| > 1 ==> exists states, inputs :: ConcFollows(conc, RefineFormulas(conc, cex, simCex), states, inputs, fun)
      ensures |cex| > 1 && simCex ==> exists states, inputs :: ConcFollows(conc, cex, states, inputs, fun)
      ensures |cex| > 1 && !simCex ==>
                exists states, inputs :: ConcRun(conc, states, inputs, fun) && |states| == |cex| && FirstReachesBad(conc, states, fun)
      ensures IsEngineCex(conc, cex, predset, fun) || (|cex| > 1 && !simCex) ==> exists states, inputs :: ConcCex(conc, states, inputs, fun)
    {
      if |cex| > 1 && !simCex {
        BmcQueryExact(conc, cex, fun);
        var states, inputs :| ConcRun(conc, states, inputs, fun) && |states| == |cex| && FirstReachesBad(conc, states, fun);
        assert ConcCex(conc, states, inputs, fun);
      } else if IsEngineCex(conc, cex, predset, fun) {
        EngineCexIsReal(conc, cex, predset, fun);
      }
    }

    /** An unsat one excludes the concrete runs, and the abstract ones once its predicates are in. */
    lemma Refuted(cex: seq<Term>, itp: seq<Term>, preds: set<Term>)
      requires Valid() && |cex| > 1 && forall p | p in preds :: IsPredicate(conc, p)
      requires Interpolates(conc, RefineFormulas(conc, cex, simCex), itp, fun)
      requires forall k | 0 <= k < |itp| :: BuiltFrom(itp[k], preds)
      ensures Excluded(predset + preds, cex)
      ensures simCex ==> forall states, inputs :: !ConcFollows(conc, cex, states, inputs, fun)
      ensures !simCex ==> NoneReachesBad(conc, predset + preds, |cex|, fun)
      ensures !simCex ==>
                !exists states, inputs :: ConcRun(conc, states, inputs, fun) && |states| == |cex| && FirstReachesBad(conc, states, fun)
    {
      var formulas := RefineFormulas(conc, cex, simCex);
      BuiltFromMore(itp, preds, predset + preds);
      InterpolantsExclude(conc, predset + preds, formulas, itp, fun);
      InterpolantsExcludeConcrete(conc, predset + preds, formulas, itp, fun);
      if !simCex {
        NoneFollows(conc, predset + preds, cex, fun);
        BmcQueryExact(conc, cex, fun);
      }
    }

    ghost predicate Excluded(preds: set<Term>, cex: seq<Term>) {
      forall a: AbsRun :: !Follows(conc, preds, RefineFormulas(conc, cex, simCex), a, fun)
    }

    lemma BuiltFromMore(itp: seq<Term>, preds: set<Term>, more: set<Term>)
      requires preds <= more && forall k | 0 <= k < |itp| :: BuiltFrom(itp[k], preds)
      ensures forall k | 0 <= k < |itp| :: BuiltFrom(itp[k], more)
    {
      forall k | 0 <= k < |itp| ensures BuiltFrom(itp[k], more) {
        BuiltFromMonotone(itp[k], preds, more);
      }
    }

    lemma {:induction false} BuiltFromMonotone(t: Term, preds: set<Term>, more: set<Term>)
      requires preds <= more && BuiltFrom(t, preds)
      ensures BuiltFrom(t, more)
    {
      if t !in preds && t.App? {
        forall a | a in t.args ensures BuiltFrom(a, more) {
          BuiltFromMonotone(a, preds, more);
        }
      }
    }

    lemma SameSize(a: set<Term>, b: set<Term>)
      requires a <= b && |a| >= |b|
      ensures a == b
    {
      assert |b| == |a| + |b - a| by {
        assert b == a + (b - a);
      }
    }
  }
}
