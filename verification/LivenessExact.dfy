/** The liveness-to-safety translator is exact: the system it leaves behind violates the
    property it returns if and only if the system it was given has a fair run. */
module LivenessExact {
  import opened Terms
  import opened TransitionSystems
  import opened Liveness
  import opened LivenessToSafety
  import opened LivenessTranslator
  import opened TypedSystems


  lemma LoopDecodes(p: Parts, n: nat, s: Assign, t: Assign, c: bool)
    ensures (forall v | v in p.statevars :: Look(t, LoopOf(v)) == if c then Look(s, v) else Look(s, LoopOf(v)))
       <==> Decode(p, n, t).loop == if c then Decode(p, n, s).s else Decode(p, n, s).loop
  {
    DecodeLooks(p, n, s);
    DecodeLooks(p, n, t);
    var x, y := Decode(p, n, s), Decode(p, n, t);
    SameMaps(p, s, y.loop, if c then x.s else x.loop);
    hide *;
  }

  /** A justice condition sees the same in a step of the instrumented system and in a state of
      the original. */
  lemma ConditionDecodes(p: Parts, justice: seq<Term>, s: Assign, i: Assign, t: Assign, fun: Functions, k: nat)
    requires Scoped(p, justice) && k < |justice|
    ensures Truth(justice[k], StepModel(s, i, t, fun)) <==>
            LiveOf(p, justice, fun).justice[k](Decode(p, |justice|, s).s, DecodeInput(p, i).i)
  {
    var x, u := Decode(p, |justice|, s).s, DecodeInput(p, i).i;
    assert justice[k] in justice;
    EvalAgree(justice[k], StepModel(s, i, t, fun), StepModel(x, u, x, fun));
  }

  ghost predicate FlagStep(p: Parts, justice: seq<Term>, s: Assign, i: Assign, t: Assign, fun: Functions, k: nat)
    requires k < |justice|
  {
    var x, u := Decode(p, |justice|, s), DecodeInput(p, i);
    Look(t, JusticeOf(k)) ==
    B(Look(s, JusticeOf(k)) == B(true) || ((u.save || x.saved) && Truth(justice[k], StepModel(s, i, t, fun))))
  }

  lemma FlagDecodes(p: Parts, justice: seq<Term>, s: Assign, i: Assign, t: Assign, fun: Functions, k: nat)
    requires Scoped(p, justice) && k < |justice| && BooleanFlags(|justice|, t)
    ensures FlagStep(p, justice, s, i, t, fun, k) <==>
            var x, u, y := Decode(p, |justice|, s), DecodeInput(p, i), Decode(p, |justice|, t);
            y.just[k] == (x.just[k] || ((u.save || x.saved) && LiveOf(p, justice, fun).justice[k](x.s, u.i)))
  {
    ConditionDecodes(p, justice, s, i, t, fun, k);
    DecodeLooks(p, |justice|, s);
    DecodeLooks(p, |justice|, t);
    assert Look(t, JusticeOf(k)).B?;
    hide LiveOf;
    hide Truth;
    hide StepModel;
  }

  /** What XStep says beyond the original transition. */
  ghost predicate XAdded(sys: LiveSystem<Assign, Assign>, x: XState<Assign>, u: XInput<Assign>, y: XState<Assign>)
    requires |x.just| == |y.just| == |sys.justice|
  {
    && y.saved == (x.saved || u.save)
    && y.loop == (if u.save && !x.saved then x.s else x.loop)
    && forall k: nat | k < |sys.justice| ::
         y.just[k] == (x.just[k] || ((u.save || x.saved) && sys.justice[k](x.s, u.i)))
  }

  lemma AddedIsFlagSteps(p: Parts, justice: seq<Term>, s: Assign, i: Assign, t: Assign, fun: Functions)
    ensures var x, u := Decode(p, |justice|, s), DecodeInput(p, i);
            AddedHold(p, justice, s, i, t, fun) <==>
            Look(t, SavedState) == B(x.saved || u.save)
            && (forall v | v in p.statevars :: Look(t, LoopOf(v)) == if u.save && !x.saved then Look(s, v) else Look(s, LoopOf(v)))
            && forall k: nat | k < |justice| :: FlagStep(p, justice, s, i, t, fun, k)
  {
    if AddedHold(p, justice, s, i, t, fun) {
      forall k: nat | k < |justice| ensures FlagStep(p, justice, s, i, t, fun, k) {
      }
    }
    if forall k: nat | k < |justice| :: FlagStep(p, justice, s, i, t, fun, k) {
      forall k | 0 <= k < |justice|
        ensures var x, u := Decode(p, |justice|, s), DecodeInput(p, i);
                Look(t, JusticeOf(k)) ==
                B(Look(s, JusticeOf(k)) == B(true) || ((u.save || x.saved) && Truth(justice[k], StepModel(s, i, t, fun))))
      {
        assert FlagStep(p, justice, s, i, t, fun, k);
      }
    }
    hide Truth;
    hide StepModel;
    hide Decode;
  }

  lemma AddedDecodes(p: Parts, justice: seq<Term>, s: Assign, i: Assign, t: Assign, fun: Functions)
    requires Scoped(p, justice) && BooleanFlags(|justice|, t)
    ensures AddedHold(p, justice, s, i, t, fun) <==>
            XAdded(LiveOf(p, justice, fun), Decode(p, |justice|, s), DecodeInput(p, i), Decode(p, |justice|, t))
  {
    var x, u, y := Decode(p, |justice|, s), DecodeInput(p, i), Decode(p, |justice|, t);
    AddedIsFlagSteps(p, justice, s, i, t, fun);
    LoopDecodes(p, |justice|, s, t, u.save && !x.saved);
    forall k: nat | k < |justice|
      ensures FlagStep(p, justice, s, i, t, fun, k) <==>
              y.just[k] == (x.just[k] || ((u.save || x.saved) && LiveOf(p, justice, fun).justice[k](x.s, u.i)))
    {
      FlagDecodes(p, justice, s, i, t, fun, k);
    }
    hide AddedHold;
    hide FlagStep;
    hide Scoped;
    hide Truth;
  }

  /** The original part of a step. */
  lemma TransDecodes(p: Parts, justice: seq<Term>, s: Assign, i: Assign, t: Assign, fun: Functions)
    requires Scoped(p, justice)
    ensures StepHolds(p.updates, p.constraints, p.primed, StepModel(s, i, t, fun)) <==>
            LiveOf(p, justice, fun).trans(Decode(p, |justice|, s).s, DecodeInput(p, i).i, Decode(p, |justice|, t).s)
  {
    OriginalPart(p, justice, s, i, t, fun);
    hide StepHolds;
    hide Scoped;
    hide StepModel;
  }

  lemma XStepParts(sys: LiveSystem<Assign, Assign>, x: XState<Assign>, u: XInput<Assign>, y: XState<Assign>)
    requires |x.just| == |y.just| == |sys.justice|
    ensures XStep(sys, x, u, y) <==> sys.trans(x.s, u.i, y.s) && XAdded(sys, x, u, y)
  {
  }

  /** A step of the translated system is a step of the instrumented one. */
  lemma StepDecodes(p: Parts, q: Parts, justice: seq<Term>, s: Assign, i: Assign, t: Assign, fun: Functions)
    requires Scoped(p, justice) && Translated(p, q, justice) && BooleanFlags(|justice|, t)
    ensures StepHolds(q.updates, q.constraints, q.primed, StepModel(s, i, t, fun)) <==>
            XStep(LiveOf(p, justice, fun), Decode(p, |justice|, s), DecodeInput(p, i), Decode(p, |justice|, t))
  {
    hide *;
    AddedUpdates(p, q, justice, s, i, t, fun);
    AddedDecodes(p, justice, s, i, t, fun);
    TransDecodes(p, justice, s, i, t, fun);
    assert |LiveOf(p, justice, fun).justice| == |justice| && |Decode(p, |justice|, s).just| == |Decode(p, |justice|, t).just| == |justice| by {
      LengthsDecode(p, justice, s, fun);
      LengthsDecode(p, justice, t, fun);
    }
    XStepParts(LiveOf(p, justice, fun), Decode(p, |justice|, s), DecodeInput(p, i), Decode(p, |justice|, t));
    SameConstraints(p, q, justice, StepModel(s, i, t, fun));
  }

  lemma LengthsDecode(p: Parts, justice: seq<Term>, s: Assign, fun: Functions)
    ensures |LiveOf(p, justice, fun).justice| == |Decode(p, |justice|, s).just| == |justice|
  {
  }

  /** Beside its updates the translation demands what the original does. */
  lemma SameConstraints(p: Parts, q: Parts, justice: seq<Term>, m: Model)
    requires Translated(p, q, justice)
    requires UpdatesHold(q.updates, m) ==> UpdatesHold(p.updates, m)
    ensures StepHolds(q.updates, q.constraints, q.primed, m) <==>
            UpdatesHold(q.updates, m) && StepHolds(p.updates, p.constraints, p.primed, m)
    ensures StepHolds(p.updates, p.constraints, p.primed, m) ==> UpdatesHold(p.updates, m)
  {
    hide UpdatesAre;
    hide InitIs;
    hide UpdatesHold;
    hide AllTrue;
    hide AllPrimedTrue;
  }

  /** Every step of the translated system leaves Booleans in the added flags. */
  lemma StepsKeepBooleans(p: Parts, q: Parts, justice: seq<Term>, s: Assign, i: Assign, t: Assign, fun: Functions)
    requires Translated(p, q, justice) && StepHolds(q.updates, q.constraints, q.primed, StepModel(s, i, t, fun))
    ensures BooleanFlags(|justice|, t)
  {
    AddedUpdates(p, q, justice, s, i, t, fun);
    hide Partly;
    hide StepModel;
    hide Decode;
    hide Truth;
  }

  // ---------------------------------------------------------------- runs

  ghost function DecodeAll(p: Parts, n: nat, s: seq<Assign>): (r: seq<XState<Assign>>)
    ensures |r| == |s| && forall t | 0 <= t < |s| :: r[t] == Decode(p, n, s[t])
  {
    seq(|s|, t requires 0 <= t < |s| => Decode(p, n, s[t]))
  }

  ghost function DecodeInputs(p: Parts, s: seq<Assign>): (r: seq<XInput<Assign>>)
    ensures |r| == |s| && forall t | 0 <= t < |s| :: r[t] == DecodeInput(p, s[t])
  {
    seq(|s|, t requires 0 <= t < |s| => DecodeInput(p, s[t]))
  }

  lemma CexDecodes(p: Parts, q: Parts, justice: seq<Term>, fun: Functions, r: Run<Assign, Assign>)
    requires Scoped(p, justice) && Translated(p, q, justice) && TermCex(p, q, |justice|, fun, r)
    ensures XCex(LiveOf(p, justice, fun), DecodeAll(p, |justice|, r.states), DecodeInputs(p, r.inputs))
  {
    var xs, us := DecodeAll(p, |justice|, r.states), DecodeInputs(p, r.inputs);
    var a := r.states[0];
    assert XInit(LiveOf(p, justice, fun), xs[0]) by {
      InitBooleans(p, q, justice, fun, a);
      InitDecodes(p, q, justice, fun, a);
    }
    assert XBad(xs[|us|]) by {
      ClosedDecodes(p, |justice|, fun, r.states[|r.inputs|]);
    }
    forall t | 0 <= t < |us| ensures XStepAt(LiveOf(p, justice, fun), xs, us, t) {
      assert RunStep(LiveOf(q, [], fun), r, t);
      StepsKeepBooleans(p, q, justice, r.states[t], r.inputs[t], r.states[t + 1], fun);
      StepDecodes(p, q, justice, r.states[t], r.inputs[t], r.states[t + 1], fun);
    }
  }

  lemma InitBooleans(p: Parts, q: Parts, justice: seq<Term>, fun: Functions, a: Assign)
    requires Translated(p, q, justice) && Truth(q.init, StepModel(a, map[], a, fun))
    ensures BooleanFlags(|justice|, a)
  {
    var m := StepModel(a, map[], a, fun);
    assert forall v :: m.sym(Curr(v)) == Look(a, v);
    hide UpdatesAre;
    hide StepModel;
  }

  // ---------------------------------------------------------------- the way back

  function EncodedValue(p: Parts, x: XState<Assign>, v: Name): Value {
    if v in p.statevars then Look(x.s, v)
    else match v
         case SavedState => B(x.saved)
         case LoopOf(w) => Look(x.loop, w)
         case JusticeOf(i) => B(i < |x.just| && x.just[i])
         case _ => B(false)
  }

  /** The valuation of the translated system's variables that stands for x. */
  function Encode(p: Parts, q: Parts, x: XState<Assign>): Assign {
    map v | v in q.statevars :: EncodedValue(p, x, v)
  }

  function EncodeInput(p: Parts, q: Parts, u: XInput<Assign>): Assign {
    map v | v in q.inputvars :: if v in p.inputvars then Look(u.i, v) else B(u.save)
  }

  ghost predicate Proper(p: Parts, n: nat, x: XState<Assign>) {
    x.s.Keys == x.loop.Keys == p.statevars && |x.just| == n
  }

  lemma LookLoop(p: Parts, q: Parts, justice: seq<Term>, x: XState<Assign>, v: Name)
    requires Fresh(p, justice) && Translated(p, q, justice) && v in p.statevars
    ensures Look(Encode(p, q, x), v) == Look(x.s, v) && Look(Encode(p, q, x), LoopOf(v)) == Look(x.loop, v)
  {
    assert LoopOf(v) in LoopNames(p.statevars);
    assert LoopOf(v) in q.statevars && v in q.statevars;
    assert LoopOf(v) !in p.statevars;
    hide Fresh;
    hide Partly;
  }

  lemma LookJustice(p: Parts, q: Parts, justice: seq<Term>, x: XState<Assign>, i: nat)
    requires Fresh(p, justice) && Translated(p, q, justice) && i < |justice| == |x.just|
    ensures Look(Encode(p, q, x), JusticeOf(i)) == B(x.just[i])
  {
    assert JusticeOf(i) in JusticeNames(|justice|);
    assert JusticeOf(i) in q.statevars;
    assert JusticeOf(i) !in p.statevars;
    hide Fresh;
    hide Partly;
  }

  lemma LookSaved(p: Parts, q: Parts, justice: seq<Term>, x: XState<Assign>)
    requires Fresh(p, justice) && Translated(p, q, justice)
    ensures Look(Encode(p, q, x), SavedState) == B(x.saved)
  {
    assert SavedState in q.statevars && SavedState !in p.statevars;
    hide Fresh;
    hide Partly;
  }

  lemma EncodeDecodes(p: Parts, q: Parts, justice: seq<Term>, x: XState<Assign>)
    requires Fresh(p, justice) && Translated(p, q, justice) && Proper(p, |justice|, x)
    ensures Decode(p, |justice|, Encode(p, q, x)) == x && BooleanFlags(|justice|, Encode(p, q, x))
  {
    hide Fresh;
    hide Partly;
    hide Encode;
    var a := Encode(p, q, x);
    LookSaved(p, q, justice, x);
    forall v | v in p.statevars ensures Look(a, v) == Look(x.s, v) && Look(a, LoopOf(v)) == Look(x.loop, v) {
      LookLoop(p, q, justice, x, v);
    }
    forall i: nat | i < |justice| ensures Look(a, JusticeOf(i)) == B(x.just[i]) {
      LookJustice(p, q, justice, x, i);
    }
    var y := Decode(p, |justice|, a);
    DecodeLooks(p, |justice|, a);
    SameMaps(p, a, y.s, x.s);
    SameMaps(p, a, y.loop, x.loop);
    assert y.just == x.just;
  }

  lemma EncodeInputDecodes(p: Parts, q: Parts, justice: seq<Term>, u: XInput<Assign>)
    requires Fresh(p, justice) && Translated(p, q, justice) && u.i.Keys == p.inputvars
    ensures DecodeInput(p, EncodeInput(p, q, u)) == u
  {
    hide UpdatesAre;
    hide InitIs;
    assert Restrict(EncodeInput(p, q, u), p.inputvars) == u.i;
  }

  ghost function EncodeAll(p: Parts, q: Parts, xs: seq<XState<Assign>>): (r: seq<Assign>)
    ensures |r| == |xs| && forall t | 0 <= t < |xs| :: r[t] == Encode(p, q, xs[t])
  {
    seq(|xs|, t requires 0 <= t < |xs| => Encode(p, q, xs[t]))
  }

  ghost function EncodeInputs(p: Parts, q: Parts, us: seq<XInput<Assign>>): (r: seq<Assign>)
    ensures |r| == |us| && forall t | 0 <= t < |us| :: r[t] == EncodeInput(p, q, us[t])
  {
    seq(|us|, t requires 0 <= t < |us| => EncodeInput(p, q, us[t]))
  }

  lemma InitEncodes(p: Parts, q: Parts, justice: seq<Term>, fun: Functions, x: XState<Assign>)
    requires Scoped(p, justice) && Translated(p, q, justice) && Proper(p, |justice|, x)
    requires XInit(LiveOf(p, justice, fun), x)
    ensures LiveOf(q, [], fun).init(Encode(p, q, x))
  {
    EncodeDecodes(p, q, justice, x);
    InitDecodes(p, q, justice, fun, Encode(p, q, x));
    assert Encode(p, q, x).Keys == q.statevars;
    hide Scoped;
    hide Partly;
    hide BooleanFlags;
    hide XInit;
  }

  lemma StepEncodes(p: Parts, q: Parts, justice: seq<Term>, fun: Functions, x: XState<Assign>, u: XInput<Assign>, y: XState<Assign>)
    requires Scoped(p, justice) && Translated(p, q, justice) && Proper(p, |justice|, x) && Proper(p, |justice|, y)
    requires XStep(LiveOf(p, justice, fun), x, u, y)
    ensures LiveOf(q, [], fun).trans(Encode(p, q, x), EncodeInput(p, q, u), Encode(p, q, y))
  {
    assert u.i.Keys == p.inputvars;
    EncodeDecodes(p, q, justice, x);
    EncodeDecodes(p, q, justice, y);
    EncodeInputDecodes(p, q, justice, u);
    assert Encode(p, q, x).Keys == Encode(p, q, y).Keys == q.statevars && EncodeInput(p, q, u).Keys == q.inputvars;
    StepDecodes(p, q, justice, Encode(p, q, x), EncodeInput(p, q, u), Encode(p, q, y), fun);
    hide Scoped;
    hide Partly;
    hide BooleanFlags;
    hide XStep;
    hide StepHolds;
    hide StepModel;
    hide Encode;
    hide EncodeInput;
  }

  lemma CexEncodes(p: Parts, q: Parts, justice: seq<Term>, fun: Functions, xs: seq<XState<Assign>>, us: seq<XInput<Assign>>)
    requires Scoped(p, justice) && Translated(p, q, justice) && XCex(LiveOf(p, justice, fun), xs, us)
    requires forall x | x in xs :: Proper(p, |justice|, x)
    ensures TermCex(p, q, |justice|, fun, Run(EncodeAll(p, q, xs), EncodeInputs(p, q, us)))
  {
    hide Scoped;
    hide Partly;
    hide LiveOf;
    var r := Run(EncodeAll(p, q, xs), EncodeInputs(p, q, us));
    InitEncodes(p, q, justice, fun, xs[0]);
    assert ClosedAt(p, |justice|, fun, r.states[|us|]) by {
      assert Fresh(p, justice) by {
        FreshInScope(p, justice);
      }
      EncodeDecodes(p, q, justice, xs[|us|]);
      ClosedDecodes(p, |justice|, fun, r.states[|us|]);
    }
    forall t | 0 <= t < |us| ensures RunStep(LiveOf(q, [], fun), r, t) {
      assert XStepAt(LiveOf(p, justice, fun), xs, us, t);
      StepEncodes(p, q, justice, fun, xs[t], us[t], xs[t + 1]);
    }
  }

  lemma FreshInScope(p: Parts, justice: seq<Term>)
    requires Scoped(p, justice)
    ensures Fresh(p, justice)
  {
  }

  /** The states a lasso of the original visits, and their loop copies, are proper. */
  lemma LassoProper(p: Parts, justice: seq<Term>, fun: Functions, r: Run<Assign, Assign>, t: nat)
    requires IsRun(LiveOf(p, justice, fun), r) && t <= |r.inputs|
    ensures r.states[t].Keys == p.statevars
  {
    if t > 0 {
      assert RunStep(LiveOf(p, justice, fun), r, t - 1);
    }
  }

  /** A lasso of the original is also a counterexample over valuations. */
  lemma LassoEncodes(p: Parts, q: Parts, justice: seq<Term>, fun: Functions, l: Run<Assign, Assign>, a: nat)
    returns (xs: seq<XState<Assign>>, us: seq<XInput<Assign>>)
    requires Scoped(p, justice) && Translated(p, q, justice) && IsLasso(LiveOf(p, justice, fun), l, a)
    ensures TermCex(p, q, |justice|, fun, Run(EncodeAll(p, q, xs), EncodeInputs(p, q, us)))
    ensures forall x | x in xs :: Proper(p, |justice|, x) && x.s in l.states && x.loop in l.states
    ensures forall u | u in us :: u.i in l.inputs
  {
    hide Scoped;
    hide Partly;
    var sys := LiveOf(p, justice, fun);
    xs, us := LassoIsCex(sys, l, a);
    forall x | x in xs ensures Proper(p, |justice|, x) {
      LassoProper(p, justice, fun, l, a);
      var t :| 0 <= t < |l.states| && l.states[t] == x.s;
      LassoProper(p, justice, fun, l, t);
      FlagsProper(sys, xs, us, x);
    }
    CexEncodes(p, q, justice, fun, xs, us);
  }

  lemma FlagsProper(sys: LiveSystem<Assign, Assign>, xs: seq<XState<Assign>>, us: seq<XInput<Assign>>, x: XState<Assign>)
    requires XCex(sys, xs, us) && x in xs
    ensures |x.just| == |sys.justice|
  {
    var t :| 0 <= t < |xs| && xs[t] == x;
    if t > 0 {
      assert XStepAt(sys, xs, us, t - 1);
    }
  }

  /** The system the translator leaves behind violates the property it returns exactly when the
      system it was given has a fair lasso, over any values whatever. */
  lemma TranslateFindsLassos(p: Parts, q: Parts, justice: seq<Term>, fun: Functions)
    requires Scoped(p, justice) && Translated(p, q, justice)
    ensures (exists r: Run<Assign, Assign> :: TermCex(p, q, |justice|, fun, r))
       <==> (exists l: Run<Assign, Assign>, a: nat :: IsLasso(LiveOf(p, justice, fun), l, a))
  {
    hide *;
    if r: Run<Assign, Assign> :| TermCex(p, q, |justice|, fun, r) {
      CexDecodes(p, q, justice, fun, r);
      var l, a := CexIsLasso(LiveOf(p, justice, fun), DecodeAll(p, |justice|, r.states), DecodeInputs(p, r.inputs));
    }
    if l: Run<Assign, Assign>, a: nat :| IsLasso(LiveOf(p, justice, fun), l, a) {
      var xs, us := LassoEncodes(p, q, justice, fun, l, a);
    }
  }

  /** So a violation always stands for an infinite fair run. */
  lemma ViolationIsFair(p: Parts, q: Parts, justice: seq<Term>, fun: Functions, r: Run<Assign, Assign>)
    returns (f: nat -> Assign, g: nat -> Assign)
    requires Scoped(p, justice) && Translated(p, q, justice) && TermCex(p, q, |justice|, fun, r)
    ensures FairRun(LiveOf(p, justice, fun), f, g)
  {
    hide *;
    CexDecodes(p, q, justice, fun, r);
    var l, a := CexIsLasso(LiveOf(p, justice, fun), DecodeAll(p, |justice|, r.states), DecodeInputs(p, r.inputs));
    LassoCloses(LiveOf(p, justice, fun), l, a);
    f, g := LoopIsFair(LiveOf(p, justice, fun), l, a);
  }

  // ---------------------------------------------------------------- sorts

  /** A loop state has the sort of the variable it copies; the other added variables are Boolean. */
  function InstrumentedDomains(p: Parts, dom: Domains): Domains {
    (v: Name) =>
      if v in p.statevars || v in p.inputvars then dom(v)
      else match v
           case LoopOf(w) => dom(w)
           case _ => {B(false), B(true)}
  }

  lemma DecodeTyped(p: Parts, n: nat, dom: Domains, r: Run<Assign, Assign>)
    requires TypedRun(r, InstrumentedDomains(p, dom))
    requires forall a | a in r.states :: p.statevars <= a.Keys
    requires forall a | a in r.inputs :: p.inputvars <= a.Keys
    ensures TypedRun(Underlying(DecodeAll(p, n, r.states), DecodeInputs(p, r.inputs)), dom)
  {
    var l := Underlying(DecodeAll(p, n, r.states), DecodeInputs(p, r.inputs));
    forall b | b in l.states ensures InDomains(b, dom) {
      var t :| 0 <= t < |l.states| && l.states[t] == b;
      assert r.states[t] in r.states && b == Restrict(r.states[t], p.statevars);
    }
    forall b | b in l.inputs ensures InDomains(b, dom) {
      var t :| 0 <= t < |l.inputs| && l.inputs[t] == b;
      assert r.inputs[t] in r.inputs && b == Restrict(r.inputs[t], p.inputvars);
    }
  }

  lemma AddedName(p: Parts, q: Parts, justice: seq<Term>, v: Name)
    requires Fresh(p, justice) && Translated(p, q, justice) && v in q.statevars && v !in p.statevars
    ensures v !in p.inputvars && (v == SavedState || (v.LoopOf? && v.v in p.statevars) || (v.JusticeOf? && v.i < |justice|))
  {
    hide UpdatesAre;
    hide InitIs;
    assert v == SavedState || v in LoopNames(p.statevars) || v in JusticeNames(|justice|);
  }

  lemma EncodedValueTyped(p: Parts, n: nat, dom: Domains, x: XState<Assign>, v: Name)
    requires Proper(p, n, x) && InDomains(x.s, dom) && InDomains(x.loop, dom)
    requires v !in p.statevars ==>
               v !in p.inputvars && (v == SavedState || (v.LoopOf? && v.v in p.statevars) || v.JusticeOf?)
    ensures EncodedValue(p, x, v) in InstrumentedDomains(p, dom)(v)
  {
  }

  lemma EncodeTyped(p: Parts, q: Parts, justice: seq<Term>, dom: Domains, x: XState<Assign>)
    requires Fresh(p, justice) && Translated(p, q, justice) && Proper(p, |justice|, x) && InDomains(x.s, dom) && InDomains(x.loop, dom)
    ensures InDomains(Encode(p, q, x), InstrumentedDomains(p, dom))
  {
    hide Partly;
    hide Fresh;
    hide Proper;
    hide EncodedValue;
    hide InstrumentedDomains;
    forall v | v in q.statevars ensures EncodedValue(p, x, v) in InstrumentedDomains(p, dom)(v) {
      if v !in p.statevars {
        AddedName(p, q, justice, v);
      }
      EncodedValueTyped(p, |justice|, dom, x, v);
    }
  }

  lemma EncodeInputTyped(p: Parts, q: Parts, justice: seq<Term>, dom: Domains, u: XInput<Assign>)
    requires Fresh(p, justice) && Translated(p, q, justice) && u.i.Keys == p.inputvars && InDomains(u.i, dom)
    ensures InDomains(EncodeInput(p, q, u), InstrumentedDomains(p, dom))
  {
    forall v | v in q.inputvars && v !in p.inputvars ensures v == SaveInput {
    }
    hide UpdatesAre;
    hide InitIs;
  }

  lemma CexKeys(p: Parts, q: Parts, justice: seq<Term>, fun: Functions, r: Run<Assign, Assign>)
    requires Translated(p, q, justice) && IsRun(LiveOf(q, [], fun), r)
    ensures forall a | a in r.states :: p.statevars <= a.Keys
    ensures forall a | a in r.inputs :: p.inputvars <= a.Keys
  {
    forall t | 0 <= t < |r.states| ensures r.states[t].Keys == q.statevars {
      LassoProper(q, [], fun, r, t);
    }
    forall t | 0 <= t < |r.inputs| ensures r.inputs[t].Keys == q.inputvars {
      assert RunStep(LiveOf(q, [], fun), r, t);
    }
    hide UpdatesAre;
    hide InitIs;
    hide LiveOf;
  }

  /** A run of the translated system, all variables within their sorts, that violates the property. */
  ghost predicate TypedCex(p: Parts, q: Parts, n: nat, fun: Functions, dom: Domains, r: Run<Assign, Assign>) {
    TermCex(p, q, n, fun, r) && TypedRun(r, InstrumentedDomains(p, dom))
  }

  lemma TypedCexDecodes(p: Parts, q: Parts, justice: seq<Term>, fun: Functions, dom: Domains, r: Run<Assign, Assign>)
    returns (l: Run<Assign, Assign>, a: nat)
    requires Scoped(p, justice) && Translated(p, q, justice) && TypedCex(p, q, |justice|, fun, dom, r)
    ensures IsLasso(Typed(LiveOf(p, justice, fun), dom), l, a)
  {
    hide Scoped;
    hide Partly;
    hide LiveOf;
    hide IsRun;
    CexDecodes(p, q, justice, fun, r);
    l, a := CexIsLasso(LiveOf(p, justice, fun), DecodeAll(p, |justice|, r.states), DecodeInputs(p, r.inputs));
    CexKeys(p, q, justice, fun, r);
    DecodeTyped(p, |justice|, dom, r);
    TypedLasso(LiveOf(p, justice, fun), dom, l, a);
  }

  lemma TypedLassoEncodes(p: Parts, q: Parts, justice: seq<Term>, fun: Functions, dom: Domains, l: Run<Assign, Assign>, a: nat)
    returns (r: Run<Assign, Assign>)
    requires Scoped(p, justice) && Translated(p, q, justice) && IsLasso(Typed(LiveOf(p, justice, fun), dom), l, a)
    ensures TypedCex(p, q, |justice|, fun, dom, r)
  {
    hide Scoped;
    hide Partly;
    TypedLasso(LiveOf(p, justice, fun), dom, l, a);
    FreshInScope(p, justice);
    var xs, us := LassoEncodes(p, q, justice, fun, l, a);
    r := Run(EncodeAll(p, q, xs), EncodeInputs(p, q, us));
    forall t | 0 <= t < |xs| ensures InDomains(r.states[t], InstrumentedDomains(p, dom)) {
      assert xs[t] in xs;
      EncodeTyped(p, q, justice, dom, xs[t]);
    }
    LassoInputs(p, justice, fun, l);
    forall t | 0 <= t < |us| ensures InDomains(r.inputs[t], InstrumentedDomains(p, dom)) {
      assert us[t] in us;
      EncodeInputTyped(p, q, justice, dom, us[t]);
    }
    hide InDomains;
    hide TermCex;
    hide Encode;
    hide EncodeInput;
  }

  lemma LassoInputs(p: Parts, justice: seq<Term>, fun: Functions, r: Run<Assign, Assign>)
    requires IsRun(LiveOf(p, justice, fun), r)
    ensures forall i | i in r.inputs :: i.Keys == p.inputvars
  {
    forall t | 0 <= t < |r.inputs| ensures r.inputs[t].Keys == p.inputvars {
      assert RunStep(LiveOf(p, justice, fun), r, t);
    }
    hide LiveOf;
  }

  /** For variables of finite sorts: the system the translator leaves behind can violate the
      property it returns exactly when the system it was given has an infinite run that makes
      every justice condition true infinitely often. */
  lemma TranslateExact(p: Parts, q: Parts, justice: seq<Term>, fun: Functions, dom: Domains)
    requires Scoped(p, justice) && Translated(p, q, justice)
    ensures (exists r: Run<Assign, Assign> :: TypedCex(p, q, |justice|, fun, dom, r))
       <==> (exists f: nat -> Assign, g: nat -> Assign :: FairRun(Typed(LiveOf(p, justice, fun), dom), f, g))
  {
    TypedConfined(p, justice, fun, dom);
    FairRunIffLasso(Typed(LiveOf(p, justice, fun), dom), Valuations(p.statevars, dom));
    hide *;
    if r: Run<Assign, Assign> :| TypedCex(p, q, |justice|, fun, dom, r) {
      var l, a := TypedCexDecodes(p, q, justice, fun, dom, r);
    }
    if l: Run<Assign, Assign>, a: nat :| IsLasso(Typed(LiveOf(p, justice, fun), dom), l, a) {
      var r := TypedLassoEncodes(p, q, justice, fun, dom, l, a);
    }
  }

  // ---------------------------------------------------------------- the systems it applies to

  /** The precondition of Translate puts its input in scope, and the runs of LiveOf are those of
      the transition relation and initial states the system holds. */
  lemma ValidScoped(ts: TransitionSystem, justice: seq<Term>, fun: Functions)
    requires ts.Valid() && FreshNames(ts, justice)
    requires forall j | j in justice :: ts.NoNext(j)
    ensures Scoped(Snapshot(ts), justice)
    ensures forall s: Assign :: LiveOf(Snapshot(ts), justice, fun).init(s) <==>
                                s.Keys == ts.statevars && Truth(ts.init, StepModel(s, map[], s, fun))
    ensures forall s: Assign, i: Assign, t: Assign :: LiveOf(Snapshot(ts), justice, fun).trans(s, i, t) <==>
                                                      s.Keys == t.Keys == ts.statevars && i.Keys == ts.inputvars && Truth(ts.trans, StepModel(s, i, t, fun))
  {
    hide InitImplies;
    hide StepModel;
    hide Truth;
    hide StepHolds;
    hide CurrSymbols;
    hide InputSymbols;
  }
}
