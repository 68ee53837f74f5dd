/** Every transition system built through the interface has the shape on which k-induction and
    the revisit test of k-liveness rely: a variable without update is free in the next state,
    up to what is asserted of states alone. */
module SystemShape {
  import opened Terms
  import opened TransitionSystems
  import opened Liveness
  import opened Systems
  import opened TypedSystems
  import LivenessTranslator
  import KLiveness
  import KInduction

  type Assign = LivenessTranslator.Assign
  type Parts = LivenessTranslator.Parts

  /** The values of the variables that have an update. */
  function Updated(p: Parts): Assign -> Assign {
    (a: Assign) => LivenessTranslator.Restrict(a, p.updates.Keys)
  }

  /** u satisfies the constraints that are asserted of next states. */
  ghost predicate MeetsPrimed(p: Parts, u: Assign, fun: Functions) {
    AllTrue(p.primed, LivenessTranslator.StepModel(u, map[], u, fun))
  }

  lemma PrimedOfTarget(p: Parts, s: Assign, i: Assign, u: Assign, fun: Functions)
    requires forall c | c in p.primed :: IsCurrOnly(c)
    ensures AllPrimedTrue(p.primed, LivenessTranslator.StepModel(s, i, u, fun)) <==> MeetsPrimed(p, u, fun)
  {
    var m, k := LivenessTranslator.StepModel(s, i, u, fun), LivenessTranslator.StepModel(u, map[], u, fun);
    forall c | c in p.primed ensures Truth(Prime(c), m) <==> Truth(c, k) {
      PrimeMeans(c, m, k);
    }
  }

  /** A state that is initial or the target of some step meets the next-state constraints. */
  lemma AllowedMeetsPrimed(ts: TransitionSystem, justice: seq<Term>, fun: Functions, u: Assign)
    requires ts.Valid()
    requires KLiveness.NextAllowed(LivenessTranslator.LiveOf(LivenessTranslator.Snapshot(ts), justice, fun), u)
    ensures u.Keys == ts.statevars && MeetsPrimed(LivenessTranslator.Snapshot(ts), u, fun)
  {
    var p := LivenessTranslator.Snapshot(ts);
    var sys := LivenessTranslator.LiveOf(p, justice, fun);
    if !sys.init(u) {
      var s, i :| sys.trans(s, i, u);
      PrimedOfTarget(p, s, i, u, fun);
    }
  }

  /** The target of a step can be exchanged for any allowed state that agrees with it on the updated
      variables. */
  lemma ValidFreeNext(ts: TransitionSystem, justice: seq<Term>, fun: Functions)
    requires ts.Valid()
    ensures KLiveness.FreeNext(LivenessTranslator.LiveOf(LivenessTranslator.Snapshot(ts), justice, fun), Updated(LivenessTranslator.Snapshot(ts)))
  {
    var p := LivenessTranslator.Snapshot(ts);
    var sys := LivenessTranslator.LiveOf(p, justice, fun);
    forall s, i, t, u | sys.trans(s, i, t) && Updated(p)(t) == Updated(p)(u) && KLiveness.NextAllowed(sys, u)
      ensures sys.trans(s, i, u)
    {
      AllowedMeetsPrimed(ts, justice, fun, u);
      ExchangeTarget(ts, s, i, t, u, fun);
    }
  }

  lemma ExchangeTarget(ts: TransitionSystem, s: Assign, i: Assign, t: Assign, u: Assign, fun: Functions)
    requires ts.Valid()
    requires var p := LivenessTranslator.Snapshot(ts);
             && StepHolds(p.updates, p.constraints, p.primed, LivenessTranslator.StepModel(s, i, t, fun))
             && Updated(p)(t) == Updated(p)(u) && MeetsPrimed(p, u, fun)
    ensures StepHolds(ts.updates, ts.constraints, ts.primed, LivenessTranslator.StepModel(s, i, u, fun))
  {
    var p := LivenessTranslator.Snapshot(ts);
    var m, k := LivenessTranslator.StepModel(s, i, t, fun), LivenessTranslator.StepModel(s, i, u, fun);
    PrimedOfTarget(p, s, i, u, fun);
    forall v | v in p.updates ensures k.sym(Next(v)) == m.sym(Next(v)) {
      assert LivenessTranslator.Restrict(t, p.updates.Keys)[v] == LivenessTranslator.Restrict(u, p.updates.Keys)[v];
    }
    FreeNextTarget(p.updates, p.constraints, p.primed, m, k);
  }

  // ---------------------------------------------------------------- the systems k-induction sees

  /** vars lists the state variables. */
  ghost predicate Lists(vars: seq<Name>, vs: set<Name>) {
    && (forall v :: v in vars <==> v in vs)
    && forall j, k | 0 <= j < k < |vars| :: vars[j] != vars[k]
  }

  function AsState(vars: seq<Name>, a: Assign): (s: KInduction.State)
    ensures |s| == |vars| && forall k | 0 <= k < |s| :: s[k] == LivenessTranslator.Look(a, vars[k])
  {
    seq(|vars|, k requires 0 <= k < |vars| => LivenessTranslator.Look(a, vars[k]))
  }

  ghost predicate StepsSomehow(sys: LiveSystem<Assign, Assign>, s: Assign, t: Assign) {
    exists i :: sys.trans(s, i, t)
  }

  /** The states and transitions of p over finite sorts, the inputs projected away, and the positions
      of the variables without update. */
  ghost function VarSystemOf(p: Parts, fun: Functions, dom: Domains, vars: seq<Name>, bad: Term): KInduction.VarSystem {
    var sys, all := Typed(LivenessTranslator.LiveOf(p, [], fun), dom), Valuations(p.statevars, dom);
    KInduction.VarSystem(
      System(
        set s | s in all :: AsState(vars, s),
        set s | s in all && sys.init(s) :: AsState(vars, s),
        set s, t | s in all && t in all && StepsSomehow(sys, s, t) :: (AsState(vars, s), AsState(vars, t)),
        set s | s in all && Truth(bad, LivenessTranslator.StepModel(s, map[], s, fun)) :: AsState(vars, s)),
      |vars|, set k | 0 <= k < |vars| && vars[k] !in p.updates)
  }

  lemma SameUpdatedValues(p: Parts, vs: KInduction.VarSystem, vars: seq<Name>, a: Assign, b: Assign)
    requires Lists(vars, p.statevars) && vs.n == |vars| && vs.noUpdate == set k | 0 <= k < |vars| && vars[k] !in p.updates
    requires forall v | v in p.updates :: v in p.statevars
    requires KInduction.SameUpdated(vs, AsState(vars, a), AsState(vars, b))
    ensures Updated(p)(a) == Updated(p)(b)
  {
    forall v | v in p.updates ensures LivenessTranslator.Look(a, v) == LivenessTranslator.Look(b, v) {
      assert v in vars;
      var k :| 0 <= k < |vars| && vars[k] == v;
      assert AsState(vars, a)[k] == AsState(vars, b)[k];
    }
  }

  /** Different valuations are different states. */
  lemma AsStateInjective(vars: seq<Name>, vs: set<Name>, a: Assign, b: Assign)
    requires Lists(vars, vs) && a.Keys == b.Keys == vs && AsState(vars, a) == AsState(vars, b)
    ensures a == b
  {
    forall v | v in vs ensures a[v] == b[v] {
      assert v in vars;
      var k :| 0 <= k < |vars| && vars[k] == v;
      assert AsState(vars, a)[k] == AsState(vars, b)[k];
    }
  }

  /** Projecting the inputs away and listing the values neither adds nor loses transitions. */
  lemma TransitionsExact(p: Parts, fun: Functions, dom: Domains, vars: seq<Name>, bad: Term, s: Assign, t: Assign)
    requires Lists(vars, p.statevars) && s.Keys == t.Keys == p.statevars && InDomains(s, dom) && InDomains(t, dom)
    ensures (AsState(vars, s), AsState(vars, t)) in VarSystemOf(p, fun, dom, vars, bad).ts.trans
       <==> StepsSomehow(Typed(LivenessTranslator.LiveOf(p, [], fun), dom), s, t)
  {
    var all, sys := Valuations(p.statevars, dom), Typed(LivenessTranslator.LiveOf(p, [], fun), dom);
    ValuationsExact(p.statevars, dom, s);
    ValuationsExact(p.statevars, dom, t);
    if (AsState(vars, s), AsState(vars, t)) in VarSystemOf(p, fun, dom, vars, bad).ts.trans {
      var a, b :| a in all && b in all && StepsSomehow(sys, a, b) && AsState(vars, a) == AsState(vars, s) && AsState(vars, b) == AsState(vars, t);
      AsStateInjective(vars, p.statevars, a, s);
      AsStateInjective(vars, p.statevars, b, t);
    }
    hide Valuations;
    hide AsState;
  }

  /** What k-induction asks of its system holds for every system built through the interface. */
  lemma ValidWellShaped(ts: TransitionSystem, fun: Functions, dom: Domains, vars: seq<Name>, bad: Term)
    requires ts.Valid() && Lists(vars, ts.statevars)
    ensures KInduction.WellShaped(VarSystemOf(LivenessTranslator.Snapshot(ts), fun, dom, vars, bad))
  {
    var vs := VarSystemOf(LivenessTranslator.Snapshot(ts), fun, dom, vars, bad);
    assert WellFormed(vs.ts) && forall s | s in vs.ts.states :: |s| == vs.n by {
      hide LivenessTranslator.LiveOf;
      hide Valuations;
      hide Typed;
    }
    ValidFreeNextStates(ts, fun, dom, vars, bad);
    hide VarSystemOf;
    hide WellFormed;
    hide KInduction.FreeNext;
  }

  lemma ValidFreeNextStates(ts: TransitionSystem, fun: Functions, dom: Domains, vars: seq<Name>, bad: Term)
    requires ts.Valid() && Lists(vars, ts.statevars)
    ensures KInduction.FreeNext(VarSystemOf(LivenessTranslator.Snapshot(ts), fun, dom, vars, bad))
  {
    var p := LivenessTranslator.Snapshot(ts);
    var vs := VarSystemOf(p, fun, dom, vars, bad);
    var all, sys := Valuations(p.statevars, dom), Typed(LivenessTranslator.LiveOf(p, [], fun), dom);
    hide LivenessTranslator.LiveOf;
    hide Valuations;
    hide Typed;
    hide KInduction.SameUpdated;
    forall e, d | e in vs.ts.trans && d in vs.ts.trans && KInduction.SameUpdated(vs, e.1, d.1) ensures (e.0, d.1) in vs.ts.trans {
      var s, t :| s in all && t in all && StepsSomehow(sys, s, t) && e == (AsState(vars, s), AsState(vars, t));
      var r, u :| r in all && u in all && StepsSomehow(sys, r, u) && d == (AsState(vars, r), AsState(vars, u));
      SameUpdatedValues(p, vs, vars, t, u);
      ExchangeTyped(ts, fun, dom, s, t, r, u);
    }
  }

  lemma ExchangeTyped(ts: TransitionSystem, fun: Functions, dom: Domains, s: Assign, t: Assign, r: Assign, u: Assign)
    requires ts.Valid() && Updated(LivenessTranslator.Snapshot(ts))(t) == Updated(LivenessTranslator.Snapshot(ts))(u)
    requires var sys := Typed(LivenessTranslator.LiveOf(LivenessTranslator.Snapshot(ts), [], fun), dom);
             StepsSomehow(sys, s, t) && StepsSomehow(sys, r, u)
    ensures StepsSomehow(Typed(LivenessTranslator.LiveOf(LivenessTranslator.Snapshot(ts), [], fun), dom), s, u)
  {
    var live := LivenessTranslator.LiveOf(LivenessTranslator.Snapshot(ts), [], fun);
    var sys := Typed(live, dom);
    var i :| sys.trans(s, i, t);
    var j :| sys.trans(r, j, u);
    ValidFreeNext(ts, [], fun);
    assert live.trans(s, i, t) && live.trans(r, j, u) && KLiveness.NextAllowed(live, u);
    assert live.trans(s, i, u);
    assert sys.trans(s, i, u);
  }

  // ---------------------------------------------------------------- deterministic systems

  /** A system still marked deterministic has exactly one successor per state and input. */
  lemma DeterministicStep(ts: TransitionSystem, justice: seq<Term>, fun: Functions, s: Assign, i: Assign)
    returns (t: Assign)
    requires ts.Valid() && ts.deterministic && s.Keys == ts.statevars && i.Keys == ts.inputvars
    ensures forall u: Assign :: LivenessTranslator.LiveOf(LivenessTranslator.Snapshot(ts), justice, fun).trans(s, i, u) <==> u == t
  {
    var p := LivenessTranslator.Snapshot(ts);
    forall v | v in ts.statevars ensures v in ts.updates {
      assert v !in ts.noUpdates;
      assert v !in ts.statevars - ts.updates.Keys;
    }
    t := map v | v in ts.statevars :: Eval(ts.updates[v], LivenessTranslator.StepModel(s, i, s, fun));
    forall u: Assign ensures LivenessTranslator.LiveOf(p, justice, fun).trans(s, i, u) <==> u == t {
      var m, k := LivenessTranslator.StepModel(s, i, u, fun), LivenessTranslator.StepModel(s, i, s, fun);
      forall v | v in ts.updates ensures Eval(ts.updates[v], m) == Eval(ts.updates[v], k) {
        EvalAgree(ts.updates[v], m, k);
      }
      if u.Keys == ts.statevars && UpdatesHold(p.updates, m) {
        forall v | v in u ensures u[v] == t[v] {
          assert v in p.updates && m.sym(Next(v)) == u[v];
        }
      }
    }
  }
}
