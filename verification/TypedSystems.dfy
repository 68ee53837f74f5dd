/** Systems whose variables range over the finitely many values of their sorts. */
module TypedSystems {
  import opened Terms
  import opened TransitionSystems
  import opened Liveness
  import opened LivenessTranslator

  /** The values of each variable's sort. */
  type Domains = Name -> set<Value>

  ghost predicate InDomains(a: Assign, dom: Domains) {
    forall v | v in a :: a[v] in dom(v)
  }

  ghost predicate TypedRun(r: Run<Assign, Assign>, dom: Domains) {
    && (forall a | a in r.states :: InDomains(a, dom))
    && forall a | a in r.inputs :: InDomains(a, dom)
  }

  /** The system with its variables confined to their sorts. */
  ghost function Typed(sys: LiveSystem<Assign, Assign>, dom: Domains): LiveSystem<Assign, Assign> {
    LiveSystem(
      (s: Assign) => InDomains(s, dom) && sys.init(s),
      (s: Assign, i: Assign, t: Assign) => InDomains(s, dom) && InDomains(i, dom) && InDomains(t, dom) && sys.trans(s, i, t),
      sys.justice)
  }

  lemma TypedRunExact(sys: LiveSystem<Assign, Assign>, dom: Domains, r: Run<Assign, Assign>)
    ensures IsRun(Typed(sys, dom), r) <==> IsRun(sys, r) && TypedRun(r, dom)
  {
    if IsRun(Typed(sys, dom), r) {
      forall t | 0 <= t < |r.inputs| ensures RunStep(sys, r, t) && InDomains(r.inputs[t], dom) && InDomains(r.states[t + 1], dom) {
        assert RunStep(Typed(sys, dom), r, t);
      }
      forall t | 0 <= t < |r.states| ensures InDomains(r.states[t], dom) {
        if t > 0 {
          assert RunStep(Typed(sys, dom), r, t - 1);
        }
      }
    }
    if IsRun(sys, r) && TypedRun(r, dom) {
      forall t | 0 <= t < |r.inputs| ensures RunStep(Typed(sys, dom), r, t) {
        assert RunStep(sys, r, t);
        assert r.states[t] in r.states && r.states[t + 1] in r.states && r.inputs[t] in r.inputs;
      }
    }
    hide InDomains;
  }

  lemma TypedLasso(sys: LiveSystem<Assign, Assign>, dom: Domains, r: Run<Assign, Assign>, a: nat)
    ensures IsLasso(Typed(sys, dom), r, a) <==> IsLasso(sys, r, a) && TypedRun(r, dom)
  {
    TypedRunExact(sys, dom, r);
    if a < |r.inputs| && |r.states| == |r.inputs| + 1 {
      assert forall j | 0 <= j < |sys.justice| :: MetWithin(Typed(sys, dom), r, j, a, |r.inputs|) <==> MetWithin(sys, r, j, a, |r.inputs|);
    }
    hide InDomains;
    hide IsRun;
    hide TypedRun;
  }

  /** The valuations of finitely many variables over finite sorts. */
  ghost function Valuations(vs: set<Name>, dom: Domains): set<Assign> {
    if vs == {} then {map[]}
    else
      var v :| v in vs;
      set a, x | a in Valuations(vs - {v}, dom) && x in dom(v) :: a[v := x]
  }

  lemma {:induction false} ValuationsExact(vs: set<Name>, dom: Domains, a: Assign)
    ensures a in Valuations(vs, dom) <==> a.Keys == vs && InDomains(a, dom)
  {
    if vs == {} {
      assert a.Keys == {} ==> a == map[];
    } else {
      var v :| v in vs && Valuations(vs, dom) == set b, x | b in Valuations(vs - {v}, dom) && x in dom(v) :: b[v := x];
      if a.Keys == vs && InDomains(a, dom) {
        var b := a - {v};
        assert b.Keys == vs - {v};
        ValuationsExact(vs - {v}, dom, b);
        assert a == b[v := a[v]];
      }
      if a in Valuations(vs, dom) {
        var b, x :| b in Valuations(vs - {v}, dom) && x in dom(v) && a == b[v := x];
        ValuationsExact(vs - {v}, dom, b);
        assert a.Keys == b.Keys + {v};
      }
    }
  }

  /** Over finite sorts the runs are confined to finitely many states. */
  lemma TypedConfined(p: Parts, justice: seq<Term>, fun: Functions, dom: Domains)
    ensures Confined(Typed(LiveOf(p, justice, fun), dom), Valuations(p.statevars, dom))
  {
    var sys := Typed(LiveOf(p, justice, fun), dom);
    forall s: Assign | s.Keys == p.statevars && InDomains(s, dom) ensures s in Valuations(p.statevars, dom) {
      ValuationsExact(p.statevars, dom, s);
    }
    hide InDomains;
    hide Valuations;
    hide StepHolds;
    hide Truth;
  }
}
