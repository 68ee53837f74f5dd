/** The liveness-to-safety reduction: an oracle input guesses the start of a loop, the
    state there is saved, and the bad states are those that close a loop in which every
    justice condition was met. */
module LivenessToSafety {
  import opened Liveness

  /** A state of the instrumented system: the original state, whether a state was saved,
      the saved state, and which justice conditions were met since. */
  datatype XState<S> = XState(s: S, saved: bool, loop: S, just: seq<bool>)

  /** The original input together with the oracle input `save`. */
  datatype XInput<I> = XInput(i: I, save: bool)

  predicate XInit<S, I>(sys: LiveSystem<S, I>, x: XState<S>) {
    && sys.init(x.s)
    && !x.saved
    && |x.just| == |sys.justice|
    && forall j | 0 <= j < |x.just| :: !x.just[j]
  }

  predicate XStep<S(==), I>(sys: LiveSystem<S, I>, x: XState<S>, u: XInput<I>, y: XState<S>) {
    && sys.trans(x.s, u.i, y.s)
    && y.saved == (x.saved || u.save)
    && y.loop == (if u.save && !x.saved then x.s else x.loop)
    && |x.just| == |y.just| == |sys.justice|
    && forall j | 0 <= j < |sys.justice| ::
         y.just[j] == (x.just[j] || ((u.save || x.saved) && sys.justice[j](x.s, u.i)))
  }

  predicate XBad<S(==)>(x: XState<S>) {
    x.saved && x.s == x.loop && forall j | 0 <= j < |x.just| :: x.just[j]
  }

  /** A run of the instrumented system that ends in a bad state. */
  ghost predicate XStepAt<S(!new), I(!new)>(sys: LiveSystem<S, I>, xs: seq<XState<S>>, us: seq<XInput<I>>, t: int)
    requires 0 <= t < |us| && |xs| == |us| + 1
  {
    XStep(sys, xs[t], us[t], xs[t + 1])
  }

  ghost predicate XCex<S(!new), I(!new)>(sys: LiveSystem<S, I>, xs: seq<XState<S>>, us: seq<XInput<I>>) {
    && |xs| == |us| + 1
    && XInit(sys, xs[0]) && XBad(xs[|us|])
    && forall t {:trigger XStepAt(sys, xs, us, t)} | 0 <= t < |us| :: XStepAt(sys, xs, us, t)
  }

  /** The original run under an instrumented one. */
  function Underlying<S, I>(xs: seq<XState<S>>, us: seq<XInput<I>>): (r: Run<S, I>)
    ensures |r.states| == |xs| && |r.inputs| == |us|
    ensures forall t | 0 <= t < |xs| :: r.states[t] == xs[t].s
    ensures forall t | 0 <= t < |us| :: r.inputs[t] == us[t].i
  {
    Run(seq(|xs|, t requires 0 <= t < |xs| => xs[t].s), seq(|us|, t requires 0 <= t < |us| => us[t].i))
  }

  /** What the instrumentation has recorded at time t when a is the first saving step. */
  ghost predicate Recorded<S(!new), I(!new)>(sys: LiveSystem<S, I>, r: Run<S, I>, a: nat, t: nat, x: XState<S>)
    requires |r.states| == |r.inputs| + 1 && t <= |r.inputs| && a < |r.inputs|
  {
    && x.s == r.states[t]
    && x.saved == (t > a)
    && (t > a ==> x.loop == r.states[a])
    && |x.just| == |sys.justice|
    && forall j | 0 <= j < |sys.justice| :: x.just[j] == MetWithin(sys, r, j, a, t)
  }

  lemma MetOneMore<S(!new), I(!new)>(sys: LiveSystem<S, I>, r: Run<S, I>, j: int, a: nat, t: nat)
    requires |r.states| == |r.inputs| + 1 && t < |r.inputs| && 0 <= j < |sys.justice|
    ensures MetWithin(sys, r, j, a, t + 1) <==>
            MetWithin(sys, r, j, a, t) || (a <= t && sys.justice[j](r.states[t], r.inputs[t]))
  {
  }

  /** The first step at which the oracle saves; |us| if it never does. */
  function FirstSave<I>(us: seq<XInput<I>>): (a: nat)
    ensures a <= |us|
    ensures forall t | 0 <= t < a :: !us[t].save
    ensures a < |us| ==> us[a].save
  {
    if us == [] then 0
    else if us[0].save then 0
    else
      var b := FirstSave(us[1..]);
      assert forall t | 1 <= t < 1 + b :: us[t] == us[1..][t - 1];
      1 + b
  }

  lemma {:induction false} RunRecords<S(!new), I(!new)>(sys: LiveSystem<S, I>, xs: seq<XState<S>>, us: seq<XInput<I>>, a: nat, t: nat)
    requires XCex(sys, xs, us) && a == FirstSave(us) && t <= |us|
    ensures a < |us| ==> Recorded(sys, Underlying(xs, us), a, t, xs[t])
    ensures a == |us| ==> !xs[t].saved
  {
    if t > 0 {
      RunRecords(sys, xs, us, a, t - 1);
      assert XStepAt(sys, xs, us, t - 1);
      if a < |us| {
        forall j | 0 <= j < |sys.justice| ensures xs[t].just[j] == MetWithin(sys, Underlying(xs, us), j, a, t) {
          MetOneMore(sys, Underlying(xs, us), j, a, t - 1);
        }
      }
    }
  }

  /** A counterexample of the instrumented system contains a lasso of the original. */
  lemma CexIsLasso<S(!new), I(!new)>(sys: LiveSystem<S, I>, xs: seq<XState<S>>, us: seq<XInput<I>>) returns (r: Run<S, I>, a: nat)
    requires XCex(sys, xs, us)
    ensures IsLasso(sys, r, a) && r == Underlying(xs, us)
  {
    r, a := Underlying(xs, us), FirstSave(us);
    RunRecords(sys, xs, us, a, |us|);
    forall t | 0 <= t < |us| ensures RunStep(sys, r, t) {
      assert XStepAt(sys, xs, us, t);
    }
  }

  /** Saving at the start of the loop and nowhere else turns a lasso into a counterexample. */
  lemma LassoIsCex<S(!new), I(!new)>(sys: LiveSystem<S, I>, r: Run<S, I>, a: nat) returns (xs: seq<XState<S>>, us: seq<XInput<I>>)
    requires IsLasso(sys, r, a)
    ensures XCex(sys, xs, us) && forall x | x in xs :: x.loop == r.states[a] && x.s in r.states
    ensures forall u | u in us :: u.i in r.inputs
  {
    var b := |r.inputs|;
    us := seq(b, t requires 0 <= t < b => XInput(r.inputs[t], t == a));
    xs := seq(b + 1, t requires 0 <= t <= b => Record(sys, r, a, t));
    forall t | 0 <= t < b ensures XStepAt(sys, xs, us, t) {
      assert RunStep(sys, r, t);
      forall j | 0 <= j < |sys.justice|
        ensures xs[t + 1].just[j] == (xs[t].just[j] || ((us[t].save || xs[t].saved) && sys.justice[j](r.states[t], r.inputs[t])))
      {
        MetOneMore(sys, r, j, a, t);
      }
    }
  }

  ghost function Record<S(!new), I(!new)>(sys: LiveSystem<S, I>, r: Run<S, I>, a: nat, t: nat): (x: XState<S>)
    requires |r.states| == |r.inputs| + 1 && t <= |r.inputs| && a < |r.inputs|
    ensures Recorded(sys, r, a, t, x)
    ensures x.loop == r.states[a]
  {
    XState(r.states[t], t > a, r.states[a],
           seq(|sys.justice|, j requires 0 <= j < |sys.justice| => MetWithin(sys, r, j, a, t)))
  }

  /** The reduction is exact: the instrumented system can reach a bad state if and only if
      the original, on finitely many states, has an infinite run meeting every justice
      condition infinitely often. */
  lemma TranslationExact<S(!new), I(!new)>(sys: LiveSystem<S, I>, states: set<S>)
    requires Confined(sys, states)
    ensures (exists xs: seq<XState<S>>, us: seq<XInput<I>> :: XCex(sys, xs, us))
       <==> (exists f: nat -> S, g: nat -> I :: FairRun(sys, f, g))
  {
    FairRunIffLasso(sys, states);
    if xs: seq<XState<S>>, us: seq<XInput<I>> :| XCex(sys, xs, us) {
      var r, a := CexIsLasso(sys, xs, us);
    }
    if r: Run<S, I>, a: nat :| IsLasso(sys, r, a) {
      var xs, us := LassoIsCex(sys, r, a);
    }
  }
}
