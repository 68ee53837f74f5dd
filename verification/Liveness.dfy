/** Fair runs: what a liveness property talks about, and the finite lassos that stand for
    them. A system here keeps its inputs, because justice conditions may read them. */
module Liveness {
  import FixedPoint

  datatype LiveSystem<!S, !I> = LiveSystem(init: S -> bool, trans: (S, I, S) -> bool, justice: seq<(S, I) -> bool>)

  /** A finite run: one more state than inputs. */
  datatype Run<S, I> = Run(states: seq<S>, inputs: seq<I>)

  ghost predicate RunStep<S(!new), I(!new)>(sys: LiveSystem<S, I>, r: Run<S, I>, t: int)
    requires 0 <= t < |r.inputs| && |r.states| == |r.inputs| + 1
  {
    sys.trans(r.states[t], r.inputs[t], r.states[t + 1])
  }

  ghost predicate IsRun<S(!new), I(!new)>(sys: LiveSystem<S, I>, r: Run<S, I>) {
    && |r.states| == |r.inputs| + 1
    && sys.init(r.states[0])
    && forall t {:trigger RunStep(sys, r, t)} | 0 <= t < |r.inputs| :: RunStep(sys, r, t)
  }

  /** Condition j holds at some time in [a, b). */
  ghost predicate MetWithin<S(!new), I(!new)>(sys: LiveSystem<S, I>, r: Run<S, I>, j: int, a: int, b: int)
    requires 0 <= j < |sys.justice| && 0 <= a && b <= |r.inputs| && b <= |r.states|
  {
    exists t :: a <= t < b && sys.justice[j](r.states[t], r.inputs[t])
  }

  /** The run ends in the state it had at time a, and met every condition since. */
  ghost predicate IsLasso<S(!new), I(!new)>(sys: LiveSystem<S, I>, r: Run<S, I>, a: nat) {
    && IsRun(sys, r)
    && a < |r.inputs| && r.states[a] == r.states[|r.inputs|]
    && forall j | 0 <= j < |sys.justice| :: MetWithin(sys, r, j, a, |r.inputs|)
  }

  // ---------------------------------------------------------------- infinite runs

  ghost predicate InfStep<S(!new), I(!new)>(sys: LiveSystem<S, I>, f: nat -> S, g: nat -> I, t: nat) {
    sys.trans(f(t), g(t), f(t + 1))
  }

  ghost predicate MetFrom<S(!new), I(!new)>(sys: LiveSystem<S, I>, f: nat -> S, g: nat -> I, j: nat, n: nat)
    requires j < |sys.justice|
  {
    exists t: nat :: t >= n && sys.justice[j](f(t), g(t))
  }

  /** An infinite run that meets every justice condition infinitely often. */
  ghost predicate FairRun<S(!new), I(!new)>(sys: LiveSystem<S, I>, f: nat -> S, g: nat -> I) {
    && sys.init(f(0))
    && (forall t: nat {:trigger InfStep(sys, f, g, t)} :: InfStep(sys, f, g, t))
    && forall j: nat, n: nat {:trigger MetFrom(sys, f, g, j, n)} | j < |sys.justice| :: MetFrom(sys, f, g, j, n)
  }

  /** The position that time t has in a run looping from b back to a. */
  function Wrap(a: nat, b: nat, t: nat): (r: nat)
    requires a < b
    ensures r < b && (t < b ==> r == t) && (t >= a ==> r >= a)
    decreases t
  {
    if t < b then t else Wrap(a, b, t - (b - a))
  }

  lemma {:induction false} WrapNext(a: nat, b: nat, t: nat)
    requires a < b
    ensures Wrap(a, b, t + 1) == if Wrap(a, b, t) + 1 == b then a else Wrap(a, b, t) + 1
    decreases t
  {
    if t >= b {
      WrapNext(a, b, t - (b - a));
    }
  }

  /** A finite run whose last step can be redirected into the state at time a. */
  ghost predicate Closes<S(!new), I(!new)>(sys: LiveSystem<S, I>, r: Run<S, I>, a: nat) {
    && IsRun(sys, r) && a < |r.inputs|
    && sys.trans(r.states[|r.inputs| - 1], r.inputs[|r.inputs| - 1], r.states[a])
    && forall j | 0 <= j < |sys.justice| :: MetWithin(sys, r, j, a, |r.inputs|)
  }

  /** Repeating the loop for ever gives a fair run. */
  lemma LoopIsFair<S(!new), I(!new)>(sys: LiveSystem<S, I>, r: Run<S, I>, a: nat) returns (f: nat -> S, g: nat -> I)
    requires Closes(sys, r, a)
    ensures FairRun(sys, f, g)
  {
    var b := |r.inputs|;
    f := (t: nat) => r.states[Wrap(a, b, t)];
    g := (t: nat) => r.inputs[Wrap(a, b, t)];
    forall t: nat ensures InfStep(sys, f, g, t) {
      WrapNext(a, b, t);
      assert RunStep(sys, r, Wrap(a, b, t));
    }
    forall j: nat, n: nat | j < |sys.justice| ensures MetFrom(sys, f, g, j, n) {
      assert MetWithin(sys, r, j, a, b);
      var t :| a <= t < b && sys.justice[j](r.states[t], r.inputs[t]);
      var u := WrapReaches(a, b, t, n);
      assert sys.justice[j](f(u), g(u));
    }
  }

  /** Every loop position is visited at or after any time n. */
  lemma {:induction false} WrapReaches(a: nat, b: nat, t: nat, n: nat) returns (u: nat)
    requires a <= t < b
    ensures u >= n && u >= a && Wrap(a, b, u) == t
  {
    if n == 0 {
      u := t;
    } else {
      var v := WrapReaches(a, b, t, n - 1);
      u := v + (b - a);
    }
  }

  // ---------------------------------------------------------------- from a fair run to a lasso

  /** s is visited at or after every time. */
  ghost predicate Recurs<S(!new)>(f: nat -> S, s: S) {
    forall n: nat :: VisitedFrom(f, s, n)
  }

  ghost predicate VisitedFrom<S(!new)>(f: nat -> S, s: S, n: nat) {
    exists t: nat :: t >= n && f(t) == s
  }

  /** A time after which no state of rest is visited, if none of them recurs. */
  lemma {:induction false} LastVisit<S(!new)>(f: nat -> S, rest: set<S>) returns (n: nat)
    requires forall s | s in rest :: !Recurs(f, s)
    ensures forall t: nat | t >= n :: f(t) !in rest
  {
    if rest == {} {
      n := 0;
    } else {
      var s :| s in rest;
      var m := LastVisit(f, rest - {s});
      var k: nat :| !VisitedFrom(f, s, k);
      n := if m > k then m else k;
      forall t: nat | t >= n ensures f(t) !in rest {
        assert f(t) !in rest - {s};
      }
    }
  }

  /** An infinite run through finitely many states visits one of them again and again. */
  lemma SomeRecurs<S(!new)>(f: nat -> S, states: set<S>) returns (s: S)
    requires forall t: nat :: f(t) in states
    ensures s in states && Recurs(f, s)
  {
    if exists s :: s in states && Recurs(f, s) {
      s :| s in states && Recurs(f, s);
    } else {
      var n := LastVisit(f, states);
      s := f(n);
    }
  }

  /** A time by which the first m conditions have all been met since a. */
  lemma {:induction false} AllMetBy<S(!new), I(!new)>(sys: LiveSystem<S, I>, f: nat -> S, g: nat -> I, a: nat, m: nat)
    returns (b: nat)
    requires FairRun(sys, f, g) && m <= |sys.justice|
    ensures b > a
    ensures forall j | 0 <= j < m :: exists t: nat :: a <= t < b && sys.justice[j](f(t), g(t))
  {
    if m == 0 {
      b := a + 1;
    } else {
      var c := AllMetBy(sys, f, g, a, m - 1);
      assert MetFrom(sys, f, g, m - 1, a);
      var t: nat :| t >= a && sys.justice[m - 1](f(t), g(t));
      b := if c > t then c else t + 1;
    }
  }

  lemma FairRunHasLasso<S(!new), I(!new)>(sys: LiveSystem<S, I>, states: set<S>, f: nat -> S, g: nat -> I)
    returns (r: Run<S, I>, a: nat)
    requires FairRun(sys, f, g) && forall t: nat :: f(t) in states
    ensures IsLasso(sys, r, a)
  {
    var s := SomeRecurs(f, states);
    assert VisitedFrom(f, s, 0);
    a :| f(a) == s;
    var c := AllMetBy(sys, f, g, a, |sys.justice|);
    assert VisitedFrom(f, s, c);
    var b: nat :| b >= c && f(b) == s;
    r := Prefix(f, g, b);
    forall t | 0 <= t < b ensures RunStep(sys, r, t) {
      assert InfStep(sys, f, g, t);
    }
    forall j | 0 <= j < |sys.justice| ensures MetWithin(sys, r, j, a, b) {
      var t: nat :| a <= t < c && sys.justice[j](f(t), g(t));
      assert sys.justice[j](r.states[t], r.inputs[t]);
    }
  }

  function Prefix<S, I>(f: nat -> S, g: nat -> I, b: nat): (r: Run<S, I>)
    ensures |r.inputs| == b && |r.states| == b + 1
    ensures forall t | 0 <= t <= b :: r.states[t] == f(t)
    ensures forall t | 0 <= t < b :: r.inputs[t] == g(t)
  {
    Run(seq(b + 1, t requires 0 <= t => f(t)), seq(b, t requires 0 <= t => g(t)))
  }

  /** The lasso closes without redirecting anything. */
  lemma LassoCloses<S(!new), I(!new)>(sys: LiveSystem<S, I>, r: Run<S, I>, a: nat)
    requires IsLasso(sys, r, a)
    ensures Closes(sys, r, a)
  {
    assert RunStep(sys, r, |r.inputs| - 1);
  }

  /** Every step from a state of the set stays in it, and Init lies in it. */
  ghost predicate Confined<S(!new), I(!new)>(sys: LiveSystem<S, I>, states: set<S>) {
    && (forall s | sys.init(s) :: s in states)
    && forall s, i, t | s in states && sys.trans(s, i, t) :: t in states
  }

  lemma {:induction false} RunConfined<S(!new), I(!new)>(sys: LiveSystem<S, I>, states: set<S>, f: nat -> S, g: nat -> I, t: nat)
    requires FairRun(sys, f, g) && Confined(sys, states)
    ensures f(t) in states
  {
    if t > 0 {
      RunConfined(sys, states, f, g, t - 1);
      assert InfStep(sys, f, g, t - 1);
    }
  }

  /** On finitely many states, an infinite fair run exists exactly when a lasso does. */
  lemma FairRunIffLasso<S(!new), I(!new)>(sys: LiveSystem<S, I>, states: set<S>)
    requires Confined(sys, states)
    ensures (exists f: nat -> S, g: nat -> I :: FairRun(sys, f, g)) <==> (exists r: Run<S, I>, a: nat :: IsLasso(sys, r, a))
  {
    if f: nat -> S, g: nat -> I :| FairRun(sys, f, g) {
      forall t: nat ensures f(t) in states {
        RunConfined(sys, states, f, g, t);
      }
      var r, a := FairRunHasLasso(sys, states, f, g);
    }
    if r: Run<S, I>, a: nat :| IsLasso(sys, r, a) {
      LassoCloses(sys, r, a);
      var f, g := LoopIsFair(sys, r, a);
    }
  }
}
