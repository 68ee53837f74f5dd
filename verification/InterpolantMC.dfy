/** Interpolation-based model checking with frontier simplification, backward
    interpolants, property selection and eager unrolling as options. */
module InterpolantMC {
  import opened Systems
  import opened Solver

  /** B projected on the state at time 1: the states with a run of m transitions that is
      bad at one of the selected positions, position 1 being the state itself. */
  function BadWithin<S>(ts: System<S>, m: nat, positions: set<nat>): set<S> {
    set p | p in Paths(ts, m) && |p| == m + 1 && (exists j | j in positions :: 1 <= j <= m + 1 && p[j - 1] in ts.bad) :: p[0]
  }

  lemma BadWithinExact<S(!new)>(ts: System<S>, m: nat, positions: set<nat>, s: S)
    requires WellFormed(ts)
    ensures s in BadWithin(ts, m, positions) <==>
            exists p: seq<S>, j | j in positions :: IsPath(ts, p) && |p| == m + 1 && p[0] == s && 1 <= j <= m + 1 && p[j - 1] in ts.bad
  {
    if s in BadWithin(ts, m, positions) {
      var p :| p in Paths(ts, m) && |p| == m + 1 && (exists j | j in positions :: 1 <= j <= m + 1 && p[j - 1] in ts.bad) && p[0] == s;
      PathsSound(ts, m, p);
    }
    if p: seq<S>, j :| j in positions && IsPath(ts, p) && |p| == m + 1 && p[0] == s && 1 <= j <= m + 1 && p[j - 1] in ts.bad {
      PathsComplete(ts, p);
    }
  }

  lemma BadWithinStates<S(!new)>(ts: System<S>, m: nat, positions: set<nat>)
    requires WellFormed(ts)
    ensures BadWithin(ts, m, positions) <= ts.states
  {
    forall s | s in BadWithin(ts, m, positions) ensures s in ts.states {
      BadWithinExact(ts, m, positions, s);
    }
  }

  /** R after n interpolants. */
  function Reached<S>(ts: System<S>, itps: seq<set<S>>, n: nat): set<S>
    requires n <= |itps|
  {
    if n == 0 then ts.init else Reached(ts, itps, n - 1) + itps[n - 1]
  }

  /** The left end of the n-th query: the newest interpolant only, or everything reached. */
  function QuerySource<S>(ts: System<S>, frontier: bool, itps: seq<set<S>>, n: nat): set<S>
    requires n <= |itps|
  {
    if frontier then (if n == 0 then ts.init else itps[n - 1]) else Reached(ts, itps, n)
  }

  /** The interpolants one bound may produce: each covers the image of its query's source
      and excludes every state from which Bad is within the unrolling. */
  ghost predicate Legal<S>(ts: System<S>, frontier: bool, i: nat, positions: set<nat>, itps: seq<set<S>>)
    requires i >= 1
  {
    forall n | 0 <= n < |itps| ::
      && itps[n] <= ts.states
      && Maps(ts, QuerySource(ts, frontier, itps, n), itps[n])
      && itps[n] !! BadWithin(ts, i - 1, positions)
  }

  /** A converged run of one bound: only its last interpolant brings no new state. */
  ghost predicate Converged<S>(ts: System<S>, frontier: bool, i: nat, positions: set<nat>, itps: seq<set<S>>)
    requires i >= 1
  {
    && |itps| >= 1
    && Legal(ts, frontier, i, positions, itps)
    && (forall n | 0 <= n < |itps| - 1 :: !(itps[n] <= Reached(ts, itps, n)))
    && itps[|itps| - 1] <= Reached(ts, itps, |itps| - 1)
  }

  /** The invariant a converged run returns. */
  function Invar<S>(ts: System<S>, itps: seq<set<S>>): set<S>
    requires |itps| >= 1
  {
    Reached(ts, itps, |itps| - 1)
  }

  lemma {:induction false} ReachedExact<S>(ts: System<S>, itps: seq<set<S>>, n: nat, s: S)
    requires n <= |itps|
    ensures s in Reached(ts, itps, n) <==> s in ts.init || exists k :: 0 <= k < n && s in itps[k]
  {
    if n > 0 {
      ReachedExact(ts, itps, n - 1, s);
    }
  }

  lemma {:induction false} InitInReached<S>(ts: System<S>, itps: seq<set<S>>, n: nat)
    requires n <= |itps|
    ensures ts.init <= Reached(ts, itps, n)
  {
    if n > 0 {
      InitInReached(ts, itps, n - 1);
    }
  }

  lemma {:induction false} PrefixSame<S>(ts: System<S>, itps: seq<set<S>>, next: set<S>, n: nat)
    requires n <= |itps|
    ensures Reached(ts, itps + [next], n) == Reached(ts, itps, n)
    ensures QuerySource(ts, true, itps + [next], n) == QuerySource(ts, true, itps, n)
  {
    if n > 0 {
      PrefixSame(ts, itps, next, n - 1);
    }
  }

  lemma LegalStep<S>(ts: System<S>, frontier: bool, i: nat, positions: set<nat>, itps: seq<set<S>>, n: nat, s: S, t: S)
    requires i >= 1 && n < |itps| && Legal(ts, frontier, i, positions, itps)
    requires (s, t) in ts.trans && s in QuerySource(ts, frontier, itps, n)
    ensures t in itps[n]
  {
  }

  lemma LegalExcludes<S>(ts: System<S>, frontier: bool, i: nat, positions: set<nat>, itps: seq<set<S>>, n: nat, s: S)
    requires i >= 1 && n < |itps| && Legal(ts, frontier, i, positions, itps)
    requires s in BadWithin(ts, i - 1, positions)
    ensures s !in itps[n]
  {
  }

  /** No interpolant can hold the state i - 1 steps before a bad state. */
  lemma NotBeforeBad<S(!new)>(ts: System<S>, frontier: bool, i: nat, positions: set<nat>, itps: seq<set<S>>, n: nat, p: seq<S>)
    requires WellFormed(ts) && i >= 1 && Legal(ts, frontier, i, positions, itps) && n < |itps| && i in positions
    requires IsPath(ts, p) && |p| == i && p[|p| - 1] in ts.bad
    ensures p[0] !in itps[n]
  {
    BadWithinExact(ts, i - 1, positions, p[0]);
    assert itps[n] !! BadWithin(ts, i - 1, positions);
  }

  /** The k-th interpolant holds every state reached in exactly k steps. */
  lemma {:induction false} InterpolantHoldsStep<S>(ts: System<S>, frontier: bool, i: nat, positions: set<nat>, itps: seq<set<S>>, p: seq<S>, k: nat)
    requires i >= 1 && Legal(ts, frontier, i, positions, itps)
    requires IsPath(ts, p) && p[0] in ts.init && 1 <= k <= |itps| && k < |p|
    ensures p[k] in itps[k - 1]
  {
    assert StepAt(ts, p, k - 1);
    if k > 1 {
      InterpolantHoldsStep(ts, frontier, i, positions, itps, p, k - 1);
    }
    ReachedExact(ts, itps, k - 1, p[k - 1]);
    LegalStep(ts, frontier, i, positions, itps, k - 1, p[k - 1], p[k]);
  }

  /** The eager jump skips no counterexample: m interpolants at bound i exclude every
      counterexample of fewer than m + i transitions. */
  lemma EagerBound<S(!new)>(ts: System<S>, frontier: bool, i: nat, positions: set<nat>, itps: seq<set<S>>)
    requires WellFormed(ts) && i >= 1 && Legal(ts, frontier, i, positions, itps) && i in positions
    requires NoCexUpTo(ts, i - 1)
    ensures NoCexUpTo(ts, |itps| + i - 1)
  {
    forall p: seq<S> | IsCex(ts, p) ensures |p| - 1 > |itps| + i - 1 {
      var d := |p| - 1;
      if d <= |itps| + i - 1 {
        var k := d - i + 1;
        InterpolantHoldsStep(ts, frontier, i, positions, itps, p, k);
        DropPath(ts, p, k);
        NotBeforeBad(ts, frontier, i, positions, itps, k - 1, p[k..]);
      }
    }
  }

  /** Which interpolant holds the successors of a state of the returned set. */
  lemma LandingIndex<S>(ts: System<S>, frontier: bool, itps: seq<set<S>>, s: S) returns (n: nat)
    requires |itps| >= 1 && s in Invar(ts, itps)
    ensures n < |itps| && s in QuerySource(ts, frontier, itps, n)
  {
    var last := |itps| - 1;
    if !frontier {
      n := last;
    } else if s in ts.init {
      n := 0;
    } else {
      ReachedExact(ts, itps, last, s);
      var k :| 0 <= k < last && s in itps[k];
      n := k + 1;
    }
  }

  /** Every transition out of the returned set lands in an interpolant and in the set. */
  lemma StepsIntoInterpolant<S>(ts: System<S>, frontier: bool, i: nat, positions: set<nat>, itps: seq<set<S>>, s: S, t: S)
    returns (n: nat)
    requires i >= 1 && Converged(ts, frontier, i, positions, itps)
    requires (s, t) in ts.trans && s in Invar(ts, itps)
    ensures n < |itps| && t in itps[n] && t in Invar(ts, itps)
  {
    n := LandingIndex(ts, frontier, itps, s);
    LegalStep(ts, frontier, i, positions, itps, n, s, t);
    if n == |itps| - 1 {
      assert itps[n] <= Invar(ts, itps);
    } else {
      ReachedExact(ts, itps, |itps| - 1, t);
    }
  }

  /** A converged run proves safety, whether or not T is total: its set contains Init and
      is closed under T, and no reachable state is bad. */
  lemma ConvergedProves<S(!new)>(ts: System<S>, frontier: bool, i: nat, positions: set<nat>, itps: seq<set<S>>)
    requires WellFormed(ts) && i >= 1 && Converged(ts, frontier, i, positions, itps) && i in positions
    requires NoCexUpTo(ts, i - 1)
    ensures ts.init <= Invar(ts, itps) && Maps(ts, Invar(ts, itps), Invar(ts, itps))
    ensures Safe(ts)
  {
    var r := Invar(ts, itps);
    forall e | e in ts.trans && e.0 in r ensures e.1 in r {
      var n := StepsIntoInterpolant(ts, frontier, i, positions, itps, e.0, e.1);
    }
    InitInReached(ts, itps, |itps| - 1);
    forall p: seq<S> ensures !IsCex(ts, p) {
      if IsPath(ts, p) && p[0] in ts.init && |p| > i {
        EndsGood(ts, frontier, i, positions, itps, p);
      }
    }
  }

  lemma EndsGood<S(!new)>(ts: System<S>, frontier: bool, i: nat, positions: set<nat>, itps: seq<set<S>>, p: seq<S>)
    requires WellFormed(ts) && i >= 1 && Converged(ts, frontier, i, positions, itps) && i in positions
    requires IsPath(ts, p) && |p| > i && p[0] in Invar(ts, itps)
    requires Maps(ts, Invar(ts, itps), Invar(ts, itps))
    ensures p[|p| - 1] !in ts.bad
  {
    var k := |p| - i;
    PathStaysIn(ts, p, Invar(ts, itps), k - 1);
    assert StepAt(ts, p, k - 1);
    var n := StepsIntoInterpolant(ts, frontier, i, positions, itps, p[k - 1], p[k]);
    DropPath(ts, p, k);
    if p[|p| - 1] in ts.bad {
      NotBeforeBad(ts, frontier, i, positions, itps, n, p[k..]);
    }
  }

  // ------------------------------------------------ when does the returned set exclude Bad?

  /** s has a run of m transitions. */
  ghost predicate CanRun<S(!new)>(ts: System<S>, s: S, m: nat) {
    exists p: seq<S> :: IsPath(ts, p) && |p| == m + 1 && p[0] == s
  }

  /** Everything reachable from a. */
  ghost function Closure<S(!new)>(ts: System<S>, a: set<S>): set<S> {
    set s | s in ts.states && exists p: seq<S> :: IsPath(ts, p) && p[0] in a && p[|p| - 1] == s
  }

  lemma ClosureClosed<S(!new)>(ts: System<S>, a: set<S>)
    requires WellFormed(ts) && a <= ts.states
    ensures a <= Closure(ts, a) && Maps(ts, Closure(ts, a), Closure(ts, a))
  {
    forall s | s in a ensures s in Closure(ts, a) {
      assert IsPath(ts, [s]) && [s][0] in a;
    }
    forall e | e in ts.trans && e.0 in Closure(ts, a) ensures e.1 in Closure(ts, a) {
      var p: seq<S> :| IsPath(ts, p) && p[0] in a && p[|p| - 1] == e.0;
      AppendPath(ts, p, e.1);
      assert (p + [e.1])[0] in a;
    }
  }

  lemma CanRunFrom<S(!new)>(ts: System<S>, p: seq<S>, m: nat)
    requires IsPath(ts, p) && |p| > m
    ensures CanRun(ts, p[0], m)
  {
    SubPath(ts, p, 0, m + 1);
    assert p[..m + 1][0] == p[0];
  }

  /** On a safe system a state that can reach a bad prefix is neither reachable nor a
      descendant of a state that cannot run m steps. */
  lemma ClosureAvoidsBad<S(!new)>(ts: System<S>, b: S, m: nat, positions: set<nat>)
    requires WellFormed(ts) && Safe(ts) && b in ts.states && !CanRun(ts, b, m)
    ensures Closure(ts, ts.init + {b}) !! BadWithin(ts, m, positions)
  {
    forall s | s in Closure(ts, ts.init + {b}) ensures s !in BadWithin(ts, m, positions) {
      BadWithinExact(ts, m, positions, s);
      var p: seq<S> :| IsPath(ts, p) && p[0] in ts.init + {b} && p[|p| - 1] == s;
      forall q: seq<S>, j | j in positions && IsPath(ts, q) && |q| == m + 1 && q[0] == s && 1 <= j <= m + 1
        ensures q[j - 1] !in ts.bad
      {
        var r := JoinPaths(ts, p, q);
        if p[0] in ts.init {
          SubPath(ts, r, 0, |p| - 1 + j);
          assert !IsCex(ts, r[..|p| - 1 + j]);
        } else {
          CanRunFrom(ts, r, m);
        }
      }
    }
  }

  lemma JoinPaths<S>(ts: System<S>, p: seq<S>, q: seq<S>) returns (r: seq<S>)
    requires IsPath(ts, p) && IsPath(ts, q) && p[|p| - 1] == q[0]
    ensures IsPath(ts, r) && |r| == |p| + |q| - 1 && r[0] == p[0]
    ensures forall j | 0 <= j < |q| :: r[|p| - 1 + j] == q[j]
  {
    if |q| == 1 {
      r := p;
    } else {
      DropPath(ts, q, 1);
      assert StepAt(ts, q, 0);
      ConcatPath(ts, p, q[1..]);
      r := p + q[1..];
    }
  }

  /** The returned set excludes Bad for every legal choice of interpolants exactly when
      each bad state can run the i - 1 transitions the unrolling demands of it. Where a bad
      state deadlocks sooner, a legal run returns a set that contains it. */
  lemma InvarExcludesBadIff<S(!new)>(ts: System<S>, frontier: bool, i: nat, positions: set<nat>)
    requires WellFormed(ts) && Safe(ts) && i >= 1 && 1 in positions && i in positions
    ensures (forall itps | |itps| >= 1 && Converged(ts, frontier, i, positions, itps) :: Invar(ts, itps) !! ts.bad)
       <==> forall b | b in ts.bad :: CanRun(ts, b, i - 1)
  {
    if forall b | b in ts.bad :: CanRun(ts, b, i - 1) {
      forall itps | |itps| >= 1 && Converged(ts, frontier, i, positions, itps) ensures Invar(ts, itps) !! ts.bad {
        RunningBadExcluded(ts, frontier, i, positions, itps);
      }
    } else {
      var b :| b in ts.bad && !CanRun(ts, b, i - 1);
      var itps := DeadBadAdmitted(ts, frontier, i, positions, b);
      assert b in Invar(ts, itps);
    }
  }

  /** A legal, converged run that takes in a bad state which deadlocks within i - 1 steps. */
  lemma DeadBadAdmitted<S(!new)>(ts: System<S>, frontier: bool, i: nat, positions: set<nat>, b: S)
    returns (itps: seq<set<S>>)
    requires WellFormed(ts) && Safe(ts) && i >= 1 && b in ts.bad && !CanRun(ts, b, i - 1)
    ensures |itps| >= 1 && Converged(ts, frontier, i, positions, itps) && b in Invar(ts, itps)
  {
    var d := Closure(ts, ts.init + {b});
    ClosureClosed(ts, ts.init + {b});
    ClosureAvoidsBad(ts, b, i - 1, positions);
    SafeInit(ts);
    itps := [d, d];
    TwiceConverges(ts, frontier, i, positions, d, b);
  }

  lemma TwiceConverges<S>(ts: System<S>, frontier: bool, i: nat, positions: set<nat>, d: set<S>, b: S)
    requires i >= 1 && b in d && b !in ts.init && ts.init <= d <= ts.states
    requires Maps(ts, d, d) && d !! BadWithin(ts, i - 1, positions)
    ensures Converged(ts, frontier, i, positions, [d, d]) && b in Invar(ts, [d, d])
  {
    var itps := [d, d];
    assert Reached(ts, itps, 0) == ts.init && Reached(ts, itps, 1) == ts.init + d;
    hide BadWithin;
  }

  lemma RunningBadExcluded<S(!new)>(ts: System<S>, frontier: bool, i: nat, positions: set<nat>, itps: seq<set<S>>)
    requires WellFormed(ts) && Safe(ts) && i >= 1 && 1 in positions
    requires Converged(ts, frontier, i, positions, itps)
    requires forall b {:trigger CanRun(ts, b, i - 1)} | b in ts.bad :: CanRun(ts, b, i - 1)
    ensures Invar(ts, itps) !! ts.bad
  {
    SafeInit(ts);
    forall b | b in ts.bad ensures b !in Invar(ts, itps) {
      assert CanRun(ts, b, i - 1);
      RunningStateExcluded(ts, frontier, i, positions, itps, b);
    }
  }

  lemma RunningStateExcluded<S(!new)>(ts: System<S>, frontier: bool, i: nat, positions: set<nat>, itps: seq<set<S>>, b: S)
    requires WellFormed(ts) && i >= 1 && 1 in positions && |itps| >= 1 && Legal(ts, frontier, i, positions, itps)
    requires b in ts.bad && b !in ts.init && CanRun(ts, b, i - 1)
    ensures b !in Invar(ts, itps)
  {
    BadIsBadWithin(ts, b, i - 1, positions);
    forall n | 0 <= n < |itps| ensures b !in itps[n] {
      LegalExcludes(ts, frontier, i, positions, itps, n, b);
    }
    ReachedExact(ts, itps, |itps| - 1, b);
  }

  lemma BadIsBadWithin<S(!new)>(ts: System<S>, b: S, m: nat, positions: set<nat>)
    requires WellFormed(ts) && b in ts.bad && CanRun(ts, b, m) && 1 in positions
    ensures b in BadWithin(ts, m, positions)
  {
    var p: seq<S> :| IsPath(ts, p) && |p| == m + 1 && p[0] == b;
    var j: nat := 1;
    assert j in positions && 1 <= j <= m + 1 && p[j - 1] in ts.bad;
    BadWithinExact(ts, m, positions, b);
  }

  lemma {:induction false} RightTotalRuns<S(!new)>(ts: System<S>, s: S, m: nat) returns (p: seq<S>)
    requires WellFormed(ts) && RightTotal(ts) && s in ts.states
    ensures IsPath(ts, p) && |p| == m + 1 && p[0] == s
  {
    if m == 0 {
      p := [s];
    } else {
      var q := RightTotalRuns(ts, s, m - 1);
      assert HasSuccessor(ts, q[|q| - 1]);
      var e :| e in ts.trans && e.0 == q[|q| - 1];
      AppendPath(ts, q, e.1);
      p := q + [e.1];
    }
  }

  // ---------------------------------------------------------------- bounds that do not decide

  /** The interpolants of a bound after which a query was satisfiable: legal, each with a state not
      reached before, and from the newest of them the next step may run into Bad. */
  ghost predicate Inconclusive<S>(ts: System<S>, frontier: bool, i: nat, positions: set<nat>, itps: seq<set<S>>)
    requires i >= 1
  {
    && |itps| >= 1
    && Legal(ts, frontier, i, positions, itps)
    && (forall n | 0 <= n < |itps| :: !(itps[n] <= Reached(ts, itps, n)))
    && !(Image(ts, QuerySource(ts, frontier, itps, |itps|)) !! BadWithin(ts, i - 1, positions))
  }

  /** What reaches Bad reaches it within as many states as there are. */
  lemma ShortRunToBad<S(!new)>(ts: System<S>, c: seq<S>) returns (p: seq<S>)
    requires WellFormed(ts) && IsPath(ts, c) && c[|c| - 1] in ts.bad
    ensures IsPath(ts, p) && p[0] == c[0] && p[|p| - 1] in ts.bad && |p| <= |ts.states|
  {
    var from := ts.(init := {c[0]});
    SamePath(ts, from, c);
    p := ShortestExists(from, c);
    ShortestFits(from, p);
    SamePath(from, ts, p);
  }

  /** Runs do not depend on Init. */
  lemma SamePath<S>(a: System<S>, b: System<S>, p: seq<S>)
    requires a.states == b.states && a.trans == b.trans && IsPath(a, p)
    ensures IsPath(b, p)
  {
    forall i | 0 <= i < |p| - 1 ensures StepAt(b, p, i) {
      assert StepAt(a, p, i);
    }
  }

  /** With right-total T, all positions up to i and i at least the number of states, the states the
      query asks for are all that can reach Bad. */
  lemma AllThatReachBad<S(!new)>(ts: System<S>, i: nat, positions: set<nat>, s: S, t: S)
    requires WellFormed(ts) && RightTotal(ts) && i >= |ts.states| && i >= 1
    requires forall j | 1 <= j <= i :: j in positions
    requires (s, t) in ts.trans && t in BadWithin(ts, i - 1, positions)
    ensures s in BadWithin(ts, i - 1, positions)
  {
    BadWithinExact(ts, i - 1, positions, t);
    BadWithinExact(ts, i - 1, positions, s);
    hide BadWithin;
    var q: seq<S>, j: nat :| j in positions && IsPath(ts, q) && |q| == i && q[0] == t && 1 <= j <= i && q[j - 1] in ts.bad;
    SubPath(ts, q, 0, j);
    ConcatPath(ts, [s], q[0..j]);
    var p := ShortRunToBad(ts, [s] + q[0..j]);
    var w := RunOn(ts, p, i);
    var k: nat := |p|;
    assert w[k - 1] == p[k - 1];
    assert k in positions && IsPath(ts, w) && |w| == i - 1 + 1 && w[0] == s && 1 <= k <= i - 1 + 1 && w[k - 1] in ts.bad;
  }

  /** A run goes on for as long as wanted. */
  lemma RunOn<S(!new)>(ts: System<S>, p: seq<S>, n: nat) returns (q: seq<S>)
    requires WellFormed(ts) && RightTotal(ts) && IsPath(ts, p) && |p| <= n
    ensures IsPath(ts, q) && |q| == n && p <= q
  {
    var r := RightTotalRuns(ts, p[|p| - 1], n - |p|);
    q := p;
    if |r| > 1 {
      DropPath(ts, r, 1);
      assert StepAt(ts, r, 0);
      ConcatPath(ts, p, r[1..]);
      q := p + r[1..];
    }
  }

  /** So no bound beyond the number of states is inconclusive. */
  lemma ConclusiveFrom<S(!new)>(ts: System<S>, frontier: bool, i: nat, positions: set<nat>, itps: seq<set<S>>)
    requires WellFormed(ts) && RightTotal(ts) && i >= |ts.states| && i >= 1
    requires forall j | 1 <= j <= i :: j in positions
    ensures !Inconclusive(ts, frontier, i, positions, itps)
  {
    if |itps| >= 1 && Legal(ts, frontier, i, positions, itps) {
      var b := BadWithin(ts, i - 1, positions);
      forall t | t in Image(ts, QuerySource(ts, frontier, itps, |itps|)) ensures t !in b {
        var e :| e in ts.trans && e.0 in QuerySource(ts, frontier, itps, |itps|) && e.1 == t;
        NotOutside(ts, frontier, i, positions, itps, e.0, t);
      }
    }
  }

  lemma NotOutside<S(!new)>(ts: System<S>, frontier: bool, i: nat, positions: set<nat>, itps: seq<set<S>>, s: S, t: S)
    requires WellFormed(ts) && RightTotal(ts) && i >= |ts.states| && i >= 1
    requires forall j | 1 <= j <= i :: j in positions
    requires |itps| >= 1 && Legal(ts, frontier, i, positions, itps)
    requires (s, t) in ts.trans && s in QuerySource(ts, frontier, itps, |itps|)
    ensures t !in BadWithin(ts, i - 1, positions)
  {
    if s in QuerySource(ts, frontier, itps, 0) {
      LegalStep(ts, frontier, i, positions, itps, 0, s, t);
      assert itps[0] !! BadWithin(ts, i - 1, positions);
    } else {
      ReachedExact(ts, itps, |itps|, s);
      var k :| 0 <= k < |itps| && s in itps[k];
      assert itps[k] !! BadWithin(ts, i - 1, positions);
      if t in BadWithin(ts, i - 1, positions) {
        AllThatReachBad(ts, i, positions, s, t);
      }
    }
  }

  /** What one inconclusive bound worked with. */
  datatype Round<!S> = Round(i: nat, positions: set<nat>, itps: seq<set<S>>)

  // ---------------------------------------------------------------- the engine

  class InterpolantMC<S(==, !new)> {
    const ts: System<S>
    const useFrontierSimpl: bool
    const firstAndLastProps: bool
    const unrollEagerly: bool
    const interpBackward: bool
    /** Number of transitions conjoined in transB_, which starts at time 1. */
    var transB: nat
    /** The times whose bad states are disjuncts of bad_disjuncts_. */
    var badDisjuncts: set<nat>
    var reachedK: int
    var concreteCex: bool
    var trace: seq<S>
    var invar: set<S>
    var contextLevel: nat

    ghost predicate Valid()
      reads this
    {
      && WellFormed(ts)
      && reachedK >= -1
      && transB == (if reachedK < 0 then 0 else reachedK)
      && (reachedK >= 1 ==> 1 in badDisjuncts)
      && (!firstAndLastProps && !unrollEagerly ==> forall j | 1 <= j <= reachedK :: j in badDisjuncts)
      && NoCexUpTo(ts, reachedK)
      && contextLevel == (if concreteCex then 1 else 0)
      && (concreteCex ==> IsCex(ts, trace) && |trace| == reachedK + 2)
    }

    constructor (ts: System<S>, useFrontierSimpl: bool, firstAndLastProps: bool, unrollEagerly: bool, interpBackward: bool)
      requires WellFormed(ts)
      ensures Valid() && this.ts == ts && reachedK == -1 && !concreteCex
    {
      this.ts := ts;
      this.useFrontierSimpl, this.firstAndLastProps := useFrontierSimpl, firstAndLastProps;
      this.unrollEagerly, this.interpBackward := unrollEagerly, interpBackward;
      transB, badDisjuncts, reachedK := 0, {}, -1;
      concreteCex, contextLevel, trace, invar := false, 0, [], {};
    }

    /** The positions in use after some rounds from the positions at the start. */
    ghost function PositionsAfter(positions: set<nat>, rounds: seq<Round<S>>): set<nat> {
      if rounds == [] then positions else rounds[|rounds| - 1].positions
    }

    /** The bound reached after them from the bound at the start. */
    ghost function BoundAfter(from: int, rounds: seq<Round<S>>): int {
      if rounds == [] then from
      else
        var l := rounds[|rounds| - 1];
        if unrollEagerly then |l.itps| + l.i - 1 else l.i
    }

    /** The rounds follow each other as the options have it, and each was inconclusive. */
    ghost predicate Followed(from: int, positions: set<nat>, rounds: seq<Round<S>>) {
      forall n | 0 <= n < |rounds| :: RoundOk(from, positions, rounds, n)
    }

    ghost predicate RoundOk(from: int, positions: set<nat>, rounds: seq<Round<S>>, n: int)
      requires 0 <= n < |rounds|
    {
      var l := rounds[n];
      && l.i >= 1 && l.i == BoundAfter(from, rounds[..n]) + 1
      && l.positions == (if firstAndLastProps then {1, l.i} else PositionsAfter(positions, rounds[..n]) + {l.i})
      && Inconclusive(ts, useFrontierSimpl, l.i, l.positions, l.itps)
    }

    lemma OneMoreRound(from: int, positions: set<nat>, rounds: seq<Round<S>>, l: Round<S>)
      requires Followed(from, positions, rounds) && l.i >= 1 && l.i == BoundAfter(from, rounds) + 1
      requires l.positions == if firstAndLastProps then {1, l.i} else PositionsAfter(positions, rounds) + {l.i}
      requires Inconclusive(ts, useFrontierSimpl, l.i, l.positions, l.itps)
      ensures Followed(from, positions, rounds + [l])
    {
      var more := rounds + [l];
      forall n | 0 <= n < |more| ensures RoundOk(from, positions, more, n) {
        if n < |rounds| {
          assert RoundOk(from, positions, rounds, n);
          assert more[..n] == rounds[..n];
        } else {
          assert more[..n] == rounds;
        }
      }
    }

    /** True is sound for every T; the set handed out as the invariant is one when T is
        right-total, and in general contains Init and is closed under T. False comes
        with a shortest counterexample. Unknown means that every bound tried was inconclusive, which
        with all properties, a right-total T and no eager unrolling is impossible from the number of
        states on. */
    method CheckUntil(k: int) returns (r: ProverResult, ghost rounds: seq<Round<S>>)
      requires Valid() && !concreteCex
      modifies this
      ensures Valid()
      ensures r.True? ==> Safe(ts) && ts.init <= invar && Maps(ts, invar, invar)
      ensures r.True? && RightTotal(ts) ==> Invariant(ts, invar)
      ensures r.False? ==> ShortestCex(ts, trace)
      ensures r.Unknown? ==> NoCexUpTo(ts, k) && reachedK >= k
      ensures r.Unknown? ==> Followed(if old(reachedK) < 0 then 0 else old(reachedK), old(badDisjuncts), rounds)
      ensures r.Unknown? && k >= 0 ==> reachedK == BoundAfter(if old(reachedK) < 0 then 0 else old(reachedK), rounds)
      ensures r.Unknown? && RightTotal(ts) && !firstAndLastProps && !unrollEagerly ==>
                k < |ts.states| || k <= 0 || k <= old(reachedK)
    {
      hide Followed;
      hide Inconclusive;
      hide PositionsAfter;
      hide BoundAfter;
      rounds := [];
      ghost var from := if reachedK < 0 then 0 else reachedK;
      NoRounds(from, badDisjuncts);
      var i := 0;
      while i <= k
        invariant Valid() && !concreteCex && i >= 0 && reachedK >= i - 1
        invariant reachedK >= old(reachedK)
        invariant Followed(from, old(badDisjuncts), rounds) && badDisjuncts == PositionsAfter(old(badDisjuncts), rounds)
        invariant if i == 0 && old(reachedK) < 0 then rounds == [] && reachedK == -1 else reachedK == BoundAfter(from, rounds)
        invariant RightTotal(ts) && !firstAndLastProps && !unrollEagerly ==> reachedK < |ts.states| || reachedK <= 0 || reachedK <= old(reachedK)
      {
        ghost var before := reachedK;
        var proved;
        ghost var itps;
        proved, itps := Step(i);
        if proved {
          return True, rounds;
        } else if concreteCex {
          return False, rounds;
        }
        if i > before && i > 0 {
          ghost var l := Round(i, badDisjuncts, itps);
          OneMoreRound(from, old(badDisjuncts), rounds, l);
          AfterRound(from, old(badDisjuncts), rounds, l);
          rounds := rounds + [l];
        }
        i := i + 1;
      }
      r := Unknown;
    }

    lemma NoRounds(from: int, positions: set<nat>)
      ensures Followed(from, positions, []) && PositionsAfter(positions, []) == positions && BoundAfter(from, []) == from
    {
    }

    lemma AfterRound(from: int, positions: set<nat>, rounds: seq<Round<S>>, l: Round<S>)
      ensures PositionsAfter(positions, rounds + [l]) == l.positions
      ensures BoundAfter(from, rounds + [l]) == if unrollEagerly then |l.itps| + l.i - 1 else l.i
    {
    }

    method Step(i: nat) returns (proved: bool, ghost itps: seq<set<S>>)
      requires Valid() && !concreteCex && i <= reachedK + 1
      modifies this
      ensures Valid()
      ensures proved ==> !concreteCex && Safe(ts) && ts.init <= invar && Maps(ts, invar, invar)
      ensures proved && RightTotal(ts) ==> Invariant(ts, invar)
      ensures concreteCex ==> ShortestCex(ts, trace)
      ensures !proved && !concreteCex ==> reachedK >= i
      ensures i <= old(reachedK) ==> !proved && !concreteCex && reachedK == old(reachedK)
      ensures i <= old(reachedK) || i == 0 ==> badDisjuncts == old(badDisjuncts)
      ensures i == 0 && !concreteCex && old(reachedK) < 0 ==> !proved && reachedK == 0
      ensures i > old(reachedK) && i > 0 ==> badDisjuncts == if firstAndLastProps then {1, i} else old(badDisjuncts) + {i}
      ensures !proved && !concreteCex && i > old(reachedK) && i > 0 ==>
                Inconclusive(ts, useFrontierSimpl, i, badDisjuncts, itps) && reachedK == if unrollEagerly then |itps| + i - 1 else i
      ensures !proved && !concreteCex && i > old(reachedK) && RightTotal(ts) && !firstAndLastProps && !unrollEagerly ==>
                i == 0 || i < |ts.states|
    {
      hide Inconclusive;
      itps := [];
      if i <= reachedK {
        return false, itps;
      }
      if i == 0 {
        Step0();
        return false, itps;
      }
      badDisjuncts := if firstAndLastProps then {1, i} else badDisjuncts + {i};
      proved, itps := Interpolate(i);
      if !proved && !concreteCex {
        LegalRounds(i, itps);
      }
      if RightTotal(ts) && !firstAndLastProps && !unrollEagerly && i >= |ts.states| {
        ConclusiveFrom(ts, useFrontierSimpl, i, badDisjuncts, itps);
      }
    }

    method Step0()
      requires Valid() && !concreteCex && reachedK == -1
      modifies this
      ensures Valid()
      ensures concreteCex ==> ShortestCex(ts, trace)
      ensures !concreteCex ==> reachedK == 0
      ensures badDisjuncts == old(badDisjuncts)
    {
      contextLevel := contextLevel + 1;
      var r := CheckSat(ts.init * ts.bad);
      match r
      case None =>
        assert forall s | s in ts.init && s in ts.bad :: s in ts.init * ts.bad;
        reachedK := 0;
        contextLevel := contextLevel - 1;
      case Some(s) =>
        concreteCex, trace := true, [s];
    }

    /** One bound: collects interpolants until they converge, until the first query gives a
        counterexample, or until a later query is satisfiable and the bound must grow. */
    method Interpolate(i: nat) returns (proved: bool, ghost itps: seq<set<S>>)
      requires Valid() && !concreteCex && i == reachedK + 1 >= 1
      requires 1 in badDisjuncts && i in badDisjuncts
      modifies this
      ensures Valid()
      ensures proved ==> !concreteCex && Safe(ts) && ts.init <= invar && Maps(ts, invar, invar)
      ensures proved && RightTotal(ts) ==> Invariant(ts, invar)
      ensures concreteCex ==> ShortestCex(ts, trace)
      ensures badDisjuncts == old(badDisjuncts)
      ensures !proved && !concreteCex ==>
                Inconclusive(ts, useFrontierSimpl, i, badDisjuncts, itps) && reachedK == if unrollEagerly then |itps| + i - 1 else i
    {
      hide Collected;
      hide Legal;
      hide Inconclusive;
      hide Converged;
      NothingCollected(i);
      var b := BadWithin(ts, transB, badDisjuncts);
      BadWithinStates(ts, transB, badDisjuncts);
      var reached, ri := ts.init, ts.init;
      var gotInterpolant, interpCount := true, 0;
      itps := [];
      while gotInterpolant
        invariant Valid() && transB == i - 1 && !concreteCex && reachedK == i - 1
        invariant badDisjuncts == old(badDisjuncts)
        invariant Collected(i, itps, reached, ri) && |itps| == interpCount
        invariant !gotInterpolant ==> Inconclusive(ts, useFrontierSimpl, i, badDisjuncts, itps)
        decreases ts.states - reached, gotInterpolant
      {
        CollectedStates(i, itps, reached, ri);
        var source := if useFrontierSimpl then ri else reached;
        var answer := Interpolant(source, b);
        if answer.Some? {
          interpCount := interpCount + 1;
          CollectNext(i, itps, reached, ri, answer.value);
          itps := itps + [answer.value];
          ri := answer.value;
          var converged := HasConverged(ri, reached);
          if converged {
            ReturnProof(i, itps);
            invar := reached;
            return true, itps;
          }
          ghost var s :| s in ri && s !in reached;
          assert s in ts.states - reached;
          reached := reached + ri;
        } else if interpCount == 0 {
          ghost var p := CexThroughB(i);
          Replay(i, p);
          return false, itps;
        } else {
          LastQueryFails(i, itps, reached, ri);
          gotInterpolant := false;
        }
      }
      LegalRounds(i, itps);
      EagerBound(ts, useFrontierSimpl, i, badDisjuncts, itps);
      if unrollEagerly {
        transB := transB + interpCount;
        reachedK := interpCount + i - 1;
      } else {
        transB := transB + 1;
        reachedK := i;
      }
      proved := false;
    }

    /** Queries the interpolator in either direction; a backward interpolant is negated. */
    method Interpolant(source: set<S>, b: set<S>) returns (r: Option<set<S>>)
      requires WellFormed(ts) && source <= ts.states && b <= ts.states
      ensures r.None? <==> !(Image(ts, source) !! b)
      ensures r.Some? ==> Maps(ts, source, r.value) && r.value !! b && r.value <= ts.states
    {
      if interpBackward {
        r := GetInterpolant(ts.states, b, Image(ts, source));
        if r.Some? {
          r := Some(ts.states - r.value);
        }
      } else {
        r := GetInterpolant(ts.states, Image(ts, source), b);
      }
    }

    method HasConverged(newItp: set<S>, reached: set<S>) returns (converged: bool)
      ensures converged <==> newItp <= reached
    {
      var r := CheckSat(newItp - reached);
      assert forall s | s in newItp :: s in reached || s in newItp - reached;
      converged := r.None?;
    }

    /** What the loop has gathered: legal interpolants, each with a new state. */
    ghost predicate Collected(i: nat, itps: seq<set<S>>, reached: set<S>, ri: set<S>)
      requires i >= 1
      reads this
    {
      && Legal(ts, useFrontierSimpl, i, badDisjuncts, itps)
      && reached == Reached(ts, itps, |itps|) <= ts.states
      && ri == (if itps == [] then ts.init else itps[|itps| - 1])
      && forall n | 0 <= n < |itps| :: !(itps[n] <= Reached(ts, itps, n))
    }

    lemma NothingCollected(i: nat)
      requires WellFormed(ts) && i >= 1
      ensures Collected(i, [], ts.init, ts.init)
    {
    }

    lemma CollectedStates(i: nat, itps: seq<set<S>>, reached: set<S>, ri: set<S>)
      requires WellFormed(ts) && i >= 1 && Collected(i, itps, reached, ri)
      ensures reached <= ts.states && ri <= ts.states && (itps == [] ==> ri == reached == ts.init)
    {
    }

    lemma LastQueryFails(i: nat, itps: seq<set<S>>, reached: set<S>, ri: set<S>)
      requires i >= 1 && Collected(i, itps, reached, ri) && |itps| >= 1
      requires !(Image(ts, if useFrontierSimpl then ri else reached) !! BadWithin(ts, i - 1, badDisjuncts))
      ensures Inconclusive(ts, useFrontierSimpl, i, badDisjuncts, itps)
    {
    }

    lemma LegalRounds(i: nat, itps: seq<set<S>>)
      requires i >= 1 && Inconclusive(ts, useFrontierSimpl, i, badDisjuncts, itps)
      ensures |itps| >= 1 && Legal(ts, useFrontierSimpl, i, badDisjuncts, itps)
    {
    }

    lemma CollectNext(i: nat, itps: seq<set<S>>, reached: set<S>, ri: set<S>, next: set<S>)
      requires i >= 1 && Collected(i, itps, reached, ri) && next <= ts.states
      requires Maps(ts, if useFrontierSimpl then ri else reached, next)
      requires next !! BadWithin(ts, i - 1, badDisjuncts)
      ensures next <= reached ==> Converged(ts, useFrontierSimpl, i, badDisjuncts, itps + [next])
      ensures next <= reached ==> Invar(ts, itps + [next]) == reached
      ensures !(next <= reached) ==> Collected(i, itps + [next], reached + next, next)
    {
      var longer := itps + [next];
      PrefixSame(ts, itps, next, |itps|);
      forall n | 0 <= n < |longer|
        ensures longer[n] <= ts.states
        ensures Maps(ts, QuerySource(ts, useFrontierSimpl, longer, n), longer[n])
        ensures longer[n] !! BadWithin(ts, i - 1, badDisjuncts)
        ensures longer[n] <= Reached(ts, longer, n) ==> n == |itps| && next <= reached
      {
        PrefixSame(ts, itps, next, n);
        if n < |itps| {
          assert Maps(ts, QuerySource(ts, useFrontierSimpl, itps, n), itps[n]);
        }
      }
    }

    lemma ReturnProof(i: nat, itps: seq<set<S>>)
      requires Valid() && i == reachedK + 1 >= 1 && 1 in badDisjuncts && i in badDisjuncts
      requires |itps| >= 1 && Converged(ts, useFrontierSimpl, i, badDisjuncts, itps)
      ensures Safe(ts) && ts.init <= Invar(ts, itps) && Maps(ts, Invar(ts, itps), Invar(ts, itps))
      ensures RightTotal(ts) ==> Invariant(ts, Invar(ts, itps))
    {
      ConvergedProves(ts, useFrontierSimpl, i, badDisjuncts, itps);
      if RightTotal(ts) {
        forall b | b in ts.bad ensures CanRun(ts, b, i - 1) {
          var p := RightTotalRuns(ts, b, i - 1);
        }
        RunningBadExcluded(ts, useFrontierSimpl, i, badDisjuncts, itps);
      }
    }

    lemma CexThroughB(i: nat) returns (p: seq<S>)
      requires WellFormed(ts) && NoCexUpTo(ts, i - 1) && i >= 1
      requires !(Image(ts, ts.init) !! BadWithin(ts, i - 1, badDisjuncts))
      ensures IsCex(ts, p) && |p| == i + 1
    {
      var s :| s in Image(ts, ts.init) && s in BadWithin(ts, i - 1, badDisjuncts);
      BadWithinExact(ts, i - 1, badDisjuncts, s);
      var q: seq<S>, j :| j in badDisjuncts && IsPath(ts, q) && |q| == i && q[0] == s && 1 <= j <= i && q[j - 1] in ts.bad;
      var e :| e in ts.trans && e.0 in ts.init && e.1 == s;
      p := CutAtBad(e.0, q, j);
    }

    lemma CutAtBad(s: S, q: seq<S>, j: nat) returns (p: seq<S>)
      requires s in ts.states && IsPath(ts, q) && (s, q[0]) in ts.trans
      requires s in ts.init && 1 <= j <= |q| && q[j - 1] in ts.bad
      requires NoCexUpTo(ts, |q| - 1)
      ensures IsCex(ts, p) && |p| == |q| + 1
    {
      ConcatPath(ts, [s], q);
      p := [s] + q;
      SubPath(ts, p, 0, j + 1);
      assert IsCex(ts, p[..j + 1]);
    }

    /** The first query was satisfiable: the counterexample must end at bound i exactly. */
    method Replay(i: nat, ghost p: seq<S>)
      requires Valid() && !concreteCex && i == reachedK + 1 >= 1
      requires IsCex(ts, p) && |p| == i + 1
      modifies this`concreteCex, this`contextLevel, this`trace
      ensures Valid() && concreteCex && ShortestCex(ts, trace) && badDisjuncts == old(badDisjuncts)
    {
      concreteCex := true;
      contextLevel := contextLevel + 1;
      var model := CheckSat(Runs(ts, ts.init, i, ts.bad));
      RunsComplete(ts, ts.init, ts.bad, p);
      assert model.Some?;  // "Expecting satisfiable result" is never thrown
      RunsSound(ts, ts.init, i, ts.bad, model.value);
      trace := model.value;
    }
  }
}
