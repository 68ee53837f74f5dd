/** Exactly which counterexamples the bounds of BMC miss. A bound r is tested on the runs of
    exactly r transitions, so a bad state counts only if it lies on such a run. */
module BMCGaps {
  import opened Systems
  import opened BMC

  // ---------------------------------------------------------------- states on asserted runs

  /** The states that asserted runs reach with exactly j transitions. */
  function Forth<S>(ts: System<S>, negInit: bool, j: nat): set<S> {
    if j == 0 then ts.init
    else Image(ts, Forth(ts, negInit, j - 1)) - if negInit then ts.init else {}
  }

  /** The states from which asserted runs can go on for m transitions. */
  function Onward<S>(ts: System<S>, negInit: bool, m: nat): set<S> {
    if m == 0 then ts.states
    else PreImage(ts, Onward(ts, negInit, m - 1) - if negInit then ts.init else {})
  }

  /** s lies on an asserted run of r transitions, as images and preimages tell. */
  ghost predicate OnRun<S>(ts: System<S>, negInit: bool, r: nat, s: S) {
    exists j: nat, m: nat :: j + m == r && s in Forth(ts, negInit, j) && s in Onward(ts, negInit, m)
  }

  ghost predicate ReachedWithin<S>(ts: System<S>, r: nat, s: S) {
    exists j: nat :: j <= r && s in ImageN(ts, ts.init, j)
  }

  lemma {:induction false} ForthOfRun<S(!new)>(ts: System<S>, negInit: bool, p: seq<S>, j: nat)
    requires j < |p| && IsAsserted(ts, negInit, |p| - 1, p)
    ensures p[j] in Forth(ts, negInit, j)
  {
    if j > 0 {
      ForthOfRun(ts, negInit, p, j - 1);
      assert StepAt(ts, p, j - 1);
    }
  }

  lemma {:induction false} OnwardOfRun<S(!new)>(ts: System<S>, negInit: bool, p: seq<S>, j: nat)
    requires j < |p| && IsAsserted(ts, negInit, |p| - 1, p)
    ensures p[j] in Onward(ts, negInit, |p| - 1 - j)
    decreases |p| - j
  {
    if j < |p| - 1 {
      OnwardOfRun(ts, negInit, p, j + 1);
      assert StepAt(ts, p, j);
    }
  }

  lemma {:induction false} RunOfForth<S(!new)>(ts: System<S>, negInit: bool, j: nat, s: S) returns (p: seq<S>)
    requires WellFormed(ts) && s in Forth(ts, negInit, j)
    ensures IsAsserted(ts, negInit, j, p) && p[j] == s
  {
    if j == 0 {
      p := [s];
    } else {
      var e :| e in ts.trans && e.0 in Forth(ts, negInit, j - 1) && e.1 == s;
      var q := RunOfForth(ts, negInit, j - 1, e.0);
      AppendAsserted(ts, negInit, q, s);
      p := q + [s];
    }
  }

  lemma {:induction false} RunOnward<S(!new)>(ts: System<S>, negInit: bool, p: seq<S>, m: nat) returns (q: seq<S>)
    requires WellFormed(ts) && p != [] && IsAsserted(ts, negInit, |p| - 1, p)
    requires p[|p| - 1] in Onward(ts, negInit, m)
    ensures IsAsserted(ts, negInit, |p| - 1 + m, q) && p <= q
    decreases m
  {
    q := p;
    if m > 0 {
      var next := Onward(ts, negInit, m - 1) - if negInit then ts.init else {};
      var e :| e in ts.trans && e.1 in next && e.0 == p[|p| - 1];
      AppendAsserted(ts, negInit, p, e.1);
      q := RunOnward(ts, negInit, p + [e.1], m - 1);
    }
  }

  lemma OnRunExact<S(!new)>(ts: System<S>, negInit: bool, r: nat, s: S)
    requires WellFormed(ts)
    ensures OnRun(ts, negInit, r, s) <==> exists p: seq<S>, j :: IsAsserted(ts, negInit, r, p) && 0 <= j <= r && p[j] == s
  {
    if j: nat, m: nat :| j + m == r && s in Forth(ts, negInit, j) && s in Onward(ts, negInit, m) {
      var p := RunOfForth(ts, negInit, j, s);
      var q := RunOnward(ts, negInit, p, m);
      assert q[j] == s;
    }
    if p: seq<S>, j :| IsAsserted(ts, negInit, r, p) && 0 <= j <= r && p[j] == s {
      ForthOfRun(ts, negInit, p, j);
      OnwardOfRun(ts, negInit, p, j);
      assert j + (r - j) == r;
    }
  }

  lemma ReachedWithinExact<S(!new)>(ts: System<S>, r: nat, s: S)
    requires WellFormed(ts)
    ensures ReachedWithin(ts, r, s) <==>
            exists p: seq<S> :: IsPath(ts, p) && |p| <= r + 1 && p[0] in ts.init && p[|p| - 1] == s
  {
    if j: nat :| j <= r && s in ImageN(ts, ts.init, j) {
      var p := PathOfImageN(ts, ts.init, j, s);
    }
    if p: seq<S> :| IsPath(ts, p) && |p| <= r + 1 && p[0] in ts.init && p[|p| - 1] == s {
      ImageNOfPath(ts, ts.init, p, |p| - 1);
    }
  }

  // ---------------------------------------------------------------- one input

  lemma CleanExact<S(!new)>(ts: System<S>, negInit: bool, r: nat)
    requires WellFormed(ts)
    ensures Clean(ts, negInit, r) <==> forall b | b in ts.bad :: !OnRun(ts, negInit, r, b)
  {
    forall b ensures OnRun(ts, negInit, r, b) <==> exists p: seq<S>, j :: IsAsserted(ts, negInit, r, p) && 0 <= j <= r && p[j] == b {
      OnRunExact(ts, negInit, r, b);
    }
    hide OnRun;
    if b :| b in ts.bad && OnRun(ts, negInit, r, b) {
      var p: seq<S>, j :| IsAsserted(ts, negInit, r, p) && 0 <= j <= r && p[j] == b;
      assert BadAt(ts, p, j);
    }
    if !Clean(ts, negInit, r) {
      var p: seq<S>, j :| IsAsserted(ts, negInit, r, p) && 0 <= j <= r && BadAt(ts, p, j);
      assert OnRun(ts, negInit, r, p[j]);
    }
  }

  lemma NoCexExact<S(!new)>(ts: System<S>, r: nat)
    requires WellFormed(ts)
    ensures NoCexUpTo(ts, r) <==> forall b | b in ts.bad :: !ReachedWithin(ts, r, b)
  {
    forall b ensures ReachedWithin(ts, r, b) <==>
                     exists p: seq<S> :: IsPath(ts, p) && |p| <= r + 1 && p[0] in ts.init && p[|p| - 1] == b
    {
      ReachedWithinExact(ts, r, b);
    }
    hide ReachedWithin;
    if NoCexUpTo(ts, r) {
      forall b | b in ts.bad ensures !ReachedWithin(ts, r, b) {
        assert forall p: seq<S> | IsPath(ts, p) && p[0] in ts.init && p[|p| - 1] == b :: IsCex(ts, p);
      }
    }
    if !NoCexUpTo(ts, r) {
      var p: seq<S> :| IsCex(ts, p) && |p| - 1 <= r;
      assert ReachedWithin(ts, r, p[|p| - 1]);
    }
  }

  /** A clean bound hides a counterexample exactly when some bad state is reached within the bound
      and none of the bad states lies on an asserted run of that many transitions. */
  lemma MissedExactly<S(!new)>(ts: System<S>, negInit: bool, r: nat)
    requires WellFormed(ts)
    ensures Clean(ts, negInit, r) && !NoCexUpTo(ts, r) <==>
            (exists b :: b in ts.bad && ReachedWithin(ts, r, b)) && forall b | b in ts.bad :: !OnRun(ts, negInit, r, b)
  {
    CleanExact(ts, negInit, r);
    NoCexExact(ts, r);
    hide OnRun;
    hide ReachedWithin;
    hide Clean;
    hide NoCexUpTo;
  }

  // ---------------------------------------------------------------- all bad states

  function WithBad<S>(ts: System<S>, bad: set<S>): System<S> {
    ts.(bad := bad)
  }

  ghost predicate MissesFor<S(!new)>(ts: System<S>, negInit: bool, bad: set<S>, r: nat) {
    Clean(WithBad(ts, bad), negInit, r) && !NoCexUpTo(WithBad(ts, bad), r)
  }

  lemma {:induction false} SameForth<S>(ts: System<S>, bad: set<S>, negInit: bool, j: nat)
    ensures Forth(WithBad(ts, bad), negInit, j) == Forth(ts, negInit, j)
    ensures Onward(WithBad(ts, bad), negInit, j) == Onward(ts, negInit, j)
    ensures ImageN(WithBad(ts, bad), ts.init, j) == ImageN(ts, ts.init, j)
  {
    if j > 0 {
      SameForth(ts, bad, negInit, j - 1);
    }
  }

  lemma SameOnRun<S>(ts: System<S>, bad: set<S>, negInit: bool, r: nat, s: S)
    ensures OnRun(WithBad(ts, bad), negInit, r, s) <==> OnRun(ts, negInit, r, s)
    ensures ReachedWithin(WithBad(ts, bad), r, s) <==> ReachedWithin(ts, r, s)
  {
    forall j: nat ensures Forth(WithBad(ts, bad), negInit, j) == Forth(ts, negInit, j)
                          && Onward(WithBad(ts, bad), negInit, j) == Onward(ts, negInit, j)
                          && ImageN(WithBad(ts, bad), ts.init, j) == ImageN(ts, ts.init, j)
    {
      SameForth(ts, bad, negInit, j);
    }
  }

  lemma MissesForExactly<S(!new)>(ts: System<S>, negInit: bool, bad: set<S>, r: nat)
    requires WellFormed(ts) && bad <= ts.states
    ensures MissesFor(ts, negInit, bad, r) <==>
            (exists b :: b in bad && ReachedWithin(ts, r, b)) && forall b | b in bad :: !OnRun(ts, negInit, r, b)
  {
    MissedExactly(WithBad(ts, bad), negInit, r);
    forall b ensures (OnRun(WithBad(ts, bad), negInit, r, b) <==> OnRun(ts, negInit, r, b))
                     && (ReachedWithin(WithBad(ts, bad), r, b) <==> ReachedWithin(ts, r, b))
    {
      SameOnRun(ts, bad, negInit, r, b);
    }
    hide OnRun;
    hide ReachedWithin;
    hide Clean;
    hide NoCexUpTo;
  }

  /** For given Init and T, no set of bad states and no bound is missed if and only if every state
      reached within a bound lies on an asserted run of that many transitions. */
  lemma NothingMissedIff<S(!new)>(ts: System<S>, negInit: bool)
    requires WellFormed(ts)
    ensures (forall bad: set<S>, r: nat | bad <= ts.states :: !MissesFor(ts, negInit, bad, r)) <==>
            (forall s: S, r: nat | s in ts.states && ReachedWithin(ts, r, s) :: OnRun(ts, negInit, r, s))
  {
    hide OnRun;
    hide ReachedWithin;
    hide MissesFor;
    if forall bad: set<S>, r: nat | bad <= ts.states :: !MissesFor(ts, negInit, bad, r) {
      forall s: S, r: nat | s in ts.states && ReachedWithin(ts, r, s) ensures OnRun(ts, negInit, r, s) {
        MissesForExactly(ts, negInit, {s}, r);
        assert s in {s};
      }
    }
    if forall s: S, r: nat | s in ts.states && ReachedWithin(ts, r, s) :: OnRun(ts, negInit, r, s) {
      forall bad: set<S>, r: nat | bad <= ts.states ensures !MissesFor(ts, negInit, bad, r) {
        MissesForExactly(ts, negInit, bad, r);
      }
    }
  }

  /** It holds when every state has a successor outside Init or, without the constraints against
      Init, any successor. */
  lemma ContinuingMissesNothing<S(!new)>(ts: System<S>, negInit: bool, bad: set<S>, r: nat)
    requires WellFormed(ts) && bad <= ts.states && AlwaysContinues(ts, negInit)
    ensures !MissesFor(ts, negInit, bad, r)
  {
    var same := WithBad(ts, bad);
    forall s | s in same.states ensures CanContinue(same, negInit, s) {
      assert CanContinue(ts, negInit, s);
    }
    CleanIffNoCex(same, negInit, r);
  }

  // ---------------------------------------------------------------- all initial states as well

  /** The systems over the states and transitions of ts. */
  ghost predicate MissesForInit<S(!new)>(ts: System<S>, init: set<S>, bad: set<S>, r: nat) {
    Clean(ts.(init := init, bad := bad), false, r) && !NoCexUpTo(ts.(init := init, bad := bad), r)
  }

  /** For given states and T, and without the constraints against Init: no choice of Init, Bad and
      bound is missed if and only if every state has a successor. */
  lemma RightTotalIffNothingMissed<S(!new)>(ts: System<S>)
    requires WellFormed(ts)
    ensures (forall init: set<S>, bad: set<S>, r: nat | init <= ts.states && bad <= ts.states :: !MissesForInit(ts, init, bad, r))
       <==> RightTotal(ts)
  {
    if RightTotal(ts) {
      forall init: set<S>, bad: set<S>, r: nat | init <= ts.states && bad <= ts.states ensures !MissesForInit(ts, init, bad, r) {
        var same := ts.(init := init, bad := bad);
        forall s | s in same.states ensures CanContinue(same, false, s) {
          assert HasSuccessor(ts, s);
        }
        CleanIffNoCex(same, false, r);
      }
    } else {
      var s :| s in ts.states && !HasSuccessor(ts, s);
      DeadlockIsMissed(ts, s);
    }
  }

  lemma DeadlockIsMissed<S(!new)>(ts: System<S>, s: S)
    requires WellFormed(ts) && s in ts.states && !HasSuccessor(ts, s)
    ensures MissesForInit(ts, {s}, {s}, 1)
  {
    var same := ts.(init := {s}, bad := {s});
    assert IsCex(same, [s]);
    forall p: seq<S> ensures !IsAsserted(same, false, 1, p) {
      assert |p| == 2 && IsPath(same, p) ==> StepAt(same, p, 0);
    }
  }
}
