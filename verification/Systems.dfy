/** Finite transition systems as the safety engines see them: every formula over
    the current state denotes a set of states, and the transition relation (with
    its inputs quantified away) denotes a set of pairs. The relation is never
    assumed to be total: a state may have no successor at all. */
module Systems {

  /** The verdict of a safety engine. */
  datatype ProverResult = True | False | Unknown

  datatype System<S(==)> = System(states: set<S>, init: set<S>, trans: set<(S, S)>, bad: set<S>)

  predicate WellFormed<S>(ts: System<S>) {
    && ts.init <= ts.states
    && ts.bad <= ts.states
    && forall e | e in ts.trans :: e.0 in ts.states && e.1 in ts.states
  }

  /** a /\ T => b' */
  ghost predicate Maps<S>(ts: System<S>, a: set<S>, b: set<S>) {
    forall e | e in ts.trans :: e.0 in a ==> e.1 in b
  }

  /** T /\ b' => a */
  ghost predicate MapsBack<S>(ts: System<S>, b: set<S>, a: set<S>) {
    forall e | e in ts.trans :: e.1 in b ==> e.0 in a
  }

  /** a /\ T /\ b' is unsatisfiable */
  ghost predicate NoStep<S>(ts: System<S>, a: set<S>, b: set<S>) {
    forall e | e in ts.trans :: e.0 in a ==> e.1 !in b
  }

  /** The successors of the states in a. */
  function Image<S>(ts: System<S>, a: set<S>): (r: set<S>)
    ensures forall e | e in ts.trans && e.0 in a :: e.1 in r
    ensures forall t | t in r :: exists e :: e in ts.trans && e.0 in a && e.1 == t
  {
    set e | e in ts.trans && e.0 in a :: e.1
  }

  /** The predecessors of the states in b. */
  function PreImage<S>(ts: System<S>, b: set<S>): (r: set<S>)
    ensures forall e | e in ts.trans && e.1 in b :: e.0 in r
    ensures forall s | s in r :: exists e :: e in ts.trans && e.1 in b && e.0 == s
  {
    set e | e in ts.trans && e.1 in b :: e.0
  }

  /** The models of a /\ T /\ b'. */
  function Steps<S>(ts: System<S>, a: set<S>, b: set<S>): (r: set<(S, S)>)
    ensures forall e | e in r :: e in ts.trans && e.0 in a && e.1 in b
    ensures r == {} <==> NoStep(ts, a, b)
  {
    var r := set e | e in ts.trans && e.0 in a && e.1 in b;
    assert forall e | e in ts.trans && e.0 in a && e.1 in b :: e in r;
    r
  }

  ghost predicate HasSuccessor<S>(ts: System<S>, s: S) {
    exists e :: e in ts.trans && e.0 == s
  }

  ghost predicate RightTotal<S>(ts: System<S>) {
    forall s {:trigger HasSuccessor(ts, s)} | s in ts.states :: HasSuccessor(ts, s)
  }

  // ---------------------------------------------------------------- runs

  /** T holds between the i-th state of p and the next one. */
  predicate StepAt<S>(ts: System<S>, p: seq<S>, i: int)
    requires 0 <= i < |p| - 1
  {
    (p[i], p[i + 1]) in ts.trans
  }

  predicate IsPath<S>(ts: System<S>, p: seq<S>) {
    && |p| > 0
    && (forall i | 0 <= i < |p| :: p[i] in ts.states)
    && forall i {:trigger StepAt(ts, p, i)} | 0 <= i < |p| - 1 :: StepAt(ts, p, i)
  }

  /** A run from an initial state to a bad state; its length is |p| - 1 transitions. */
  predicate IsCex<S>(ts: System<S>, p: seq<S>) {
    IsPath(ts, p) && p[0] in ts.init && p[|p| - 1] in ts.bad
  }

  ghost predicate Safe<S(!new)>(ts: System<S>) {
    forall p: seq<S> :: !IsCex(ts, p)
  }

  /** No counterexample has k transitions or fewer. */
  ghost predicate NoCexUpTo<S(!new)>(ts: System<S>, k: int) {
    forall p: seq<S> :: IsCex(ts, p) ==> |p| - 1 > k
  }

  ghost predicate ShortestCex<S(!new)>(ts: System<S>, p: seq<S>) {
    IsCex(ts, p) && forall q: seq<S> :: IsCex(ts, q) ==> |p| <= |q|
  }

  /** r contains Init, is closed under T and excludes Bad. */
  ghost predicate Invariant<S>(ts: System<S>, r: set<S>) {
    ts.init <= r && Maps(ts, r, r) && r !! ts.bad
  }

  lemma SubPath<S>(ts: System<S>, p: seq<S>, lo: nat, hi: nat)
    requires IsPath(ts, p) && lo < hi <= |p|
    ensures IsPath(ts, p[lo..hi])
  {
    forall i | 0 <= i < hi - lo - 1 ensures StepAt(ts, p[lo..hi], i) {
      assert StepAt(ts, p, lo + i);
    }
  }

  lemma DropPath<S>(ts: System<S>, p: seq<S>, lo: nat)
    requires IsPath(ts, p) && lo < |p|
    ensures IsPath(ts, p[lo..])
  {
    SubPath(ts, p, lo, |p|);
    assert p[lo..] == p[lo..|p|];
  }

  lemma ConcatPath<S>(ts: System<S>, p: seq<S>, q: seq<S>)
    requires IsPath(ts, p) && IsPath(ts, q) && (p[|p| - 1], q[0]) in ts.trans
    ensures IsPath(ts, p + q)
  {
    forall i | 0 <= i < |p + q| - 1 ensures StepAt(ts, p + q, i) {
      if i < |p| - 1 {
        assert StepAt(ts, p, i);
      } else if i >= |p| {
        assert StepAt(ts, q, i - |p|);
      }
    }
  }

  lemma AppendPath<S>(ts: System<S>, p: seq<S>, t: S)
    requires IsPath(ts, p) && t in ts.states && (p[|p| - 1], t) in ts.trans
    ensures IsPath(ts, p + [t]) && (p + [t])[0] == p[0]
  {
    ConcatPath(ts, p, [t]);
  }

  /** A run that starts in a set closed under T stays in it. */
  lemma {:induction false} PathStaysIn<S>(ts: System<S>, p: seq<S>, r: set<S>, k: nat)
    requires IsPath(ts, p) && p[0] in r && Maps(ts, r, r) && k < |p|
    ensures p[k] in r
  {
    if k > 0 {
      PathStaysIn(ts, p, r, k - 1);
      assert StepAt(ts, p, k - 1);
    }
  }

  lemma InvariantProves<S(!new)>(ts: System<S>, r: set<S>)
    requires Invariant(ts, r)
    ensures Safe(ts)
  {
    forall p: seq<S> ensures !IsCex(ts, p) {
      if IsCex(ts, p) {
        PathStaysIn(ts, p, r, |p| - 1);
      }
    }
  }

  lemma SafeInit<S(!new)>(ts: System<S>)
    requires WellFormed(ts) && Safe(ts)
    ensures ts.init !! ts.bad
  {
    forall s | s in ts.init ensures s !in ts.bad {
      assert !IsCex(ts, [s]);
    }
  }

  /** If there is a counterexample there is a shortest one. */
  lemma {:induction false} ShortestExists<S(!new)>(ts: System<S>, p: seq<S>) returns (q: seq<S>)
    requires IsCex(ts, p)
    ensures ShortestCex(ts, q) && |q| <= |p|
    decreases |p|
  {
    q := p;
    if exists r: seq<S> :: IsCex(ts, r) && |r| < |p| {
      var r: seq<S> :| IsCex(ts, r) && |r| < |p|;
      q := ShortestExists(ts, r);
    }
  }

  lemma {:induction false} DistinctFit<T>(p: seq<T>, states: set<T>)
    requires forall i | 0 <= i < |p| :: p[i] in states
    requires forall i, j | 0 <= i < j < |p| :: p[i] != p[j]
    ensures |p| <= |states|
  {
    if p != [] {
      var n := |p| - 1;
      DistinctFit(p[..n], states - {p[n]});
    }
  }

  /** A shortest counterexample visits no state twice, so it fits into the states there are. */
  lemma ShortestFits<S(!new)>(ts: System<S>, p: seq<S>)
    requires ShortestCex(ts, p)
    ensures |p| <= |ts.states|
  {
    forall a, b | 0 <= a < b < |p| ensures p[a] != p[b] {
      if p[a] == p[b] {
        var q := Shortcut(ts, p, a, b);
      }
    }
    DistinctFit(p, ts.states);
  }

  lemma Shortcut<S>(ts: System<S>, p: seq<S>, a: nat, b: nat) returns (q: seq<S>)
    requires IsCex(ts, p) && a < b < |p| && p[a] == p[b]
    ensures IsCex(ts, q) && |q| < |p|
  {
    DropPath(ts, p, b);
    if a == 0 {
      q := p[b..];
    } else {
      SubPath(ts, p, 0, a);
      assert p[0..a] == p[..a];
      assert StepAt(ts, p, a - 1);
      ConcatPath(ts, p[..a], p[b..]);
      q := p[..a] + p[b..];
    }
  }

  /** All runs with exactly k transitions: the models of T(0) /\ ... /\ T(k-1). */
  function Paths<S>(ts: System<S>, k: nat): set<seq<S>> {
    if k == 0 then set s | s in ts.states :: [s]
    else set p, e | p in Paths(ts, k - 1) && e in ts.trans && |p| > 0 && e.0 == p[|p| - 1] :: p + [e.1]
  }

  lemma {:induction false} PathsSound<S>(ts: System<S>, k: nat, p: seq<S>)
    requires WellFormed(ts) && p in Paths(ts, k)
    ensures IsPath(ts, p) && |p| == k + 1
  {
    if k > 0 {
      var q, e :| q in Paths(ts, k - 1) && e in ts.trans && |q| > 0 && e.0 == q[|q| - 1] && p == q + [e.1];
      PathsSound(ts, k - 1, q);
      AppendPath(ts, q, e.1);
    }
  }

  lemma {:induction false} PathsComplete<S>(ts: System<S>, p: seq<S>)
    requires IsPath(ts, p)
    ensures p in Paths(ts, |p| - 1)
  {
    var k := |p| - 1;
    if k == 0 {
      assert p == [p[0]];
    } else {
      var q := p[..k];
      assert IsPath(ts, q) by { SubPath(ts, p, 0, k); }
      PathsComplete(ts, q);
      assert StepAt(ts, p, k - 1);
      var e := (p[k - 1], p[k]);
      assert q[|q| - 1] == e.0 && p == q + [e.1];
    }
  }

  /** The models of a(0) /\ T(0) /\ ... /\ T(k-1) /\ b(k). */
  function Runs<S>(ts: System<S>, a: set<S>, k: nat, b: set<S>): set<seq<S>> {
    set p | p in Paths(ts, k) && |p| == k + 1 && p[0] in a && p[k] in b
  }

  lemma RunsSound<S>(ts: System<S>, a: set<S>, k: nat, b: set<S>, p: seq<S>)
    requires WellFormed(ts) && p in Runs(ts, a, k, b)
    ensures IsPath(ts, p) && |p| == k + 1 && p[0] in a && p[k] in b
  {
    PathsSound(ts, k, p);
  }

  lemma RunsComplete<S>(ts: System<S>, a: set<S>, b: set<S>, p: seq<S>)
    requires IsPath(ts, p) && p[0] in a && p[|p| - 1] in b
    ensures p in Runs(ts, a, |p| - 1, b)
  {
    PathsComplete(ts, p);
  }

  lemma RunsExact<S(!new)>(ts: System<S>, a: set<S>, k: nat, b: set<S>)
    requires WellFormed(ts)
    ensures forall p: seq<S> ::
              p in Runs(ts, a, k, b) <==> IsPath(ts, p) && |p| == k + 1 && p[0] in a && p[k] in b
  {
    forall p: seq<S>
      ensures p in Runs(ts, a, k, b) <==> IsPath(ts, p) && |p| == k + 1 && p[0] in a && p[k] in b
    {
      if p in Runs(ts, a, k, b) {
        RunsSound(ts, a, k, b, p);
      }
      if IsPath(ts, p) && |p| == k + 1 && p[0] in a && p[k] in b {
        RunsComplete(ts, a, b, p);
      }
    }
  }

  // ---------------------------------------------------------------- images of several steps

  function ImageN<S>(ts: System<S>, a: set<S>, k: nat): set<S> {
    if k == 0 then a else Image(ts, ImageN(ts, a, k - 1))
  }

  lemma {:induction false} ImageNOfPath<S>(ts: System<S>, a: set<S>, p: seq<S>, k: nat)
    requires IsPath(ts, p) && p[0] in a && k < |p|
    ensures p[k] in ImageN(ts, a, k)
  {
    if k > 0 {
      ImageNOfPath(ts, a, p, k - 1);
      assert StepAt(ts, p, k - 1);
    }
  }

  lemma {:induction false} PathOfImageN<S>(ts: System<S>, a: set<S>, k: nat, t: S) returns (p: seq<S>)
    requires WellFormed(ts) && a <= ts.states && t in ImageN(ts, a, k)
    ensures IsPath(ts, p) && |p| == k + 1 && p[0] in a && p[k] == t
  {
    if k == 0 {
      p := [t];
    } else {
      var e :| e in ts.trans && e.0 in ImageN(ts, a, k - 1) && e.1 == t;
      var q := PathOfImageN(ts, a, k - 1, e.0);
      AppendPath(ts, q, t);
      p := q + [t];
    }
  }

  lemma {:induction false} ImageNWithin<S>(ts: System<S>, a: set<S>, k: nat)
    requires WellFormed(ts) && a <= ts.states
    ensures ImageN(ts, a, k) <= ts.states
  {
    if k > 0 {
      ImageNWithin(ts, a, k - 1);
    }
  }
}
