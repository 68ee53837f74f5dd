/** k-induction with simple-path constraints. A state assigns a value to each of n state
    variables; those in noUpdate have no next-state function, and the distinctness test
    skips them at positive times. */
module KInduction {
  import opened Systems
  import opened Solver
  import opened Terms

  type State = seq<Value>

  /** A transition system together with the variables the distinctness test looks at. */
  datatype VarSystem = VarSystem(ts: System<State>, n: nat, noUpdate: set<nat>)

  predicate SameUpdated(vs: VarSystem, s: State, t: State)
    requires |s| == |t| == vs.n
  {
    forall v | 0 <= v < vs.n && v !in vs.noUpdate :: s[v] == t[v]
  }

  /** The shape of T: a variable without update is free in the next state, up to a
      constraint on that state alone. So a target of one transition can replace any target
      that agrees with it on the updated variables. */
  ghost predicate FreeNext(vs: VarSystem) {
    forall e, d | e in vs.ts.trans && d in vs.ts.trans ::
      |e.1| == |d.1| == vs.n && SameUpdated(vs, e.1, d.1) ==> (e.0, d.1) in vs.ts.trans
  }

  ghost predicate WellShaped(vs: VarSystem) {
    && WellFormed(vs.ts)
    && (forall s | s in vs.ts.states :: |s| == vs.n)
    && FreeNext(vs)
  }

  /** simple_path_constraint: some compared variable differs between times i and j. */
  predicate Differ(vs: VarSystem, p: seq<State>, i: nat, j: nat) {
    i < |p| && j < |p| && |p[i]| == |p[j]| == vs.n &&
    exists v | 0 <= v < vs.n :: !(i > 0 && j > 0 && v in vs.noUpdate) && p[i][v] != p[j][v]
  }

  predicate Respects(vs: VarSystem, p: seq<State>, pairs: set<(nat, nat)>) {
    forall e | e in pairs :: Differ(vs, p, e.0, e.1)
  }

  function AllPairs(i: nat): (r: set<(nat, nat)>) {
    set j, l | 0 <= j < l <= i :: (j, l)
  }

  // ---------------------------------------------------------------- splicing

  /** Cutting out the states between two occurrences of the same updated values leaves a run. */
  lemma Splice(vs: VarSystem, p: seq<State>, i: nat, j: nat)
    requires WellShaped(vs) && IsPath(vs.ts, p) && 0 < i < j < |p|
    requires SameUpdated(vs, p[i], p[j])
    ensures IsPath(vs.ts, p[..i] + p[j..])
  {
    assert StepAt(vs.ts, p, i - 1) && StepAt(vs.ts, p, j - 1);
    var e, d := (p[i - 1], p[i]), (p[j - 1], p[j]);
    assert (e.0, d.1) in vs.ts.trans;
    SubPath(vs.ts, p, 0, i);
    assert p[0..i] == p[..i];
    DropPath(vs.ts, p, j);
    ConcatPath(vs.ts, p[..i], p[j..]);
  }

  /** A shortest counterexample satisfies every simple-path clause. */
  lemma ShortestDiffers(vs: VarSystem, p: seq<State>, i: nat, j: nat)
    requires WellShaped(vs) && ShortestCex(vs.ts, p) && i < j < |p|
    ensures Differ(vs, p, i, j)
  {
    if !Differ(vs, p, i, j) {
      var q;
      if i == 0 {
        assert p[0] == p[j];
        DropPath(vs.ts, p, j);
        q := p[j..];
      } else {
        assert SameUpdated(vs, p[i], p[j]);
        Splice(vs, p, i, j);
        q := p[..i] + p[j..];
      }
      assert |q| < |p| && q[0] in vs.ts.init && q[|q| - 1] == p[|p| - 1];
      assert IsCex(vs.ts, q);
    }
  }

  /** ... and so does any window of it, although the window renumbers its first state to 0. */
  lemma WindowRespects(vs: VarSystem, p: seq<State>, lo: nat, hi: nat, pairs: set<(nat, nat)>)
    requires WellShaped(vs) && ShortestCex(vs.ts, p) && lo < hi <= |p|
    requires pairs <= AllPairs(hi - lo - 1)
    ensures Respects(vs, p[lo..hi], pairs)
  {
    var w := p[lo..hi];
    forall e | e in pairs ensures Differ(vs, w, e.0, e.1) {
      ShortestDiffers(vs, p, lo + e.0, lo + e.1);
      assert w[e.0] == p[lo + e.0] && w[e.1] == p[lo + e.1];
    }
  }

  lemma ShortestInside(ts: System<State>, p: seq<State>, j: nat)
    requires ShortestCex(ts, p) && j < |p|
    ensures j < |p| - 1 ==> p[j] !in ts.bad
    ensures j > 0 ==> p[j] !in ts.init
  {
    if j < |p| - 1 && p[j] in ts.bad {
      SubPath(ts, p, 0, j + 1);
      assert IsCex(ts, p[0..j + 1]);
    }
    if j > 0 && p[j] in ts.init {
      DropPath(ts, p, j);
      assert IsCex(ts, p[j..]);
    }
  }

  // ---------------------------------------------------------------- the queries of one bound

  /** Which of the switchable assertions a query enables. */
  datatype Query = Query(init: bool, negInit: bool, badAtEnd: bool)

  const SimplePathQuery := Query(false, false, false)
  const InitStepQuery := Query(true, true, false)
  const PropertyStepQuery := Query(false, false, true)
  const BaseQuery := Query(true, false, true)

  /** A model of T(0..i-1), the negated bad states below i, the simple-path clauses in
      pairs and the assertions enabled by q. */
  predicate IsModel(vs: VarSystem, i: nat, pairs: set<(nat, nat)>, q: Query, p: seq<State>) {
    && |p| == i + 1
    && (forall j | 0 <= j < i :: p[j] !in vs.ts.bad)
    && Respects(vs, p, pairs)
    && (q.init ==> p[0] in vs.ts.init)
    && (q.negInit ==> forall j | 1 <= j <= i :: p[j] !in vs.ts.init)
    && (q.badAtEnd ==> p[i] in vs.ts.bad)
  }

  function Models(vs: VarSystem, i: nat, pairs: set<(nat, nat)>, q: Query): set<seq<State>> {
    set p | p in Paths(vs.ts, i) && IsModel(vs, i, pairs, q, p)
  }

  /** Unsatisfiability of a query at bound i, over all runs. */
  ghost predicate Unsat(vs: VarSystem, i: nat, pairs: set<(nat, nat)>, q: Query) {
    forall p | IsPath(vs.ts, p) :: !IsModel(vs, i, pairs, q, p)
  }

  method CheckQuery(vs: VarSystem, i: nat, pairs: set<(nat, nat)>, q: Query) returns (r: Option<seq<State>>)
    requires WellFormed(vs.ts)
    ensures r.None? <==> Unsat(vs, i, pairs, q)
    ensures r.Some? ==> IsPath(vs.ts, r.value) && IsModel(vs, i, pairs, q, r.value)
  {
    r := CheckSat(Models(vs, i, pairs, q));
    forall p | IsPath(vs.ts, p) && IsModel(vs, i, pairs, q, p) ensures p in Models(vs, i, pairs, q) {
      PathsComplete(vs.ts, p);
    }
    if r.Some? {
      PathsSound(vs.ts, i, r.value);
    }
  }

  // ---------------------------------------------------------------- the three exits

  lemma PrefixModel(vs: VarSystem, p: seq<State>, i: nat, pairs: set<(nat, nat)>, q: Query)
    requires WellShaped(vs) && ShortestCex(vs.ts, p) && i < |p| && pairs <= AllPairs(i)
    requires q.badAtEnd ==> |p| == i + 1
    ensures IsPath(vs.ts, p[0..i + 1]) && IsModel(vs, i, pairs, q, p[0..i + 1])
  {
    SubPath(vs.ts, p, 0, i + 1);
    WindowRespects(vs, p, 0, i + 1, pairs);
    forall j | 0 <= j <= i ensures (j < i ==> p[j] !in vs.ts.bad) && (j > 0 ==> p[j] !in vs.ts.init) {
      ShortestInside(vs.ts, p, j);
    }
  }

  lemma SuffixModel(vs: VarSystem, p: seq<State>, i: nat, pairs: set<(nat, nat)>, q: Query)
    requires WellShaped(vs) && ShortestCex(vs.ts, p) && i < |p| && pairs <= AllPairs(i)
    requires !q.init && !q.negInit
    ensures IsPath(vs.ts, p[|p| - i - 1..|p|]) && IsModel(vs, i, pairs, q, p[|p| - i - 1..|p|])
  {
    var lo := |p| - i - 1;
    var w := p[lo..|p|];
    SubPath(vs.ts, p, lo, |p|);
    WindowRespects(vs, p, lo, |p|, pairs);
    forall j | 0 <= j < i ensures w[j] !in vs.ts.bad {
      ShortestInside(vs.ts, p, lo + j);
    }
  }

  /** Simple-path and initial-state exits: the first i + 1 states of a shortest
      counterexample would be a model. */
  lemma PrefixExit(vs: VarSystem, i: nat, pairs: set<(nat, nat)>, q: Query)
    requires WellShaped(vs) && pairs <= AllPairs(i) && Unsat(vs, i, pairs, q)
    requires !q.badAtEnd && NoCexUpTo(vs.ts, i - 1)
    ensures Safe(vs.ts)
  {
    forall c: seq<State> ensures !IsCex(vs.ts, c) {
      if IsCex(vs.ts, c) {
        var p := ShortestExists(vs.ts, c);
        PrefixModel(vs, p, i, pairs, q);
      }
    }
  }

  /** Property exit: the last i + 1 states would be one. */
  lemma SuffixExit(vs: VarSystem, i: nat, pairs: set<(nat, nat)>, q: Query)
    requires WellShaped(vs) && pairs <= AllPairs(i) && Unsat(vs, i, pairs, q)
    requires !q.init && !q.negInit && NoCexUpTo(vs.ts, i - 1)
    ensures Safe(vs.ts)
  {
    forall c: seq<State> ensures !IsCex(vs.ts, c) {
      if IsCex(vs.ts, c) {
        var p := ShortestExists(vs.ts, c);
        SuffixModel(vs, p, i, pairs, q);
      }
    }
  }

  /** Base case: the strengthened query still rules out every counterexample of exactly i
      transitions when there is no shorter one. */
  lemma BaseCase(vs: VarSystem, i: nat, pairs: set<(nat, nat)>)
    requires WellShaped(vs) && pairs <= AllPairs(i) && Unsat(vs, i, pairs, BaseQuery)
    requires NoCexUpTo(vs.ts, i - 1)
    ensures NoCexUpTo(vs.ts, i)
  {
    forall p: seq<State> | IsCex(vs.ts, p) ensures |p| - 1 > i {
      if |p| - 1 == i {
        PrefixModel(vs, p, i, pairs, BaseQuery);
      }
    }
  }

  // ---------------------------------------------------------------- completeness

  ghost predicate NoSimplePath(vs: VarSystem, i: nat) {
    Unsat(vs, i, AllPairs(i), SimplePathQuery)
  }

  /** On N states no simple path has N transitions. */
  lemma SimplePathsEnd(vs: VarSystem, i: nat)
    requires WellShaped(vs) && i >= |vs.ts.states|
    ensures NoSimplePath(vs, i)
  {
    forall p | IsPath(vs.ts, p) ensures !IsModel(vs, i, AllPairs(i), SimplePathQuery, p) {
      if |p| == i + 1 && Respects(vs, p, AllPairs(i)) {
        forall a, b | 0 <= a < b < |p| ensures p[a] != p[b] {
          assert (a, b) in AllPairs(i);
          assert Differ(vs, p, a, b);
        }
        DistinctFit(p, vs.ts.states);
      }
    }
  }

  /** A state with its variables without update blanked out. */
  function UpdatedPart(vs: VarSystem, s: State): State {
    seq(|s|, v requires 0 <= v < |s| => if v in vs.noUpdate then B(false) else s[v])
  }

  function UpdatedParts(vs: VarSystem): set<State> {
    set s | s in vs.ts.states :: UpdatedPart(vs, s)
  }

  lemma DifferInUpdated(vs: VarSystem, p: seq<State>, a: nat, b: nat)
    requires 0 < a < b && Differ(vs, p, a, b)
    ensures UpdatedPart(vs, p[a]) != UpdatedPart(vs, p[b])
  {
    var v :| 0 <= v < vs.n && v !in vs.noUpdate && p[a][v] != p[b][v];
    assert UpdatedPart(vs, p[a])[v] == p[a][v] && UpdatedPart(vs, p[b])[v] == p[b][v];
  }

  /** Because the variables without update are skipped, simple paths end already when the values of
      the others have run out. */
  lemma SimplePathsEndSooner(vs: VarSystem, i: nat)
    requires WellShaped(vs) && i > |UpdatedParts(vs)|
    ensures NoSimplePath(vs, i)
  {
    forall p | IsPath(vs.ts, p) ensures !IsModel(vs, i, AllPairs(i), SimplePathQuery, p) {
      if |p| == i + 1 && Respects(vs, p, AllPairs(i)) {
        var parts: seq<State> := seq(i, j requires 0 <= j < i => UpdatedPart(vs, p[j + 1]));
        forall a, b | 0 <= a < b < i ensures parts[a] != parts[b] {
          assert (a + 1, b + 1) in AllPairs(i);
          DifferInUpdated(vs, p, a + 1, b + 1);
        }
        DistinctFit(parts, UpdatedParts(vs));
      }
    }
  }

  // ---------------------------------------------------------------- the one-time base case

  /** Init(0) /\ T(0) /\ ... /\ T(i-1) /\ (bad(0) \/ ... \/ bad(i)) */
  function BadSomewhere(ts: System<State>, i: nat): set<seq<State>> {
    set p | p in Paths(ts, i) && |p| == i + 1 && p[0] in ts.init && exists j | 0 <= j <= i :: p[j] in ts.bad
  }

  /** Init(0) /\ (bad(0) \/ (T(0) /\ (bad(1) \/ ...))) */
  function NestedCex(ts: System<State>, i: nat): set<seq<State>> {
    if i == 0 then Runs(ts, ts.init, 0, ts.bad) else NestedCex(ts, i - 1) + Runs(ts, ts.init, i, ts.bad)
  }

  lemma {:induction false} NestedCexSound(ts: System<State>, i: nat, p: seq<State>)
    requires WellFormed(ts) && p in NestedCex(ts, i)
    ensures IsCex(ts, p)
  {
    hide IsPath;
    hide Runs;
    if p in Runs(ts, ts.init, i, ts.bad) {
      RunsSound(ts, ts.init, i, ts.bad, p);
    } else {
      NestedCexSound(ts, i - 1, p);
    }
  }

  lemma {:induction false} NestedCexComplete(ts: System<State>, i: nat, p: seq<State>)
    requires IsCex(ts, p) && |p| <= i + 1
    ensures p in NestedCex(ts, i)
  {
    hide Runs;
    if |p| == i + 1 {
      RunsComplete(ts, ts.init, ts.bad, p);
    } else {
      NestedCexComplete(ts, i - 1, p);
    }
  }

  lemma {:induction false} ExtendRun(ts: System<State>, p: seq<State>, i: nat) returns (q: seq<State>)
    requires WellFormed(ts) && RightTotal(ts) && IsPath(ts, p) && |p| <= i + 1
    ensures IsPath(ts, q) && |q| == i + 1 && p <= q
    decreases i + 1 - |p|
  {
    if |p| == i + 1 {
      q := p;
    } else {
      assert HasSuccessor(ts, p[|p| - 1]);
      var e :| e in ts.trans && e.0 == p[|p| - 1];
      AppendPath(ts, p, e.1);
      q := ExtendRun(ts, p + [e.1], i);
    }
  }

  /** With a right-total T the flat disjunction finds every counterexample up to i. */
  lemma BadSomewhereComplete(ts: System<State>, i: nat, p: seq<State>)
    requires WellFormed(ts) && RightTotal(ts) && IsCex(ts, p) && |p| <= i + 1
    ensures BadSomewhere(ts, i) != {}
  {
    var q := ExtendRun(ts, p, i);
    PathsComplete(ts, q);
    assert q[|p| - 1] in ts.bad;
    assert q in BadSomewhere(ts, i);
  }

  // ---------------------------------------------------------------- the engine

  datatype Options = Options(
    noSimplePathCheck: bool, eagerSimplePathCheck: bool, noMultiCall: bool,
    noIndCheckInitStates: bool, noIndCheckProperty: bool, oneTimeBaseCheck: bool, boundStep: nat)

  /** BadOptions stands for the exception raised on option combinations check_until refuses. */
  datatype Outcome = Verdict(result: ProverResult) | BadOptions

  class KInduction {
    const vs: VarSystem
    const options: Options
    /** The answer of is_trans_total. */
    const transTotal: bool
    /** T(0..unrolled-1) and the negated bad states at 0..unrolled-1 are asserted. */
    var unrolled: nat
    /** Times 1..negInits carry a negated initial-state clause. */
    var negInits: nat
    var simplePairs: set<(nat, nat)>
    var reachedK: int
    var trace: seq<State>

    predicate ChecksSimplePath() {
      !options.noSimplePathCheck && vs.n > 0
    }

    /** The state of the asserted formulas when the bound i is about to be checked. */
    ghost predicate ReadyFor(i: nat)
      reads this
    {
      && WellShaped(vs)
      && options.boundStep >= 1
      && (transTotal ==> RightTotal(vs.ts))
      && reachedK == (if i == 0 then -1 else i - options.boundStep)
      && unrolled == i
      && (options.boundStep == 1 || (options.oneTimeBaseCheck && !options.eagerSimplePathCheck))
      && (!options.noIndCheckInitStates ==> negInits == if reachedK < 0 then 0 else reachedK)
      && simplePairs <= AllPairs(i)
      && (options.eagerSimplePathCheck && ChecksSimplePath() ==>
            simplePairs == if i == 0 then {} else AllPairs(i - 1))
      && (!options.oneTimeBaseCheck ==> NoCexUpTo(vs.ts, i - 1))
    }

    /** The simple-path clauses that are certain to be asserted at bound i. */
    function SurePairs(i: nat): set<(nat, nat)> {
      if options.eagerSimplePathCheck && ChecksSimplePath() then AllPairs(i) else {}
    }

    /** No query whose unsatisfiability would end the run is unsatisfiable at bound i: there is a simple
        path of i transitions that is not bad before its end, one that starts in Init and never
        returns, and one that ends in Bad, as far as the options ask for them. */
    ghost predicate Undecided(i: nat) {
      && (ChecksSimplePath() ==> !NoSimplePath(vs, i))
      && (i >= 1 && !options.noIndCheckInitStates ==> !Unsat(vs, i, SurePairs(i), InitStepQuery))
      && (!options.noIndCheckProperty ==> !Unsat(vs, i, SurePairs(i), PropertyStepQuery))
    }

    /** The n-th bound that is tested. */
    function Bound(n: nat): nat {
      n * options.boundStep
    }

    /** The first n bounds did not decide. */
    ghost predicate Tested(n: nat) {
      forall m: nat | m < n :: Undecided(Bound(m))
    }

    lemma NextBound(n: nat)
      ensures Bound(0) == 0 && Tested(0) && Bound(n + 1) == Bound(n) + options.boundStep
      ensures Tested(n) && Undecided(Bound(n)) ==> Tested(n + 1)
    {
      hide Undecided;
    }

    lemma TestedUpTo(n: nat, k: int)
      requires Tested(n) && Bound(n) > k
      ensures forall m: nat | Bound(m) <= k :: Undecided(Bound(m))
    {
      hide Undecided;
      forall m: nat | m >= n ensures Bound(m) >= Bound(n) {
        assert m * options.boundStep >= n * options.boundStep;
      }
    }

    constructor (vs: VarSystem, options: Options, transTotal: bool)
      requires WellShaped(vs) && options.boundStep >= 1 && (transTotal ==> RightTotal(vs.ts))
      ensures this.vs == vs && this.options == options && this.transTotal == transTotal
      ensures unrolled == 0 && negInits == 0 && simplePairs == {} && reachedK == -1
    {
      this.vs, this.options, this.transTotal := vs, options, transTotal;
      unrolled, negInits, simplePairs, reachedK, trace := 0, 0, {}, -1, [];
    }

    /** True is sound at every exit and under every option; False comes with a real
        counterexample, a shortest one unless base cases are postponed. With simple-path
        checking, Unknown is impossible once k reaches the number of states (plus the slack
        of a larger bound step), and in any case means that no exit was open at a tested bound. */
    method CheckUntil(k: int) returns (r: Outcome)
      requires WellShaped(vs) && options.boundStep >= 1 && (transTotal ==> RightTotal(vs.ts))
      requires unrolled == 0 && negInits == 0 && simplePairs == {} && reachedK == -1
      modifies this
      ensures r.BadOptions? <==> options.boundStep != 1 && (options.eagerSimplePathCheck || !options.oneTimeBaseCheck)
      ensures r == Verdict(True) ==> Safe(vs.ts)
      ensures r == Verdict(False) ==> IsCex(vs.ts, trace)
      ensures r == Verdict(False) && !options.oneTimeBaseCheck ==> ShortestCex(vs.ts, trace)
      ensures r == Verdict(Unknown) && !options.oneTimeBaseCheck ==> NoCexUpTo(vs.ts, k)
      ensures r == Verdict(Unknown) && ChecksSimplePath() && k >= 0 ==>
                k <= |vs.ts.states| + options.boundStep - 2 && k <= |UpdatedParts(vs)| + options.boundStep - 1
      ensures r == Verdict(Unknown) ==> forall n: nat | Bound(n) <= k :: Undecided(Bound(n))
    {
      if options.boundStep != 1 && (options.eagerSimplePathCheck || !options.oneTimeBaseCheck) {
        return BadOptions;
      }
      hide WellShaped;
      hide Undecided;
      hide Bound;
      hide NoCexUpTo;
      hide ShortestCex;
      hide RightTotal;
      hide UpdatedParts;
      hide AllPairs;
      NextBound(0);
      hide Tested;
      var i := 0;
      ghost var n := 0;
      while i <= k
        invariant i >= 0 && ReadyFor(i) && i == Bound(n)
        invariant i > 0 && ChecksSimplePath() ==> reachedK < |vs.ts.states| && reachedK <= |UpdatedParts(vs)|
        invariant Tested(n)
        decreases k - i
      {
        var verdict := CheckBound(i);
        if verdict.Some? {
          return Verdict(verdict.value);
        }
        NextBound(n);
        i := i + options.boundStep;
        n := n + 1;
      }
      r := Verdict(Unknown);
      TestedUpTo(n, k);
    }

    /** One round of the loop; None means that the next bound is due. */
    method CheckBound(i: nat) returns (verdict: Option<ProverResult>)
      requires ReadyFor(i)
      modifies this
      ensures verdict == Some(True) ==> Safe(vs.ts)
      ensures verdict == Some(False) ==> IsCex(vs.ts, trace)
      ensures verdict == Some(False) && !options.oneTimeBaseCheck ==> ShortestCex(vs.ts, trace)
      ensures verdict != Some(Unknown)
      ensures verdict.None? ==> ReadyFor(i + options.boundStep)
      ensures verdict.None? && ChecksSimplePath() ==> i < |vs.ts.states| && i <= |UpdatedParts(vs)|
      ensures verdict.None? ==> Undecided(i)
    {
      hide Unsat;
      hide ShortestCex;
      hide IsModel;
      if ChecksSimplePath() {
        var simple;
        if options.eagerSimplePathCheck {
          simple := CheckSimplePathEager(i);
        } else {
          simple := CheckSimplePathLazy(i);
        }
        if simple {
          verdict := Conclude(i, SimplePathQuery);
          return;
        }
        if i >= |vs.ts.states| {
          SimplePathsEnd(vs, i);
          assert false;
        }
        if i > |UpdatedParts(vs)| {
          SimplePathsEndSooner(vs, i);
          assert false;
        }
      }
      if i >= 1 && !options.noIndCheckInitStates {
        negInits := i;
        var r := CheckQuery(vs, i, simplePairs, InitStepQuery);
        if r.None? {
          verdict := Conclude(i, InitStepQuery);
          return;
        }
        MoreClauses(i, SurePairs(i), simplePairs, InitStepQuery);
      }
      if !options.noIndCheckProperty {
        var r := CheckQuery(vs, i, simplePairs, PropertyStepQuery);
        if r.None? {
          verdict := Conclude(i, PropertyStepQuery);
          return;
        }
        MoreClauses(i, SurePairs(i), simplePairs, PropertyStepQuery);
      }
      if !options.oneTimeBaseCheck {
        var safe := CheckBase(i);
        if !safe {
          return Some(False);
        }
      }
      unrolled := i + options.boundStep;
      reachedK := i;
      verdict := None;
    }

    lemma MoreClauses(i: nat, pairs: set<(nat, nat)>, more: set<(nat, nat)>, q: Query)
      requires pairs <= more
      ensures Unsat(vs, i, pairs, q) ==> Unsat(vs, i, more, q)
    {
      if p :| IsPath(vs.ts, p) && IsModel(vs, i, more, q, p) {
        assert IsModel(vs, i, pairs, q, p);
      }
    }

    /** The base case at bound i. */
    method CheckBase(i: nat) returns (safe: bool)
      requires WellShaped(vs) && simplePairs <= AllPairs(i) && NoCexUpTo(vs.ts, i - 1)
      modifies this`trace
      ensures safe ==> NoCexUpTo(vs.ts, i)
      ensures !safe ==> ShortestCex(vs.ts, trace)
    {
      var r := CheckQuery(vs, i, simplePairs, BaseQuery);
      safe := r.None?;
      if r.Some? {
        trace := r.value;
      } else {
        BaseCase(vs, i, simplePairs);
      }
    }

    /** An inductive query was unsatisfiable: the property holds, unless base cases were
        postponed and the final one finds a counterexample. */
    method Conclude(i: nat, ghost q: Query) returns (verdict: Option<ProverResult>)
      requires WellShaped(vs) && (transTotal ==> RightTotal(vs.ts))
      requires simplePairs <= AllPairs(i) && Unsat(vs, i, simplePairs, q)
      requires q == SimplePathQuery || q == InitStepQuery || q == PropertyStepQuery
      requires !options.oneTimeBaseCheck ==> NoCexUpTo(vs.ts, i - 1)
      modifies this`trace
      ensures verdict == Some(True) || (verdict == Some(False) && options.oneTimeBaseCheck)
      ensures if verdict == Some(True) then Safe(vs.ts) else IsCex(vs.ts, trace)
    {
      if options.oneTimeBaseCheck {
        var safe := FinalBaseCaseCheck(i);
        if !safe {
          return Some(False);
        }
      }
      if q == PropertyStepQuery {
        SuffixExit(vs, i, simplePairs, q);
      } else {
        PrefixExit(vs, i, simplePairs, q);
      }
      verdict := Some(True);
    }

    method FinalBaseCaseCheck(i: nat) returns (safe: bool)
      requires WellFormed(vs.ts) && (transTotal ==> RightTotal(vs.ts))
      modifies this`trace
      ensures safe ==> NoCexUpTo(vs.ts, i)
      ensures !safe ==> IsCex(vs.ts, trace)
    {
      if transTotal {
        var r := CheckSat(BadSomewhere(vs.ts, i));
        if r.Some? {
          var j :| 0 <= j <= i && r.value[j] in vs.ts.bad;
          PathsSound(vs.ts, i, r.value);
          SubPath(vs.ts, r.value, 0, j + 1);
          trace := r.value[0..j + 1];
          return false;
        }
        forall p: seq<State> | IsCex(vs.ts, p) ensures |p| - 1 > i {
          if |p| <= i + 1 {
            BadSomewhereComplete(vs.ts, i, p);
          }
        }
      } else {
        var r := CheckSat(NestedCex(vs.ts, i));
        if r.Some? {
          NestedCexSound(vs.ts, i, r.value);
          trace := r.value;
          return false;
        }
        forall p: seq<State> | IsCex(vs.ts, p) ensures |p| - 1 > i {
          if |p| <= i + 1 {
            NestedCexComplete(vs.ts, i, p);
          }
        }
      }
      safe := true;
    }

    /** Adds every clause for the new time i, then asks once. */
    method CheckSimplePathEager(i: nat) returns (unsat: bool)
      requires WellFormed(vs.ts)
      requires simplePairs == if i == 0 then {} else AllPairs(i - 1)
      modifies this`simplePairs
      ensures simplePairs == AllPairs(i)
      ensures unsat <==> NoSimplePath(vs, i)
      ensures unsat <==> Unsat(vs, i, simplePairs, SimplePathQuery)
    {
      var j := 0;
      while j < i
        invariant 0 <= j <= i
        invariant simplePairs == (if i == 0 then {} else AllPairs(i - 1)) + set a | 0 <= a < j :: (a, i)
      {
        simplePairs := simplePairs + {(j, i)};
        j := j + 1;
      }
      assert simplePairs == AllPairs(i);
      var r := CheckQuery(vs, i, simplePairs, SimplePathQuery);
      unsat := r.None?;
    }

    /** Adds violated clauses until the query is unsatisfiable or its model violates none. It
        ends, and its answer is the answer of the eager check. */
    method CheckSimplePathLazy(i: nat) returns (unsat: bool)
      requires WellFormed(vs.ts) && simplePairs <= AllPairs(i)
      modifies this`simplePairs
      ensures old(simplePairs) <= simplePairs <= AllPairs(i)
      ensures unsat <==> NoSimplePath(vs, i)
      ensures unsat ==> Unsat(vs, i, simplePairs, SimplePathQuery)
    {
      while true
        invariant old(simplePairs) <= simplePairs <= AllPairs(i)
        decreases AllPairs(i) - simplePairs
      {
        var r := CheckQuery(vs, i, simplePairs, SimplePathQuery);
        if r.None? {
          return true;
        }
        var p := r.value;
        var violated := ViolatedPairs(p, i);
        if violated == {} {
          assert forall e | e in AllPairs(i) :: Differ(vs, p, e.0, e.1);
          assert IsModel(vs, i, AllPairs(i), SimplePathQuery, p);
          return false;
        }
        ghost var e :| e in violated;
        assert e !in simplePairs && e in AllPairs(i) - simplePairs;
        simplePairs := simplePairs + violated;
      }
    }

    /** The clauses one pass over the model adds: every violated one, or for each outer index
        up to the first that has one only its first violation. */
    method ViolatedPairs(p: seq<State>, i: nat) returns (violated: set<(nat, nat)>)
      ensures violated <= AllPairs(i)
      ensures forall e | e in violated :: !Differ(vs, p, e.0, e.1)
      ensures violated == {} ==> forall e | e in AllPairs(i) :: Differ(vs, p, e.0, e.1)
    {
      violated := {};
      var j := 0;
      while j < i && (options.noMultiCall || violated == {})
        invariant 0 <= j <= i
        invariant violated <= AllPairs(i)
        invariant forall e | e in violated :: !Differ(vs, p, e.0, e.1)
        invariant violated == {} ==> forall a, b | 0 <= a < j && a < b <= i :: Differ(vs, p, a, b)
      {
        var l := j + 1;
        while l <= i
          invariant j < l <= i + 1
          invariant violated <= AllPairs(i)
          invariant forall e | e in violated :: !Differ(vs, p, e.0, e.1)
          invariant violated == {} ==> forall a, b | 0 <= a < j && a < b <= i :: Differ(vs, p, a, b)
          invariant violated == {} ==> forall b | j < b < l :: Differ(vs, p, j, b)
        {
          if !Differ(vs, p, j, l) {
            violated := violated + {(j, l)};
            if !options.noMultiCall {
              break;
            }
          }
          l := l + 1;
        }
        j := j + 1;
      }
    }
  }
}
