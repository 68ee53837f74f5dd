/** Bounded model checking. A bound i is tested with i transitions asserted and a bad state
    demanded somewhere in the interval since the last bound; when that is satisfiable, a
    search narrows the interval down. What each search really finds is stated through
    the asserted runs that are bad at given positions. */
module BMC {
  import opened Systems
  import opened Solver

  datatype Options = Options(
    boundStart: nat, boundStep: nat, exponential: bool,
    singleBad: bool, allowNonMinimal: bool, linear: bool, lessInc: bool,
    negInit: bool, negBad: bool, negBadAll: bool)

  // ---------------------------------------------------------------- asserted runs

  predicate NeverBackInInit<S>(ts: System<S>, p: seq<S>) {
    forall j | 1 <= j < |p| :: p[j] !in ts.init
  }

  /** Init(0), T(0), ..., T(n-1), and with negInit also !Init(1), ..., !Init(n). */
  function Asserted<S>(ts: System<S>, negInit: bool, n: nat): set<seq<S>> {
    set p | p in Runs(ts, ts.init, n, ts.states) && (negInit ==> NeverBackInInit(ts, p))
  }

  ghost predicate IsAsserted<S>(ts: System<S>, negInit: bool, n: nat, p: seq<S>) {
    IsPath(ts, p) && |p| == n + 1 && p[0] in ts.init && (negInit ==> NeverBackInInit(ts, p))
  }

  lemma AssertedExact<S(!new)>(ts: System<S>, negInit: bool, n: nat)
    requires WellFormed(ts)
    ensures forall p: seq<S> :: p in Asserted(ts, negInit, n) <==> IsAsserted(ts, negInit, n, p)
  {
    RunsExact(ts, ts.init, n, ts.states);
  }

  predicate BadAt<S>(ts: System<S>, p: seq<S>, j: int) {
    0 <= j < |p| && p[j] in ts.bad
  }

  predicate BadBetween<S>(ts: System<S>, p: seq<S>, lo: int, hi: int) {
    exists j :: lo <= j <= hi && BadAt(ts, p, j)
  }

  /** Some asserted run of n transitions is bad at position j. */
  ghost predicate Hits<S(!new)>(ts: System<S>, negInit: bool, n: nat, j: int) {
    exists p: seq<S> :: IsAsserted(ts, negInit, n, p) && BadAt(ts, p, j)
  }

  /** Of the positions from lb to n, j is the first at which some asserted run is bad. */
  ghost predicate LeastHit<S(!new)>(ts: System<S>, negInit: bool, n: nat, lb: int, j: int) {
    && lb <= j <= n && Hits(ts, negInit, n, j)
    && forall m | lb <= m < j :: !Hits(ts, negInit, n, m)
  }

  /** Some asserted run is bad at j and at no other position from lb to n. */
  ghost predicate HitsOnly<S(!new)>(ts: System<S>, negInit: bool, n: nat, lb: int, j: int) {
    exists p: seq<S> :: IsAsserted(ts, negInit, n, p) && BadAt(ts, p, j) && BadOnlyAt(ts, p, lb, n, j, j)
  }

  /** Of the positions from lb to n, p is bad at none outside low..high. */
  predicate BadOnlyAt<S>(ts: System<S>, p: seq<S>, lb: int, n: int, low: int, high: int) {
    forall j | lb <= j <= n && BadAt(ts, p, j) :: low <= j <= high
  }

  ghost predicate LeastHitOnly<S(!new)>(ts: System<S>, negInit: bool, n: nat, lb: int, j: int) {
    && lb <= j <= n && HitsOnly(ts, negInit, n, lb, j)
    && forall m | lb <= m < j :: !HitsOnly(ts, negInit, n, lb, m)
  }

  /** The asserted runs that end in s can be continued. */
  ghost predicate CanContinue<S(!new)>(ts: System<S>, negInit: bool, s: S) {
    exists e :: e in ts.trans && e.0 == s && (negInit ==> e.1 !in ts.init)
  }

  /** Every state has a successor and, with the constraints against Init, one outside Init. */
  ghost predicate AlwaysContinues<S(!new)>(ts: System<S>, negInit: bool) {
    forall s | s in ts.states :: CanContinue(ts, negInit, s)
  }

  /** No asserted run of n transitions is bad anywhere. */
  ghost predicate Clean<S(!new)>(ts: System<S>, negInit: bool, n: int) {
    n < 0 || forall p: seq<S>, j | IsAsserted(ts, negInit, n, p) && 0 <= j <= n :: !BadAt(ts, p, j)
  }

  lemma CleanPrefix<S(!new)>(ts: System<S>, negInit: bool, r: int, n: nat, p: seq<S>, j: int)
    requires Clean(ts, negInit, r) && IsAsserted(ts, negInit, n, p) && j <= r <= n
    ensures !BadAt(ts, p, j)
  {
    if r >= 0 && j >= 0 {
      var q := p[0..r + 1];
      SubPath(ts, p, 0, r + 1);
      assert IsAsserted(ts, negInit, r, q);
      assert BadAt(ts, p, j) ==> BadAt(ts, q, j);
    }
  }

  // ---------------------------------------------------------------- the assertion stack

  datatype Constraint = BadAtSome(lo: int, hi: int) | NotBadAt(j: int)

  predicate Meets<S>(ts: System<S>, p: seq<S>, c: Constraint) {
    match c
    case BadAtSome(lo, hi) => BadBetween(ts, p, lo, hi)
    case NotBadAt(j) => !BadAt(ts, p, j)
  }

  predicate MeetsFrame<S>(ts: System<S>, p: seq<S>, f: seq<Constraint>) {
    forall c | c in f :: Meets(ts, p, c)
  }

  predicate MeetsAll<S>(ts: System<S>, p: seq<S>, stack: seq<seq<Constraint>>) {
    forall k | 0 <= k < |stack| :: MeetsFrame(ts, p, stack[k])
  }

  function Models<S>(ts: System<S>, negInit: bool, n: nat, stack: seq<seq<Constraint>>): set<seq<S>> {
    set p | p in Asserted(ts, negInit, n) && MeetsAll(ts, p, stack)
  }

  function TopAnd(stack: seq<seq<Constraint>>, c: Constraint): (r: seq<seq<Constraint>>)
    requires |stack| > 0
    ensures |r| == |stack|
  {
    stack[..|stack| - 1] + [stack[|stack| - 1] + [c]]
  }

  lemma TopAndMeets<S>(ts: System<S>, p: seq<S>, stack: seq<seq<Constraint>>, c: Constraint)
    requires |stack| > 0
    ensures MeetsAll(ts, p, TopAnd(stack, c)) <==> MeetsAll(ts, p, stack) && Meets(ts, p, c)
  {
    var r, top := TopAnd(stack, c), |stack| - 1;
    assert forall k | 0 <= k < top :: r[k] == stack[k];
    assert r[top] == stack[top] + [c];
    assert MeetsFrame(ts, p, r[top]) <==> MeetsFrame(ts, p, stack[top]) && Meets(ts, p, c);
    if MeetsAll(ts, p, r) {
      forall k | 0 <= k < |stack| ensures MeetsFrame(ts, p, stack[k]) {
        assert MeetsFrame(ts, p, r[k]);
      }
    }
  }

  lemma PushMeets<S>(ts: System<S>, p: seq<S>, stack: seq<seq<Constraint>>, f: seq<Constraint>)
    ensures MeetsAll(ts, p, stack + [f]) <==> MeetsAll(ts, p, stack) && MeetsFrame(ts, p, f)
  {
    var r := stack + [f];
    if MeetsAll(ts, p, r) {
      assert MeetsFrame(ts, p, r[|stack|]);
      forall k | 0 <= k < |stack| ensures MeetsFrame(ts, p, stack[k]) {
        assert MeetsFrame(ts, p, r[k]);
      }
    }
  }

  // ---------------------------------------------------------------- options and answers

  /** Every bound is tested on its own. */
  predicate Unit(o: Options) {
    o.boundStart == 0 && o.boundStep == 1 && !o.exponential
  }

  /** No position is left untested. */
  predicate Complete(o: Options) {
    !o.singleBad || Unit(o)
  }

  /** The searches that ask for every position again. */
  predicate ExactSearch(o: Options) {
    !o.allowNonMinimal && !o.singleBad && (o.linear || o.lessInc)
  }

  function NextBound(o: Options, bound: nat): nat {
    if o.exponential then (if bound == 0 then 1 else 2 * bound) else bound + o.boundStep
  }

  /** The n-th bound of a call. */
  function ScheduledBound(o: Options, n: nat): nat {
    if n == 0 then o.boundStart else NextBound(o, ScheduledBound(o, n - 1))
  }

  /** reachedK after n bounds, when it was r before. */
  function ReachedAfter(o: Options, r: int, n: nat): int {
    if n == 0 || ScheduledBound(o, n - 1) <= r then r else ScheduledBound(o, n - 1)
  }

  /** After n bounds the interval from lb to i is next, when reachedK was r before. */
  ghost predicate NextInterval(o: Options, r: int, n: nat, lb: int, i: int) {
    i == ScheduledBound(o, n) && lb == ReachedAfter(o, r, n) + 1
  }

  /** The bounds increase, so from the first one above r on each of them is tested. */
  lemma {:induction false} BoundsGrow(o: Options, r: int, n: nat, lb: int, i: int)
    requires o.boundStep > 0 && r >= -1 && NextInterval(o, r, n, lb, i)
    ensures i >= 0 && lb > r && i < NextBound(o, i)
    ensures NextInterval(o, r, n + 1, if i >= lb then i + 1 else lb, NextBound(o, i))
    ensures i > r <==> i >= lb
    ensures Unit(o) ==> i == n <= lb
  {
    if n > 0 {
      BoundsGrow(o, r, n - 1, ReachedAfter(o, r, n - 1) + 1, ScheduledBound(o, n - 1));
    }
  }

  /** What testing the interval from lb to i in vain means: an asserted run that is bad where it was
      looked for is bad before lb too, and was only missed if all those positions are excluded. */
  ghost predicate Passed<S(!new)>(ts: System<S>, o: Options, lb: int, i: int) {
    i >= 0 && forall p: seq<S> | IsAsserted(ts, o.negInit, i, p) && BadBetween(ts, p, if o.singleBad then i else lb, i) ::
      o.negBadAll && BadBetween(ts, p, 0, lb - 1)
  }

  /** The first n scheduled bounds are at most k and, where they lie above r, tested in vain. */
  ghost predicate AllPassed<S(!new)>(ts: System<S>, o: Options, r: int, n: nat, k: int) {
    forall m: nat, lb: int, i: int {:trigger NextInterval(o, r, m, lb, i)} | m < n && NextInterval(o, r, m, lb, i) ::
      i <= k && (i > r ==> Passed(ts, o, lb, i))
  }

  lemma FirstInterval<S(!new)>(ts: System<S>, o: Options, r: int, k: int)
    ensures NextInterval(o, r, 0, r + 1, o.boundStart) && AllPassed(ts, o, r, 0, k)
  {
  }

  lemma OneMorePassed<S(!new)>(ts: System<S>, o: Options, r: int, n: nat, k: int, lb: int, i: int)
    requires AllPassed(ts, o, r, n, k) && NextInterval(o, r, n, lb, i) && i <= k && (i > r ==> i >= 0 && Passed(ts, o, lb, i))
    ensures AllPassed(ts, o, r, n + 1, k)
  {
  }

  /** Unless all positions are excluded, the persistent constraints exclude no run. */
  ghost predicate Harmless<S(!new)>(ts: System<S>, o: Options, r: int, base: seq<Constraint>) {
    BlocksUpTo(base, r) && (!o.negBadAll ==> forall p: seq<S>, n: nat | n >= r && IsAsserted(ts, o.negInit, n, p) :: MeetsFrame(ts, p, base))
  }

  /** What the search for the shortest counterexample of the interval from lb to n delivers. */
  ghost predicate Minimal<S(!new)>(ts: System<S>, o: Options, lb: int, n: nat, reachedK: int, model: seq<S>) {
    && IsAsserted(ts, o.negInit, n, model) && BadAt(ts, model, reachedK + 1)
    && (LeastHit(ts, o.negInit, n, lb, reachedK + 1)
        || (!o.linear && !o.lessInc && LeastHitOnly(ts, o.negInit, n, lb, reachedK + 1)))
  }

  /** What holds when the interval from lb to i was found to contain a counterexample. */
  ghost predicate Found<S(!new)>(ts: System<S>, o: Options, lb: int, i: int, first: int, reachedK: int, model: seq<S>) {
    && 0 <= lb <= i && IsAsserted(ts, o.negInit, i, model)
    && if o.allowNonMinimal || o.singleBad then
         reachedK == i - 1 && BadBetween(ts, model, if o.singleBad then i else lb, i)
       else if first == lb then
         reachedK == i - 1 && BadAt(ts, model, lb)
       else
         lb < first <= i && reachedK < first && Minimal(ts, o, lb, i, reachedK, model)
  }

  // ---------------------------------------------------------------- what the searches keep

  /** Every asserted run that is bad between lo and hi passes the stack. */
  ghost predicate Admits<S(!new)>(ts: System<S>, negInit: bool, n: nat, stack: seq<seq<Constraint>>, lo: int, hi: int) {
    forall p: seq<S> | IsAsserted(ts, negInit, n, p) && BadBetween(ts, p, lo, hi) :: MeetsAll(ts, p, stack)
  }

  /** The stack selects the asserted runs that are bad from lb on, but only within low..high. */
  ghost predicate Selects<S(!new)>(ts: System<S>, negInit: bool, n: nat, stack: seq<seq<Constraint>>, lb: int, low: int, high: int) {
    forall p: seq<S> | IsAsserted(ts, negInit, n, p) ::
      MeetsAll(ts, p, stack) <==> BadBetween(ts, p, lb, n) && BadOnlyAt(ts, p, lb, n, low, high)
  }

  /** The persistent constraints exclude no run once the bounds up to r are known to be clean. */
  ghost predicate BlocksUpTo(base: seq<Constraint>, r: int) {
    forall c | c in base :: c.NotBadAt? && c.j <= r
  }

  lemma BaseAdmits<S(!new)>(ts: System<S>, negInit: bool, r: int, n: nat, base: seq<Constraint>, p: seq<S>)
    requires Clean(ts, negInit, r) && BlocksUpTo(base, r) && r <= n && IsAsserted(ts, negInit, n, p)
    ensures MeetsAll(ts, p, [base])
  {
    forall c | c in base ensures Meets(ts, p, c) {
      CleanPrefix(ts, negInit, r, n, p, c.j);
    }
  }

  class Bmc<S(==, !new)> {
    const ts: System<S>
    const options: Options
    var reachedK: int
    /** The number of transitions asserted. */
    var unrolled: nat
    /** The assertions beyond Init and the transitions, one frame per push. */
    var stack: seq<seq<Constraint>>
    /** The solver's model of the last satisfiable check. */
    var model: seq<S>
    /** An unsigned 32-bit counter. */
    var binSearchFrames: nat

    /** Run p passes all current assertions. */
    ghost predicate Passes(p: seq<S>)
      reads this
    {
      IsAsserted(ts, options.negInit, unrolled, p) && MeetsAll(ts, p, stack)
    }

    method CheckSatNow() returns (sat: bool)
      requires WellFormed(ts)
      modifies this`model
      ensures sat ==> Passes(model)
      ensures !sat ==> forall p: seq<S> | IsAsserted(ts, options.negInit, unrolled, p) :: !MeetsAll(ts, p, stack)
    {
      AssertedExact(ts, options.negInit, unrolled);
      var r := CheckSat(Models(ts, options.negInit, unrolled, stack));
      sat := r.Some?;
      if sat {
        model := r.value;
        assert Passes(model);
      } else {
        forall p: seq<S> | IsAsserted(ts, options.negInit, unrolled, p) ensures !MeetsAll(ts, p, stack) {
          assert p !in Models(ts, options.negInit, unrolled, stack);
        }
      }
    }

    /** The first position of the interval at which the current model is bad. */
    method IntervalCexUb(lb: int, ub: int) returns (j: int)
      requires BadBetween(ts, model, lb, ub)
      ensures lb <= j <= ub && BadAt(ts, model, j)
      ensures forall m | lb <= m < j :: !BadAt(ts, model, m)
    {
      j := lb;
      while j <= ub && !BadAt(ts, model, j)
        invariant lb <= j <= ub + 1
        invariant forall m | lb <= m < j :: !BadAt(ts, model, m)
      {
        j := j + 1;
      }
    }

    method IntervalBlockCexUb(start: int, end: int)
      requires |stack| > 0
      modifies this`stack
      ensures |stack| == |old(stack)| && stack[..|stack| - 1] == old(stack)[..|stack| - 1]
      ensures forall p: seq<S> :: MeetsAll(ts, p, stack) <==>
                                  MeetsAll(ts, p, old(stack)) && forall m | start <= m <= end :: !BadAt(ts, p, m)
    {
      hide MeetsAll;
      var k := start;
      while k <= end
        invariant start <= k && (k <= end + 1 || k == start)
        invariant |stack| == |old(stack)| && stack[..|stack| - 1] == old(stack)[..|stack| - 1]
        invariant forall p: seq<S> :: MeetsAll(ts, p, stack) <==>
                                      MeetsAll(ts, p, old(stack)) && forall m | start <= m < k :: !BadAt(ts, p, m)
      {
        ghost var before := stack;
        stack := TopAnd(stack, NotBadAt(k));
        forall p: seq<S> ensures MeetsAll(ts, p, stack) <==> MeetsAll(ts, p, before) && !BadAt(ts, p, k) {
          TopAndMeets(ts, p, before, NotBadAt(k));
        }
        k := k + 1;
      }
    }

    /** Replaces the top frame by a single clause and checks. */
    method CheckFresh(lo: int, hi: int) returns (sat: bool)
      requires WellFormed(ts) && |stack| > 0 && Admits(ts, options.negInit, unrolled, stack[..|stack| - 1], lo, hi)
      modifies this`stack, this`model
      ensures stack == old(stack)[..|old(stack)| - 1] + [[BadAtSome(lo, hi)]]
      ensures sat <==> exists p: seq<S> :: IsAsserted(ts, options.negInit, unrolled, p) && BadBetween(ts, p, lo, hi)
      ensures sat ==> IsAsserted(ts, options.negInit, unrolled, model) && BadBetween(ts, model, lo, hi)
    {
      hide IsAsserted;
      stack := stack[..|stack| - 1];
      ghost var rest := stack;
      stack := stack + [[BadAtSome(lo, hi)]];
      sat := CheckSatNow();
      forall p: seq<S> | IsAsserted(ts, options.negInit, unrolled, p)
        ensures MeetsAll(ts, p, stack) <==> BadBetween(ts, p, lo, hi)
      {
        PushMeets(ts, p, rest, [BadAtSome(lo, hi)]);
        assert BadAtSome(lo, hi) in [BadAtSome(lo, hi)];
      }
    }

    /** Tries one position after the other. The exception for an overconstrained formula is the
        answer ok == false, which cannot happen. */
    method FindShortestCexLinearSearch(ub: int) returns (ok: bool)
      requires WellFormed(ts) && -1 <= reachedK < ub <= unrolled
      requires |stack| == 2 && Admits(ts, options.negInit, unrolled, stack[..1], reachedK + 1, ub)
      requires Hits(ts, options.negInit, unrolled, ub)
      modifies this`reachedK, this`stack, this`model
      ensures ok && LeastHit(ts, options.negInit, unrolled, old(reachedK) + 1, reachedK + 1) && reachedK < ub
      ensures old(reachedK) + 1 < ub ==> IsAsserted(ts, options.negInit, unrolled, model) && BadAt(ts, model, reachedK + 1)
    {
      if ub - reachedK == 1 {
        return true;
      }
      hide IsAsserted;
      ghost var n, ni, lb, base := unrolled, options.negInit, reachedK + 1, stack[..1];
      ghost var w: seq<S> :| IsAsserted(ts, ni, n, w) && BadAt(ts, w, ub);
      var j := reachedK + 1;
      var found := false;
      while j <= ub && !found
        invariant lb <= j == reachedK + 1 <= ub + 1
        invariant |stack| == 2 && stack[..1] == base
        invariant forall m | lb <= m < j :: !Hits(ts, ni, n, m)
        invariant found ==> j <= ub && IsAsserted(ts, ni, n, model) && BadAt(ts, model, j)
        invariant forall m | lb <= m <= ub :: Admits(ts, ni, n, base, m, m)
        decreases ub - j, !found
      {
        var sat := CheckFresh(j, j);
        if sat {
          found := true;
        } else {
          assert !Hits(ts, ni, n, j) by {
            assert forall p: seq<S> :: BadAt(ts, p, j) ==> BadBetween(ts, p, j, j);
          }
          reachedK := j;
          j := j + 1;
        }
      }
      assert j <= ub by {
        assert j > ub ==> !Hits(ts, ni, n, ub);
      }
      assert Hits(ts, ni, n, j);
      ok := j <= ub;
    }

    /** Asks for a bad position between low and mid, with a new clause each time. */
    method FindShortestCexBinarySearchLessInc(ub: int)
      requires WellFormed(ts) && -1 <= reachedK < ub <= unrolled
      requires |stack| >= 2 && Admits(ts, options.negInit, unrolled, stack[..|stack| - 1], reachedK + 1, ub)
      requires Hits(ts, options.negInit, unrolled, ub)
      modifies this`reachedK, this`stack, this`model
      ensures LeastHit(ts, options.negInit, unrolled, old(reachedK) + 1, reachedK + 1) && reachedK < ub
      ensures IsAsserted(ts, options.negInit, unrolled, model) && BadAt(ts, model, reachedK + 1)
    {
      hide IsAsserted;
      ghost var n, ni, lb, rest := unrolled, options.negInit, reachedK + 1, stack[..|stack| - 1];
      var low, high := reachedK + 1, ub;
      var found := false;
      while low <= high && !found
        invariant lb <= low <= high <= ub && reachedK == low - 1
        invariant |stack| == |rest| + 1 && stack[..|rest|] == rest
        invariant Hits(ts, ni, n, high) && forall m | lb <= m < low :: !Hits(ts, ni, n, m)
        invariant found ==> IsAsserted(ts, ni, n, model) && BadAt(ts, model, low)
        decreases high - low, !found
      {
        var mid := low + (high - low) / 2;
        assert Admits(ts, ni, n, rest, low, mid);
        var sat := CheckFresh(low, mid);
        if sat {
          if low == mid {
            found := true;
          } else {
            high := IntervalCexUb(low, mid);
          }
        } else {
          forall m | low <= m <= mid ensures !Hits(ts, ni, n, m) {
            assert forall p: seq<S> :: BadAt(ts, p, m) ==> BadBetween(ts, p, low, mid);
          }
          reachedK := mid;
          low := mid + 1;
        }
      }
    }

    /** Blocks everything outside low..high instead of asking again for the positions inside. An
        unsat answer thus says nothing of runs that are bad again later. Fails when the blocked
        formula has no model left. */
    method FindShortestCexBinarySearch(ub: int) returns (success: bool)
      requires WellFormed(ts) && -1 <= reachedK < ub <= unrolled && binSearchFrames == 0
      requires |stack| >= 2 && Selects(ts, options.negInit, unrolled, stack, reachedK + 1, reachedK + 1, ub)
      modifies this`reachedK, this`stack, this`model, this`binSearchFrames
      ensures |stack| == |old(stack)| + binSearchFrames && stack[0] == old(stack)[0]
      ensures success ==> LeastHitOnly(ts, options.negInit, unrolled, old(reachedK) + 1, reachedK + 1) && reachedK < ub
      ensures success ==> IsAsserted(ts, options.negInit, unrolled, model) && BadAt(ts, model, reachedK + 1)
    {
      hide IsAsserted;
      hide MeetsAll;
      ghost var n, ni, lb := unrolled, options.negInit, reachedK + 1;
      ghost var size, base := |stack|, stack[0];
      var low, high := reachedK + 1, ub;
      var found := false;
      while low <= high && !found
        invariant lb <= low <= high <= ub && reachedK == low - 1
        invariant |stack| == size + binSearchFrames && stack[0] == base
        invariant !found ==> Selects(ts, ni, n, stack, lb, low, high)
        invariant forall m | lb <= m < low :: !HitsOnly(ts, ni, n, lb, m)
        invariant found ==> IsAsserted(ts, ni, n, model) && BadAt(ts, model, low) && BadOnlyAt(ts, model, lb, n, low, low)
        decreases high - low, !found
      {
        var mid := low + (high - low) / 2;
        ghost var before := stack;
        stack := stack + [[]];
        binSearchFrames := binSearchFrames + 1;
        IntervalBlockCexUb(mid + 1, high);
        assert Selects(ts, ni, n, stack, lb, low, mid) by {
          SelectsLow(ts, ni, n, before, stack, lb, low, mid, high);
        }
        var sat := CheckSatNow();
        if sat {
          assert BadBetween(ts, model, low, mid);
          if low == mid {
            found := true;
          } else {
            ghost var pushed := stack;
            high := IntervalCexUb(low, mid);
            IntervalBlockCexUb(high + 1, mid);
            assert Selects(ts, ni, n, stack, lb, low, high) by {
              SelectsBlocked(ts, ni, n, pushed, stack, lb, low, high, mid);
            }
          }
        } else {
          assert forall m | low <= m <= mid :: !HitsOnly(ts, ni, n, lb, m) by {
            NoneSelected(ts, ni, n, stack, lb, low, mid);
          }
          if low >= high {
            return false;
          }
          stack := stack[..|stack| - 1];
          binSearchFrames := binSearchFrames - 1;
          assert stack == before;
          reachedK := mid;
          IntervalBlockCexUb(low, mid);
          assert Selects(ts, ni, n, stack, lb, mid + 1, high) by {
            SelectsHigh(ts, ni, n, before, stack, lb, low, mid, high);
          }
          low := mid + 1;
        }
      }
      success := true;
    }

    ghost predicate Valid()
      reads this
    {
      && WellFormed(ts) && options.boundStep > 0
      && reachedK >= -1 && unrolled == (if reachedK < 0 then 0 else reachedK)
      && |stack| == 1 && Harmless(ts, options, reachedK, stack[0])
      && (Complete(options) ==> Clean(ts, options.negInit, reachedK))
      && (Unit(options) ==> NoCexUpTo(ts, reachedK))
    }

    constructor (ts: System<S>, options: Options)
      requires WellFormed(ts) && options.boundStep > 0
      ensures Valid() && this.ts == ts && this.options == options && reachedK == -1 && binSearchFrames == 0
    {
      this.ts, this.options := ts, options;
      reachedK, unrolled, stack, model, binSearchFrames := -1, 0, [[]], [], 0;
    }

    /** initialized_ is cleared and the assertions go, but binSearchFrames keeps its value: the
        default search, which wants it to be 0, may then not be entered again. */
    method ResetEnv()
      requires WellFormed(ts) && options.boundStep > 0
      modifies this
      ensures Valid() && reachedK == -1 && binSearchFrames == old(binSearchFrames)
    {
      reachedK, unrolled, stack := -1, 0, [[]];
    }

    /** Tests every bound on the way to k: n scheduled bounds are passed, and the interval from lb to i
        is the one that gives the answer or the first one beyond k. */
    method CheckUntil(k: int) returns (r: ProverResult, ghost lb: int, ghost i: int, ghost first: int, ghost n: nat)
      requires Valid() && binSearchFrames == 0
      modifies this
      ensures !r.True?
      ensures NextInterval(options, old(reachedK), n, lb, i) && AllPassed(ts, options, old(reachedK), n, k)
      ensures r.Unknown? ==> i > k && reachedK == lb - 1
      ensures r.Unknown? ==> Valid() && (Unit(options) ==> reachedK >= k && NoCexUpTo(ts, reachedK))
      ensures r.Unknown? && Complete(options) && AlwaysContinues(ts, options.negInit) ==> NoCexUpTo(ts, reachedK)
      ensures r.False? ==> !Safe(ts) && Found(ts, options, lb, i, first, reachedK, model) && lb > old(reachedK) && i <= k
      ensures r.False? && Unit(options) ==> ShortestCex(ts, model)
      ensures r.False? && ExactSearch(options) && AlwaysContinues(ts, options.negInit) && (first > lb || i == lb) ==>
                ShortestCex(ts, model[..reachedK + 2])
    {
      hide NextInterval, AllPassed, Harmless, Clean, NoCexUpTo, Found, AlwaysContinues;
      i, lb, first, n := options.boundStart, reachedK + 1, 0, 0;
      FirstInterval(ts, options, reachedK, k);
      var bound := options.boundStart;
      BoundsGrow(options, old(reachedK), n, lb, i);
      while bound <= k
        invariant bound == i >= 0 && lb == reachedK + 1 && Valid() && binSearchFrames == 0
        invariant NextInterval(options, old(reachedK), n, lb, i) && AllPassed(ts, options, old(reachedK), n, k)
        invariant Unit(options) ==> i <= lb
        decreases k - bound
      {
        BoundsGrow(options, old(reachedK), n, lb, i);
        var safe;
        safe, first := Step(bound);
        if !safe {
          Reported(ts, options, lb, i, first, reachedK, model);
          return False, lb, i, first, n;
        }
        OneMorePassed(ts, options, old(reachedK), n, k, lb, i);
        bound := if options.exponential then (if bound == 0 then 1 else 2 * bound) else bound + options.boundStep;
        n, lb, i := n + 1, reachedK + 1, NextBound(options, i);
        BoundsGrow(options, old(reachedK), n, lb, i);
      }
      r := Unknown;
      CleanBound(ts, options.negInit, reachedK);
    }

    /** Tests the interval from the last bound to i. When a run is found, first is the first
        position of the interval at which the solver's first model is bad. */
    method Step(i: nat) returns (safe: bool, ghost first: int)
      requires Valid() && binSearchFrames == 0 && (Unit(options) ==> i <= reachedK + 1)
      modifies this
      ensures safe ==> Valid() && binSearchFrames == 0 && reachedK == if i > old(reachedK) then i else old(reachedK)
      ensures safe && i > old(reachedK) ==> Passed(ts, options, old(reachedK) + 1, i)
      ensures !safe ==> i > old(reachedK) && Found(ts, options, old(reachedK) + 1, i, first, reachedK, model)
    {
      hide IsAsserted;
      hide NoCexUpTo;
      first := 0;
      if i <= reachedK {
        return true, first;
      }
      unrolled := Unroll(i);
      ghost var r, base := reachedK, stack[0];
      var clause := BadAtSome(if options.singleBad then i else reachedK + 1, i);
      stack := stack + [[clause]];
      assert stack == [base] + [[clause]] && stack[..1] == [base];
      var sat := CheckSatNow();
      Queried(ts, options.negInit, r, i, base, clause);
      if !sat {
        NothingFound(ts, options, r, i, clause, stack);
        NothingPassed(ts, options, r, i, base, clause);
        stack := stack[..|stack| - 1];
        assert stack == [base];
        AssertNegatedBad(i);
        StaysHarmless(ts, options, r, i, base, stack[0]);
        reachedK := i;
        return true, first;
      }
      safe := false;
      first := Narrow(i, clause);
    }

    /** What follows a satisfiable check. */
    method Narrow(i: nat, ghost clause: Constraint) returns (ghost first: int)
      requires WellFormed(ts) && -1 <= reachedK < i == unrolled && binSearchFrames == 0
      requires clause == BadAtSome(if options.singleBad then i else reachedK + 1, i) && |stack| == 2 && stack[1] == [clause]
      requires Complete(options) ==> Admits(ts, options.negInit, i, stack[..1], clause.lo, i)
      requires Complete(options) ==> Selects(ts, options.negInit, i, stack, clause.lo, clause.lo, i)
      requires IsAsserted(ts, options.negInit, i, model) && BadBetween(ts, model, clause.lo, i)
      modifies this
      ensures Found(ts, options, old(reachedK) + 1, i, first, reachedK, model)
    {
      hide IsAsserted;
      hide Admits;
      hide Selects;
      first := 0;
      if options.allowNonMinimal || options.singleBad {
        reachedK := i - 1;
        return;
      }
      var cexUb := IntervalCexUb(reachedK + 1, i);
      first := cexUb;
      if cexUb - reachedK == 1 {
        reachedK := i - 1;
        return;
      }
      FindShortest(i, cexUb, clause);
    }

    /** Transitions are asserted up to the new bound. */
    method Unroll(i: nat) returns (n: nat)
      requires Valid() && i > reachedK
      ensures n == i
    {
      n := unrolled;
      var j := if reachedK == -1 then 1 else reachedK + 1;
      while j <= i
        invariant j == n + 1 && n <= i
      {
        n := n + 1;
        j := j + 1;
      }
    }

    method AssertNegatedBad(i: nat)
      requires |stack| == 1 && BlocksUpTo(stack[0], reachedK) && reachedK < i
      modifies this`stack
      ensures |stack| == 1 && BlocksUpTo(stack[0], i)
      ensures !options.negBadAll ==> stack[0] == old(stack)[0] + if options.negBad then [NotBadAt(i)] else []
    {
      if options.negBadAll {
        var j := reachedK + 1;
        while j <= i
          invariant |stack| == 1 && BlocksUpTo(stack[0], i)
        {
          stack := TopAnd(stack, NotBadAt(j));
          j := j + 1;
        }
      } else if options.negBad {
        stack := TopAnd(stack, NotBadAt(i));
      }
    }

    /** Narrows the interval down by the search the options ask for. */
    method FindShortest(i: nat, cexUb: int, ghost clause: Constraint)
      requires WellFormed(ts) && -1 <= reachedK && reachedK + 1 < cexUb <= i == unrolled && binSearchFrames == 0
      requires clause == BadAtSome(reachedK + 1, i) && |stack| == 2 && stack[1] == [clause]
      requires Admits(ts, options.negInit, i, stack[..1], reachedK + 1, i)
      requires Selects(ts, options.negInit, i, stack, reachedK + 1, reachedK + 1, i)
      requires IsAsserted(ts, options.negInit, i, model) && BadAt(ts, model, cexUb)
      requires forall m | reachedK + 1 <= m < cexUb :: !BadAt(ts, model, m)
      modifies this
      ensures Minimal(ts, options, old(reachedK) + 1, i, reachedK, model) && reachedK < cexUb
    {
      hide IsAsserted;
      hide MeetsAll;
      ghost var n, ni, lb, before := i, options.negInit, reachedK + 1, stack;
      assert Hits(ts, ni, i, cexUb);
      var saved := reachedK;
      if cexUb + 1 <= i {
        stack := stack + [[]];
      }
      ghost var pushed := stack;
      IntervalBlockCexUb(cexUb + 1, i);
      assert Selects(ts, ni, i, stack, lb, lb, cexUb) by {
        if cexUb + 1 <= i {
          SelectsLow(ts, ni, i, before, stack, lb, lb, cexUb, i);
        } else {
          SelectsBlocked(ts, ni, i, before, stack, lb, lb, cexUb, i);
        }
      }
      assert stack[0] == before[0];
      var success := false;
      if !options.linear {
        if !options.lessInc {
          success := FindShortestCexBinarySearch(cexUb);
        } else {
          assert Admits(ts, ni, i, stack[..|stack| - 1], lb, cexUb) by {
            ClauseAdmits(ts, ni, i, before, stack[..|stack| - 1], lb, cexUb);
          }
          FindShortestCexBinarySearchLessInc(cexUb);
          success := true;
        }
      }
      if !success {
        reachedK := saved;
        if cexUb + 1 <= i {
          stack := stack[..|stack| - 1];
        }
        PopSearchFrames();
        assert stack[..1] == before[..1];
        var ok := FindShortestCexLinearSearch(cexUb);
      }
    }

    /** while (bin_search_frames_-- > 0) pop: the last decrement wraps around. */
    method PopSearchFrames()
      requires |stack| == 2 + binSearchFrames
      modifies this`stack, this`binSearchFrames
      ensures |stack| == 2 && stack == old(stack)[..2] && binSearchFrames == 0xFFFF_FFFF
    {
      while binSearchFrames > 0
        invariant |stack| == 2 + binSearchFrames && stack == old(stack)[..|stack|]
      {
        binSearchFrames := binSearchFrames - 1;
        stack := stack[..|stack| - 1];
      }
      binSearchFrames := 0xFFFF_FFFF;
    }
  }

  lemma SelectsBlocked<S(!new)>(ts: System<S>, negInit: bool, n: nat, a: seq<seq<Constraint>>, b: seq<seq<Constraint>>,
                                lb: int, low: int, mid: int, high: int)
    requires lb <= low <= mid <= high <= n && Selects(ts, negInit, n, a, lb, low, high)
    requires forall p: seq<S> :: MeetsAll(ts, p, b) <==>
                                 MeetsAll(ts, p, a) && forall m | mid + 1 <= m <= high :: !BadAt(ts, p, m)
    ensures Selects(ts, negInit, n, b, lb, low, mid)
  {
    hide MeetsAll;
    hide IsAsserted;
  }

  /** After a push: blocking above mid. */
  lemma SelectsLow<S(!new)>(ts: System<S>, negInit: bool, n: nat, a: seq<seq<Constraint>>, b: seq<seq<Constraint>>,
                            lb: int, low: int, mid: int, high: int)
    requires lb <= low <= mid <= high <= n && Selects(ts, negInit, n, a, lb, low, high)
    requires forall p: seq<S> :: MeetsAll(ts, p, b) <==>
                                 MeetsAll(ts, p, a + [[]]) && forall m | mid + 1 <= m <= high :: !BadAt(ts, p, m)
    ensures Selects(ts, negInit, n, b, lb, low, mid)
  {
    hide IsAsserted;
    forall p: seq<S> ensures MeetsAll(ts, p, a + [[]]) <==> MeetsAll(ts, p, a) {
      PushMeets(ts, p, a, []);
    }
    SelectsBlocked(ts, negInit, n, a, b, lb, low, mid, high);
  }

  lemma SelectsHigh<S(!new)>(ts: System<S>, negInit: bool, n: nat, a: seq<seq<Constraint>>, b: seq<seq<Constraint>>,
                             lb: int, low: int, mid: int, high: int)
    requires lb <= low <= mid < high <= n && Selects(ts, negInit, n, a, lb, low, high)
    requires forall p: seq<S> :: MeetsAll(ts, p, b) <==>
                                 MeetsAll(ts, p, a) && forall m | low <= m <= mid :: !BadAt(ts, p, m)
    ensures Selects(ts, negInit, n, b, lb, mid + 1, high)
  {
    hide MeetsAll;
    hide IsAsserted;
  }

  lemma NoneSelected<S(!new)>(ts: System<S>, negInit: bool, n: nat, stack: seq<seq<Constraint>>, lb: int, low: int, mid: int)
    requires lb <= low <= mid <= n && Selects(ts, negInit, n, stack, lb, low, mid)
    requires forall p: seq<S> | IsAsserted(ts, negInit, n, p) :: !MeetsAll(ts, p, stack)
    ensures forall m | low <= m <= mid :: !HitsOnly(ts, negInit, n, lb, m)
  {
    hide MeetsAll;
    hide IsAsserted;
  }

  /** Constraints that come from the clause and the base pass every run bad in the interval. */
  lemma ClauseAdmits<S(!new)>(ts: System<S>, negInit: bool, n: nat, before: seq<seq<Constraint>>, rest: seq<seq<Constraint>>,
                              lb: int, ub: int)
    requires lb <= ub <= n && |before| == 2 && Admits(ts, negInit, n, before[..1], lb, n)
    requires before[1] == [BadAtSome(lb, n)] && (rest == before || rest == before[..1])
    ensures Admits(ts, negInit, n, rest, lb, ub)
  {
    hide IsAsserted;
    hide MeetsAll;
    forall p: seq<S> | IsAsserted(ts, negInit, n, p) && BadBetween(ts, p, lb, ub) ensures MeetsAll(ts, p, rest) {
      assert BadBetween(ts, p, lb, n);
      assert before == before[..1] + [[BadAtSome(lb, n)]];
      PushMeets(ts, p, before[..1], [BadAtSome(lb, n)]);
    }
  }

  /** What the base and the clause say together. */
  lemma Queried<S(!new)>(ts: System<S>, negInit: bool, r: int, n: nat, base: seq<Constraint>, clause: Constraint)
    requires r < n && BlocksUpTo(base, r) && clause.BadAtSome? && r < clause.lo <= clause.hi == n
    ensures forall p: seq<S> | MeetsAll(ts, p, [base] + [[clause]]) :: BadBetween(ts, p, clause.lo, n)
    ensures Clean(ts, negInit, r) ==> Admits(ts, negInit, n, [base], clause.lo, n)
    ensures Clean(ts, negInit, r) ==> Selects(ts, negInit, n, [base] + [[clause]], clause.lo, clause.lo, n)
  {
    hide IsAsserted;
    hide Clean;
    forall p: seq<S> ensures MeetsAll(ts, p, [base] + [[clause]]) <==> MeetsAll(ts, p, [base]) && BadBetween(ts, p, clause.lo, n) {
      PushMeets(ts, p, [base], [clause]);
      assert clause in [clause];
    }
    if Clean(ts, negInit, r) {
      forall p: seq<S> | IsAsserted(ts, negInit, n, p) ensures MeetsAll(ts, p, [base]) {
        BaseAdmits(ts, negInit, r, n, base, p);
      }
    }
  }

  /** An unsat answer extends what is known to be clean. */
  lemma NothingFound<S(!new)>(ts: System<S>, o: Options, r: int, i: nat, clause: Constraint, stack: seq<seq<Constraint>>)
    requires -1 <= r < i && clause == BadAtSome(if o.singleBad then i else r + 1, i)
    requires Complete(o) ==> Clean(ts, o.negInit, r) && Selects(ts, o.negInit, i, stack, clause.lo, clause.lo, i)
    requires forall p: seq<S> | IsAsserted(ts, o.negInit, i, p) :: !MeetsAll(ts, p, stack)
    requires Unit(o) ==> i == r + 1 && NoCexUpTo(ts, r)
    ensures Complete(o) ==> Clean(ts, o.negInit, i)
    ensures Unit(o) ==> NoCexUpTo(ts, i)
  {
    hide MeetsAll;
    if Complete(o) {
      forall p: seq<S>, j | IsAsserted(ts, o.negInit, i, p) && 0 <= j <= i ensures !BadAt(ts, p, j) {
        if j <= r {
          CleanPrefix(ts, o.negInit, r, i, p, j);
        } else {
          assert !BadBetween(ts, p, clause.lo, i);
        }
      }
    }
    if Unit(o) {
      UnitStep(ts, o.negInit, r);
    }
  }

  /** What it says under any options. */
  lemma NothingPassed<S(!new)>(ts: System<S>, o: Options, r: int, i: nat, base: seq<Constraint>, clause: Constraint)
    requires -1 <= r < i && clause == BadAtSome(if o.singleBad then i else r + 1, i) && Harmless(ts, o, r, base)
    requires forall p: seq<S> | IsAsserted(ts, o.negInit, i, p) :: !MeetsAll(ts, p, [base] + [[clause]])
    ensures Passed(ts, o, r + 1, i)
  {
    forall p: seq<S> | IsAsserted(ts, o.negInit, i, p) && BadBetween(ts, p, clause.lo, i)
      ensures o.negBadAll && BadBetween(ts, p, 0, r)
    {
      PushMeets(ts, p, [base], [clause]);
      assert !MeetsFrame(ts, p, base);
      var c :| c in base && !Meets(ts, p, c);
      assert BadAt(ts, p, c.j);
    }
  }

  lemma StaysHarmless<S(!new)>(ts: System<S>, o: Options, r: int, i: nat, base: seq<Constraint>, next: seq<Constraint>)
    requires -1 <= r < i && Harmless(ts, o, r, base) && Passed(ts, o, r + 1, i) && BlocksUpTo(next, i)
    requires !o.negBadAll ==> next == base + if o.negBad then [NotBadAt(i)] else []
    ensures Harmless(ts, o, i, next)
  {
    if !o.negBadAll {
      forall p: seq<S>, n: nat | n >= i && IsAsserted(ts, o.negInit, n, p) ensures MeetsFrame(ts, p, next) {
        assert MeetsFrame(ts, p, base);
        var q := p[0..i + 1];
        SubPath(ts, p, 0, i + 1);
        assert IsAsserted(ts, o.negInit, i, q);
        assert BadAt(ts, p, i) ==> BadAt(ts, q, i);
      }
    }
  }

  /** A shortest counterexample never returns to Init, so it is an asserted run under all options. */
  lemma ShortestIsAsserted<S(!new)>(ts: System<S>, negInit: bool, p: seq<S>)
    requires ShortestCex(ts, p)
    ensures IsAsserted(ts, negInit, |p| - 1, p) && BadAt(ts, p, |p| - 1)
  {
    forall j | 1 <= j < |p| ensures p[j] !in ts.init {
      DropPath(ts, p, j);
      assert p[j] in ts.init ==> IsCex(ts, p[j..]);
    }
  }

  /** So no option hides it from a bound tested on its own, even when T deadlocks. */
  lemma UnitStep<S(!new)>(ts: System<S>, negInit: bool, r: int)
    requires r >= -1 && NoCexUpTo(ts, r) && Clean(ts, negInit, r + 1)
    ensures NoCexUpTo(ts, r + 1)
  {
    forall p: seq<S> | IsCex(ts, p) ensures |p| - 1 > r + 1 {
      if |p| - 1 == r + 1 {
        ShortestIsAsserted(ts, negInit, p);
      }
    }
  }

  // ---------------------------------------------------------------- what the answers mean

  /** Some prefix of the reported witness is a counterexample, whatever the options. */
  lemma FoundIsGenuine<S(!new)>(ts: System<S>, o: Options, lb: int, i: int, first: int, reachedK: int, model: seq<S>) returns (q: seq<S>)
    requires Found(ts, o, lb, i, first, reachedK, model)
    ensures 0 <= reachedK + 1 < |model| && q <= model[..reachedK + 2] && IsCex(ts, q)
  {
    var j :| 0 <= j <= reachedK + 1 && BadAt(ts, model, j);
    q := model[..j + 1];
    BadPrefix(ts, model, j);
  }

  lemma BadPrefix<S>(ts: System<S>, p: seq<S>, j: int)
    ensures IsPath(ts, p) && p[0] in ts.init && BadAt(ts, p, j) ==> IsCex(ts, p[..j + 1])
  {
    if IsPath(ts, p) && BadAt(ts, p, j) {
      SubPath(ts, p, 0, j + 1);
      assert p[0..j + 1] == p[..j + 1];
    }
  }

  /** When every bound is tested on its own, the reported run is a shortest counterexample,
      whatever the other options and even when T deadlocks. */
  lemma UnitFindsShortest<S(!new)>(ts: System<S>, o: Options, lb: int, first: int, reachedK: int, model: seq<S>)
    requires Found(ts, o, lb, lb, first, reachedK, model) && NoCexUpTo(ts, lb - 1)
    ensures reachedK + 1 == lb && ShortestCex(ts, model)
  {
  }

  /** When every state can be continued, clean bounds are bounds without counterexamples. */
  lemma CleanIffNoCex<S(!new)>(ts: System<S>, negInit: bool, r: nat)
    requires WellFormed(ts) && AlwaysContinues(ts, negInit)
    ensures Clean(ts, negInit, r) <==> NoCexUpTo(ts, r)
  {
    if Clean(ts, negInit, r) {
      forall p: seq<S> | IsCex(ts, p) ensures |p| - 1 > r {
        if |p| - 1 <= r {
          var q := ShortestExists(ts, p);
          var w := ContinueCex(ts, negInit, q, r);
        }
      }
    }
    NoCexIsClean(ts, negInit, r);
  }

  lemma NoCexIsClean<S(!new)>(ts: System<S>, negInit: bool, r: nat)
    ensures NoCexUpTo(ts, r) ==> Clean(ts, negInit, r)
  {
    if NoCexUpTo(ts, r) {
      forall p: seq<S>, j | IsAsserted(ts, negInit, r, p) && 0 <= j <= r ensures !BadAt(ts, p, j) {
        BadPrefix(ts, p, j);
      }
    }
  }

  lemma AppendAsserted<S>(ts: System<S>, negInit: bool, p: seq<S>, t: S)
    requires p != [] && IsAsserted(ts, negInit, |p| - 1, p)
    requires t in ts.states && (p[|p| - 1], t) in ts.trans && (negInit ==> t !in ts.init)
    ensures IsAsserted(ts, negInit, |p|, p + [t])
  {
    AppendPath(ts, p, t);
  }

  lemma {:induction false} Continue<S(!new)>(ts: System<S>, negInit: bool, p: seq<S>, n: nat) returns (q: seq<S>)
    requires WellFormed(ts) && AlwaysContinues(ts, negInit) && |p| <= n + 1 && p != [] && IsAsserted(ts, negInit, |p| - 1, p)
    ensures IsAsserted(ts, negInit, n, q) && p <= q
    decreases n + 1 - |p|
  {
    q := p;
    if |p| < n + 1 {
      assert CanContinue(ts, negInit, p[|p| - 1]);
      var e :| e in ts.trans && e.0 == p[|p| - 1] && (negInit ==> e.1 !in ts.init);
      AppendAsserted(ts, negInit, p, e.1);
      hide IsAsserted;
      q := Continue(ts, negInit, p + [e.1], n);
    }
  }

  lemma ContinueCex<S(!new)>(ts: System<S>, negInit: bool, p: seq<S>, n: nat) returns (q: seq<S>)
    requires WellFormed(ts) && AlwaysContinues(ts, negInit) && ShortestCex(ts, p) && |p| <= n + 1
    ensures IsAsserted(ts, negInit, n, q) && BadAt(ts, q, |p| - 1) && Hits(ts, negInit, n, |p| - 1)
  {
    ShortestIsAsserted(ts, negInit, p);
    q := Continue(ts, negInit, p, n);
    assert q[|p| - 1] == p[|p| - 1];
  }

  /** The first position at which an asserted run is bad is then the true shortest depth, and the
      reported run up to it a shortest counterexample. */
  lemma LeastHitIsShortest<S(!new)>(ts: System<S>, negInit: bool, lb: nat, n: nat, j: nat, model: seq<S>)
    requires WellFormed(ts) && AlwaysContinues(ts, negInit) && Clean(ts, negInit, lb - 1)
    requires LeastHit(ts, negInit, n, lb, j) && IsAsserted(ts, negInit, n, model) && BadAt(ts, model, j)
    ensures ShortestCex(ts, model[..j + 1])
  {
    BadPrefix(ts, model, j);
    var q := ShortestExists(ts, model[..j + 1]);
    if lb > 0 {
      CleanIffNoCex(ts, negInit, lb - 1);
    }
    var w := ContinueCex(ts, negInit, q, n);
  }

  /** Conversely the true shortest depth, if it lies in the interval, is the first hit. */
  lemma ShortestIsLeastHit<S(!new)>(ts: System<S>, negInit: bool, lb: nat, n: nat, p: seq<S>)
    requires WellFormed(ts) && AlwaysContinues(ts, negInit) && ShortestCex(ts, p) && lb <= |p| - 1 <= n
    ensures LeastHit(ts, negInit, n, lb, |p| - 1)
  {
    hide AlwaysContinues;
    var w := ContinueCex(ts, negInit, p, n);
    forall m | lb <= m < |p| - 1 ensures !Hits(ts, negInit, n, m) {
      if Hits(ts, negInit, n, m) {
        var q: seq<S> :| IsAsserted(ts, negInit, n, q) && BadAt(ts, q, m);
        BadPrefix(ts, q, m);
      }
    }
  }

  /** The default search reports the first position at which a run is bad there and nowhere else in
      the interval. It is the least one exactly when some run is bad only at the least one. */
  lemma DefaultSearchExact<S(!new)>(ts: System<S>, negInit: bool, n: nat, lb: int, found: int, least: int)
    requires LeastHitOnly(ts, negInit, n, lb, found) && LeastHit(ts, negInit, n, lb, least)
    ensures least <= found
    ensures found == least <==> HitsOnly(ts, negInit, n, lb, least)
  {
    assert Hits(ts, negInit, n, found);
  }

  /** What a reported counterexample is worth. */
  lemma Reported<S(!new)>(ts: System<S>, o: Options, lb: int, i: int, first: int, reachedK: int, model: seq<S>)
    requires WellFormed(ts) && Found(ts, o, lb, i, first, reachedK, model)
    requires Complete(o) ==> Clean(ts, o.negInit, lb - 1)
    requires Unit(o) ==> i == lb && NoCexUpTo(ts, lb - 1)
    ensures !Safe(ts) && 0 <= reachedK + 1 < |model|
    ensures Unit(o) ==> ShortestCex(ts, model)
    ensures ExactSearch(o) && AlwaysContinues(ts, o.negInit) && (first > lb || i == lb) ==> ShortestCex(ts, model[..reachedK + 2])
  {
    var q := FoundIsGenuine(ts, o, lb, i, first, reachedK, model);
    if Unit(o) {
      UnitFindsShortest(ts, o, lb, first, reachedK, model);
    }
    if ExactSearch(o) && AlwaysContinues(ts, o.negInit) && (first > lb || i == lb) {
      assert Hits(ts, o.negInit, i, reachedK + 1);
      assert LeastHit(ts, o.negInit, i, lb, reachedK + 1);
      LeastHitIsShortest(ts, o.negInit, lb, i, reachedK + 1, model);
    }
  }

  lemma CleanBound<S(!new)>(ts: System<S>, negInit: bool, r: int)
    requires WellFormed(ts) && r >= -1
    ensures Clean(ts, negInit, r) && AlwaysContinues(ts, negInit) ==> NoCexUpTo(ts, r)
  {
    if r >= 0 && AlwaysContinues(ts, negInit) {
      CleanIffNoCex(ts, negInit, r);
    }
  }

  /** k may be reached by an interval check with the linear or the less incremental search. */
  ghost predicate MayReport<S(!new)>(ts: System<S>, o: Options, lb: int, i: int, k: int) {
    exists first: int, model: seq<S> :: Found(ts, o, lb, i, first, k, model)
  }

  /** Both exact searches are skipped when the solver's first model happens to be bad at the start
      of the interval, and the end of the interval is reported then. So the least position is
      sure to be reported exactly when the interval has length 1 or no run is bad at its start. */
  lemma ReportedBoundExact<S(!new)>(ts: System<S>, o: Options, lb: nat, i: nat)
    requires lb <= i && ExactSearch(o)
    ensures (forall k | MayReport(ts, o, lb, i, k) :: LeastHit(ts, o.negInit, i, lb, k + 1))
       <==> (i == lb || !Hits(ts, o.negInit, i, lb))
  {
    if i > lb && Hits(ts, o.negInit, i, lb) {
      var p: seq<S> :| IsAsserted(ts, o.negInit, i, p) && BadAt(ts, p, lb);
      assert Found(ts, o, lb, i, lb, i - 1, p);
      assert MayReport(ts, o, lb, i, i - 1) && !LeastHit(ts, o.negInit, i, lb, i);
    } else {
      forall k | MayReport(ts, o, lb, i, k) ensures LeastHit(ts, o.negInit, i, lb, k + 1) {
        var first: int, model: seq<S> :| Found(ts, o, lb, i, first, k, model);
        assert BadAt(ts, model, k + 1);
      }
    }
  }

  // ---------------------------------------------------------------- counterexamples to more

  /** A run of n + 1 states from its states and steps. */
  lemma AssertedRun<S>(ts: System<S>, n: nat, p: seq<S>)
    requires WellFormed(ts) && |p| == n + 1 && p[0] in ts.init
    requires forall k | 0 <= k < n :: (p[k], p[k + 1]) in ts.trans
    ensures IsAsserted(ts, false, n, p)
  {
    forall k | 0 <= k < |p| ensures p[k] in ts.states {
      if k > 0 {
        assert (p[k - 1], p[k]) in ts.trans;
      }
    }
    forall k | 0 <= k < |p| - 1 ensures StepAt(ts, p, k) {
      assert (p[k], p[k + 1]) in ts.trans;
    }
  }

  lemma TwoSteps<S>(ts: System<S>, p: seq<S>)
    ensures IsPath(ts, p) && |p| >= 3 ==> (p[0], p[1]) in ts.trans && (p[1], p[2]) in ts.trans
  {
    assert |p| >= 3 && IsPath(ts, p) ==> StepAt(ts, p, 0) && StepAt(ts, p, 1);
  }

  const Deadlock := System({0, 1}, {0}, {(0, 1)}, {1})

  /** A bad state without successors is lost to an interval that reaches past it, for good. */
  lemma DeadlockHidesCex(n: nat)
    requires n >= 2
    ensures WellFormed(Deadlock) && IsCex(Deadlock, [0, 1]) && Clean(Deadlock, false, n)
  {
    AssertedRun(Deadlock, 1, [0, 1]);
    forall p: seq<int> ensures !IsAsserted(Deadlock, false, n, p) {
      TwoSteps(Deadlock, p);
    }
  }

  const BackInInit := System({0, 1}, {0}, {(0, 1), (1, 0)}, {1})

  /** So is one from which every way leads back to Init, under the not-Init constraints, although
      this relation is right-total. */
  lemma NegInitHidesCex(n: nat)
    requires n >= 2
    ensures WellFormed(BackInInit) && RightTotal(BackInInit) && IsCex(BackInInit, [0, 1])
    ensures Clean(BackInInit, true, n)
  {
    AssertedRun(BackInInit, 1, [0, 1]);
    assert (0, 1) in BackInInit.trans && (1, 0) in BackInInit.trans;
    assert HasSuccessor(BackInInit, 0) && HasSuccessor(BackInInit, 1);
    forall p: seq<int> ensures !IsAsserted(BackInInit, true, n, p) {
      TwoSteps(BackInInit, p);
    }
  }

  const StaysBad := System({0, 1, 2, 3}, {0, 2}, {(0, 1), (1, 1), (2, 3), (3, 1)}, {1})

  /** The default search reports depth 2 here: a run that is bad at depth 1 is so at depth 2 too. */
  lemma DefaultSearchOvershoots()
    ensures WellFormed(StaysBad) && LeastHit(StaysBad, false, 2, 1, 1) && LeastHitOnly(StaysBad, false, 2, 1, 2)
  {
    AssertedRun(StaysBad, 2, [0, 1, 1]);
    AssertedRun(StaysBad, 2, [2, 3, 1]);
    assert BadAt(StaysBad, [0, 1, 1], 1) && BadAt(StaysBad, [2, 3, 1], 2);
    assert BadOnlyAt(StaysBad, [2, 3, 1], 1, 2, 2, 2);
    forall p: seq<int> | IsAsserted(StaysBad, false, 2, p) && BadAt(StaysBad, p, 1) ensures BadAt(StaysBad, p, 2) {
      assert StepAt(StaysBad, p, 1);
    }
  }
}
