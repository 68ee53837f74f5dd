/** Proof goals: cubes to be blocked, linked towards the bad states, and their queue. */
module IC3Goals {
  import opened Systems
  import opened Solver
  import opened IC3Formulas
  import opened IC3Frames
  import FixedPoint

  datatype ProofGoal = ProofGoal(target: IC3Formula, idx: nat, next: Option<ProofGoal>)

  /** An element of cex_: a cube of the goal chain, or bad_ at its end. */
  datatype CexTerm = Cube(c: IC3Formula) | Bad

  predicate Describes(sys: BitSystem, t: CexTerm, s: State) {
    match t
    case Cube(c) => Sat(c, s)
    case Bad => s in sys.bad
  }

  ghost predicate HasSuccessorIn(sys: BitSystem, s: State, t: CexTerm) {
    exists e :: e in sys.trans && e.0 == s && Describes(sys, t, e.2)
  }

  /** Every state of the cube has a T-successor in t. */
  ghost predicate LeadsTo(sys: BitSystem, c: IC3Formula, t: CexTerm) {
    forall s: State {:trigger HasSuccessorIn(sys, s, t)} | |s| == sys.n && Sat(c, s) :: HasSuccessorIn(sys, s, t)
  }

  function NextTerm(g: ProofGoal): CexTerm {
    if g.next.Some? then Cube(g.next.value.target) else Bad
  }

  ghost predicate IsChain(sys: BitSystem, g: ProofGoal) {
    && LeadsTo(sys, g.target, NextTerm(g))
    && (g.next.Some? ==> IsChain(sys, g.next.value))
  }

  /** What holds of every queued goal: it is a non-empty cube whose chain leads to Bad. At a
      positive index it is disjoint from the frame below; at index 0 it holds an initial state. */
  ghost predicate GoalOk(sys: BitSystem, frames: Frames, g: ProofGoal) {
    && !g.target.disjunction && g.target.children != []
    && IsChain(sys, g)
    && g.idx < |frames|
    && (g.idx >= 1 ==> Disjoint(sys, frames, g.idx - 1, g.target))
    && (g.idx == 0 ==> exists s :: s in sys.init && Sat(g.target, s))
  }

  ghost predicate Disjoint(sys: BitSystem, frames: Frames, i: nat, c: IC3Formula) {
    forall s: State | InFrame(sys, frames, i, s) :: !Sat(c, s)
  }

  ghost predicate AllGoalsOk(sys: BitSystem, frames: Frames, q: seq<ProofGoal>) {
    forall k | 0 <= k < |q| :: GoalOk(sys, frames, q[k])
  }

  // ---------------------------------------------------------------- traces

  /** reconstruct_trace: the targets along the chain, then bad_. */
  function Trace(g: ProofGoal): seq<CexTerm> {
    [Cube(g.target)] + if g.next.Some? then Trace(g.next.value) else [Bad]
  }

  /** p is a run whose states are described one by one by cex. */
  ghost predicate Follows(sys: BitSystem, p: seq<State>, cex: seq<CexTerm>) {
    && |p| == |cex|
    && IsPath(sys.Ts(), p)
    && forall t | 0 <= t < |p| :: Describes(sys, cex[t], p[t])
  }

  lemma PrependFollows(sys: BitSystem, e: (State, State, State), rest: seq<State>, t: CexTerm, cex: seq<CexTerm>)
    requires WellFormedBits(sys) && Follows(sys, rest, cex) && rest[0] == e.2
    requires e in sys.trans && Describes(sys, t, e.0)
    ensures Follows(sys, [e.0] + rest, [t] + cex)
  {
    StatesExact(sys.n, e.0);
    assert (e.0, e.2) in sys.Ts().trans;
    ConcatPath(sys.Ts(), [e.0], rest);
  }

  /** From any state of the first cube the chain can be followed into Bad. */
  lemma {:induction false} ChainRuns(sys: BitSystem, g: ProofGoal, s: State) returns (p: seq<State>)
    requires WellFormedBits(sys) && IsChain(sys, g) && |s| == sys.n && Sat(g.target, s)
    ensures Follows(sys, p, Trace(g)) && p[0] == s && p[|p| - 1] in sys.bad
  {
    assert HasSuccessorIn(sys, s, NextTerm(g));
    var e :| e in sys.trans && e.0 == s && Describes(sys, NextTerm(g), e.2);
    if g.next.Some? {
      var rest := ChainRuns(sys, g.next.value, e.2);
      PrependFollows(sys, e, rest, Cube(g.target), Trace(g.next.value));
      p := [s] + rest;
    } else {
      StatesExact(sys.n, e.2);
      PrependFollows(sys, e, [e.2], Cube(g.target), [Bad]);
      p := [s] + [e.2];
    }
  }

  /** cex describes at least one real counterexample. */
  ghost predicate Genuine(sys: BitSystem, cex: seq<CexTerm>) {
    exists p :: Follows(sys, p, cex) && IsCex(sys.Ts(), p)
  }

  lemma TraceGenuine(sys: BitSystem, g: ProofGoal, s: State)
    requires WellFormedBits(sys) && IsChain(sys, g) && s in sys.init && Sat(g.target, s)
    ensures Genuine(sys, Trace(g))
  {
    var p := ChainRuns(sys, g, s);
  }

  // ---------------------------------------------------------------- the queue

  /** The priority queue of goals. Its root has the smallest index; among equals any goal
      may come first, and any change of the queue may promote a different one. */
  class ProofGoalQueue {
    var queue: seq<ProofGoal>
    var root: nat

    ghost predicate Valid()
      reads this
    {
      queue != [] ==> root < |queue| && forall k | 0 <= k < |queue| :: queue[root].idx <= queue[k].idx
    }

    constructor ()
      ensures Valid() && queue == []
    {
      queue, root := [], 0;
    }

    predicate Empty()
      reads this
    {
      queue == []
    }

    function Top(): (g: ProofGoal)
      requires Valid() && !Empty()
      reads this
      ensures g in queue && forall h | h in queue :: g.idx <= h.idx
    {
      queue[root]
    }

    /** The index of the top goal, 0 when there is none. */
    ghost function TopIdx(): nat
      reads this
    {
      if root < |queue| then queue[root].idx else 0
    }

    method NewProofGoal(c: IC3Formula, t: nat, n: Option<ProofGoal>)
      requires Valid()
      modifies this
      ensures Valid() && queue == old(queue) + [ProofGoal(c, t, n)]
    {
      queue := queue + [ProofGoal(c, t, n)];
      Promote();
    }

    method Pop()
      requires Valid() && !Empty()
      modifies this
      ensures Valid() && queue == old(queue[..root] + queue[root + 1..])
    {
      queue := queue[..root] + queue[root + 1..];
      Promote();
    }

    method Clear()
      modifies this
      ensures Valid() && queue == []
    {
      queue := [];
    }

    /** Re-establishes the heap order; ties are broken arbitrarily. */
    method Promote()
      modifies this`root
      ensures Valid()
    {
      root := 0;
      var k := 1;
      while k < |queue|
        invariant queue != [] ==> root < |queue| && 1 <= k <= |queue|
        invariant queue != [] ==> forall m | 0 <= m < k :: queue[root].idx <= queue[m].idx
      {
        if queue[k].idx < queue[root].idx {
          root := k;
        } else if queue[k].idx == queue[root].idx {
          if * {
            root := k;
          }
        }
        k := k + 1;
      }
    }
  }

  // ---------------------------------------------------------------- the measure of blocking

  ghost predicate AlreadyBlocked(sys: BitSystem, frames: Frames, g: ProofGoal) {
    Disjoint(sys, frames, g.idx, g.target)
  }

  /** Queued goals that are already blocked and wait to be skipped. */
  ghost function BlockedCount(sys: BitSystem, frames: Frames, q: seq<ProofGoal>): nat {
    if q == [] then 0
    else BlockedCount(sys, frames, q[..|q| - 1]) + if AlreadyBlocked(sys, frames, q[|q| - 1]) then 1 else 0
  }

  lemma {:induction false} BlockedCountSplit(sys: BitSystem, frames: Frames, a: seq<ProofGoal>, b: seq<ProofGoal>)
    ensures BlockedCount(sys, frames, a + b) == BlockedCount(sys, frames, a) + BlockedCount(sys, frames, b)
  {
    if b == [] {
      assert a + b == a;
    } else {
      var n := |b| - 1;
      assert (a + b)[..|a + b| - 1] == a + b[..n];
      BlockedCountSplit(sys, frames, a, b[..n]);
    }
  }

  lemma BlockedCountPop(sys: BitSystem, frames: Frames, q: seq<ProofGoal>, r: nat)
    requires r < |q| && AlreadyBlocked(sys, frames, q[r])
    ensures BlockedCount(sys, frames, q[..r] + q[r + 1..]) == BlockedCount(sys, frames, q) - 1
  {
    BlockedCountSplit(sys, frames, q[..r], q[r + 1..]);
    BlockedCountSplit(sys, frames, q[..r], [q[r]]);
    BlockedCountSplit(sys, frames, q[..r] + [q[r]], q[r + 1..]);
    assert q == q[..r] + [q[r]] + q[r + 1..];
    assert [q[r]][..0] == [];
  }

  lemma BlockedCountPush(sys: BitSystem, frames: Frames, q: seq<ProofGoal>, g: ProofGoal)
    requires !AlreadyBlocked(sys, frames, g)
    ensures BlockedCount(sys, frames, q + [g]) == BlockedCount(sys, frames, q)
  {
  }

  /** The sum of the sizes of frames 1..k. */
  function FrameSum(sys: BitSystem, frames: Frames, k: nat): nat {
    if k == 0 then 0 else FrameSum(sys, frames, k - 1) + |FrameSet(sys, frames, k)|
  }

  function Size(sys: BitSystem, frames: Frames): nat {
    if frames == [] then 0 else FrameSum(sys, frames, |frames| - 1)
  }

  lemma FrameSetShrinks(sys: BitSystem, before: Frames, after: Frames, k: nat, u: IC3Formula, i: nat)
    requires Strengthened(sys, before, after, k, u) && i >= 1
    ensures FrameSet(sys, after, i) <= FrameSet(sys, before, i)
  {
  }

  /** Strengthening never enlarges the sum, and shrinks it where it removes a state. */
  lemma {:induction false} FrameSumShrinks(sys: BitSystem, before: Frames, after: Frames, k: nat, u: IC3Formula, m: nat)
    requires Strengthened(sys, before, after, k, u)
    ensures FrameSum(sys, after, m) <= FrameSum(sys, before, m)
    ensures (exists i, s :: 1 <= i <= m && InFrame(sys, before, i, s) && !InFrame(sys, after, i, s)) ==>
              FrameSum(sys, after, m) < FrameSum(sys, before, m)
  {
    if m > 0 {
      FrameSumShrinks(sys, before, after, k, u, m - 1);
      FrameSetShrinks(sys, before, after, k, u, m);
      FixedPoint.SmallerThan(FrameSet(sys, after, m), FrameSet(sys, before, m));
      forall s: State | InFrame(sys, before, m, s) && !InFrame(sys, after, m, s)
        ensures FrameSet(sys, after, m) != FrameSet(sys, before, m)
      {
        FrameSetExact(sys, before, m, s);
        FrameSetExact(sys, after, m, s);
      }
    }
  }
}
