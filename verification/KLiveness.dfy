/** k-liveness: a counter of justice steps makes a safety question out of a liveness one.
    Safety for some k proves liveness; a counterexample may contain a real fair lasso. */
module KLiveness {
  import opened Liveness
  import opened Systems
  import opened Solver

  datatype Encoding = BvBinary | BvOneHot | Integer

  function Pow2(n: nat): (r: nat)
    ensures r >= 1
  {
    if n == 0 then 1 else 2 * Pow2(n - 1)
  }

  lemma {:induction false} Pow2Monotone(m: nat, n: nat)
    requires m <= n
    ensures 1 <= Pow2(m) <= Pow2(n)
    ensures m < n ==> Pow2(m) < Pow2(n)
  {
    if m < n {
      Pow2Monotone(m, n - 1);
    } else if m > 0 {
      Pow2Monotone(m - 1, n - 1);
    }
  }

  function Mod(x: nat, m: nat): (r: nat)
    requires m >= 1
    ensures x < m ==> r == x
    ensures x == m ==> r == 0
    ensures r < m
  {
    x % m
  }

  /** floor(log2(k)) */
  function FloorLog2(k: nat): nat
    requires k >= 1
  {
    if k == 1 then 0 else 1 + FloorLog2(k / 2)
  }

  lemma {:induction false} FloorLog2Exact(k: nat)
    requires k >= 1
    ensures Pow2(FloorLog2(k)) <= k < Pow2(FloorLog2(k) + 1)
  {
    if k > 1 {
      FloorLog2Exact(k / 2);
    }
  }

  // ---------------------------------------------------------------- the three counters

  /** Bit width of the counter sort; integers have none. */
  function Width(enc: Encoding, k: nat): nat
    requires k >= 1
  {
    match enc
    case BvBinary => FloorLog2(k) + 1
    case BvOneHot => k + 1
    case Integer => 0
  }

  function CounterInit(enc: Encoding): nat {
    if enc.BvOneHot? then 1 else 0
  }

  /** counter_incr: bvadd and bvshl by one wrap at the width of the sort. */
  function CounterIncr(enc: Encoding, k: nat, c: nat): nat
    requires k >= 1
  {
    match enc
    case BvBinary => Mod(c + 1, Pow2(Width(enc, k)))
    case BvOneHot => Mod(c * 2, Pow2(Width(enc, k)))
    case Integer => c + 1
  }

  /** count_to_val */
  function CountTo(enc: Encoding, k: nat): nat {
    if enc.BvOneHot? then Pow2(k) else k
  }

  /** The counter after n increments. */
  function CounterAfter(enc: Encoding, k: nat, n: nat): nat
    requires k >= 1
  {
    if n == 0 then CounterInit(enc) else CounterIncr(enc, k, CounterAfter(enc, k, n - 1))
  }

  /** Up to the k-th increment no encoding wraps around. */
  lemma {:induction false} CounterBeforeWrap(enc: Encoding, k: nat, n: nat)
    requires k >= 1 && n <= k
    ensures CounterAfter(enc, k, n) == if enc.BvOneHot? then Pow2(n) else n
  {
    hide Mod;
    if n > 0 {
      CounterBeforeWrap(enc, k, n - 1);
      match enc
      case Integer =>
      case BvBinary =>
        FloorLog2Exact(k);
      case BvOneHot =>
        Pow2Monotone(n, k + 1);
    }
  }

  /** Beyond the target a one-hot counter is stuck at zero. */
  lemma {:induction false} OneHotStuck(k: nat, n: nat)
    requires k >= 1 && n > k
    ensures CounterAfter(BvOneHot, k, n) == 0
  {
    hide Mod;
    if n == k + 1 {
      CounterBeforeWrap(BvOneHot, k, k);
      assert Pow2(k) * 2 == Pow2(k + 1);
    } else {
      OneHotStuck(k, n - 1);
    }
  }

  /** All encodings first reach their target value at exactly the k-th increment. */
  lemma CounterFirstHits(enc: Encoding, k: nat, n: nat)
    requires k >= 1 && n <= k
    ensures CounterAfter(enc, k, n) == CountTo(enc, k) <==> n == k
  {
    CounterBeforeWrap(enc, k, n);
    Pow2Monotone(n, k);
  }

  /** On the way to a target value, an increment always changes the counter. */
  lemma IncrementShows(enc: Encoding, k: nat, n: nat)
    requires k >= 1 && (enc.BvOneHot? ==> n < k)
    ensures CounterAfter(enc, k, n + 1) != CounterAfter(enc, k, n)
  {
    hide Mod;
    match enc
    case Integer =>
    case BvOneHot =>
      CounterBeforeWrap(enc, k, n);
      CounterBeforeWrap(enc, k, n + 1);
    case BvBinary =>
      Pow2Monotone(1, Width(enc, k));
      BinaryInRange(k, n);
  }

  lemma BinaryInRange(k: nat, n: nat)
    requires k >= 1
    ensures CounterAfter(BvBinary, k, n) < Pow2(Width(BvBinary, k))
  {
    hide Mod;
  }

  // ---------------------------------------------------------------- the instrumented system

  /** How often the justice condition held before time t. */
  ghost function Count<S(!new), I(!new)>(sys: LiveSystem<S, I>, r: Run<S, I>, t: nat): nat
    requires |sys.justice| == 1 && t <= |r.inputs| && |r.states| == |r.inputs| + 1
  {
    if t == 0 then 0
    else Count(sys, r, t - 1) + if sys.justice[0](r.states[t - 1], r.inputs[t - 1]) then 1 else 0
  }

  ghost predicate CounterStep<S(!new), I(!new)>(sys: LiveSystem<S, I>, enc: Encoding, k: nat, r: Run<S, I>, cs: seq<nat>, t: int)
    requires |sys.justice| == 1 && k >= 1 && |cs| == |r.states| == |r.inputs| + 1 && 0 <= t < |r.inputs|
  {
    cs[t + 1] == if sys.justice[0](r.states[t], r.inputs[t]) then CounterIncr(enc, k, cs[t]) else cs[t]
  }

  /** A run of the instrumented system: an original run with the counter beside it. */
  ghost predicate CountedRun<S(!new), I(!new)>(sys: LiveSystem<S, I>, enc: Encoding, k: nat, r: Run<S, I>, cs: seq<nat>) {
    && |sys.justice| == 1 && k >= 1
    && IsRun(sys, r) && |cs| == |r.states|
    && cs[0] == CounterInit(enc)
    && forall t {:trigger CounterStep(sys, enc, k, r, cs, t)} | 0 <= t < |r.inputs| :: CounterStep(sys, enc, k, r, cs, t)
  }

  /** ... that violates `counter != count_to_val` at its end. */
  ghost predicate CounterCex<S(!new), I(!new)>(sys: LiveSystem<S, I>, enc: Encoding, k: nat, r: Run<S, I>, cs: seq<nat>) {
    CountedRun(sys, enc, k, r, cs) && cs[|r.inputs|] == CountTo(enc, k)
  }

  lemma {:induction false} CounterCounts<S(!new), I(!new)>(sys: LiveSystem<S, I>, enc: Encoding, k: nat, r: Run<S, I>, cs: seq<nat>, t: nat)
    requires CountedRun(sys, enc, k, r, cs) && t <= |r.inputs|
    ensures cs[t] == CounterAfter(enc, k, Count(sys, r, t))
  {
    if t > 0 {
      CounterCounts(sys, enc, k, r, cs, t - 1);
      assert CounterStep(sys, enc, k, r, cs, t - 1);
    }
  }

  /** Counter values along a run. */
  ghost function Counters<S(!new), I(!new)>(sys: LiveSystem<S, I>, enc: Encoding, k: nat, r: Run<S, I>): (cs: seq<nat>)
    requires |sys.justice| == 1 && k >= 1 && |r.states| == |r.inputs| + 1
    ensures |cs| == |r.states| && forall t | 0 <= t <= |r.inputs| :: cs[t] == CounterAfter(enc, k, Count(sys, r, t))
  {
    seq(|r.states|, t requires 0 <= t <= |r.inputs| => CounterAfter(enc, k, Count(sys, r, t)))
  }

  lemma CountersStep<S(!new), I(!new)>(sys: LiveSystem<S, I>, enc: Encoding, k: nat, r: Run<S, I>, cs: seq<nat>, t: nat)
    requires |sys.justice| == 1 && k >= 1 && |cs| == |r.states| == |r.inputs| + 1 && t < |r.inputs|
    requires cs[t] == CounterAfter(enc, k, Count(sys, r, t))
    requires cs[t + 1] == CounterAfter(enc, k, Count(sys, r, t + 1))
    ensures CounterStep(sys, enc, k, r, cs, t)
  {
    hide CounterIncr;
  }

  /** A run in which justice held exactly k times violates the instrumented property, whatever
      the encoding. */
  lemma KTimesIsCex<S(!new), I(!new)>(sys: LiveSystem<S, I>, enc: Encoding, k: nat, r: Run<S, I>)
    requires |sys.justice| == 1 && k >= 1 && IsRun(sys, r) && Count(sys, r, |r.inputs|) == k
    ensures CounterCex(sys, enc, k, r, Counters(sys, enc, k, r))
  {
    CounterFirstHits(enc, k, k);
    assert Count(sys, r, 0) == 0;
    hide CounterStep;
    var cs := Counters(sys, enc, k, r);
    forall t | 0 <= t < |r.inputs| ensures CounterStep(sys, enc, k, r, cs, t) {
      CountersStep(sys, enc, k, r, cs, t);
    }
  }

  /** A fair run has a prefix in which justice held exactly k times. */
  lemma {:induction false} FairRunCounts<S(!new), I(!new)>(sys: LiveSystem<S, I>, f: nat -> S, g: nat -> I, k: nat) returns (b: nat)
    requires |sys.justice| == 1 && FairRun(sys, f, g)
    ensures Count(sys, Prefix(f, g, b), b) == k
  {
    if k == 0 {
      b := 0;
    } else {
      var c := FairRunCounts(sys, f, g, k - 1);
      assert MetFrom(sys, f, g, 0, c);
      var t: nat :| t >= c && sys.justice[0](f(t), g(t));
      b := NextJustice(sys, f, g, c, t);
    }
  }

  /** The end of the first justice step at or after c. */
  lemma {:induction false} NextJustice<S(!new), I(!new)>(sys: LiveSystem<S, I>, f: nat -> S, g: nat -> I, c: nat, t: nat) returns (b: nat)
    requires |sys.justice| == 1 && c <= t && sys.justice[0](f(t), g(t))
    ensures Count(sys, Prefix(f, g, b), b) == Count(sys, Prefix(f, g, c), c) + 1
    decreases t - c
  {
    CountStep(sys, f, g, c);
    if sys.justice[0](f(c), g(c)) {
      b := c + 1;
    } else {
      hide Count;
      hide Prefix;
      b := NextJustice(sys, f, g, c + 1, t);
    }
  }

  lemma CountStep<S(!new), I(!new)>(sys: LiveSystem<S, I>, f: nat -> S, g: nat -> I, c: nat)
    requires |sys.justice| == 1
    ensures Count(sys, Prefix(f, g, c + 1), c + 1) ==
            Count(sys, Prefix(f, g, c), c) + if sys.justice[0](f(c), g(c)) then 1 else 0
  {
    CountPrefix(sys, f, g, c, c + 1, c);
  }

  lemma {:induction false} CountPrefix<S(!new), I(!new)>(sys: LiveSystem<S, I>, f: nat -> S, g: nat -> I, a: nat, b: nat, t: nat)
    requires |sys.justice| == 1 && t <= a <= b
    ensures Count(sys, Prefix(f, g, a), t) == Count(sys, Prefix(f, g, b), t)
  {
    if t > 0 {
      CountPrefix(sys, f, g, a, b, t - 1);
    }
  }

  /** TRUE is sound for every encoding and every k: if the counter never reaches its target,
      no infinite run meets justice infinitely often. */
  lemma SafeCounterProvesLiveness<S(!new), I(!new)>(sys: LiveSystem<S, I>, enc: Encoding, k: nat)
    requires |sys.justice| == 1 && k >= 1
    requires !exists r: Run<S, I>, cs: seq<nat> :: CounterCex(sys, enc, k, r, cs)
    ensures !exists f: nat -> S, g: nat -> I :: FairRun(sys, f, g)
  {
    forall f: nat -> S, g: nat -> I ensures !FairRun(sys, f, g) {
      if FairRun(sys, f, g) {
        var b := FairRunCounts(sys, f, g, k);
        PrefixIsRun(sys, f, g, b);
        KTimesIsCex(sys, enc, k, Prefix(f, g, b));
      }
    }
  }

  lemma PrefixIsRun<S(!new), I(!new)>(sys: LiveSystem<S, I>, f: nat -> S, g: nat -> I, b: nat)
    requires FairRun(sys, f, g)
    ensures IsRun(sys, Prefix(f, g, b))
  {
    forall t | 0 <= t < b ensures RunStep(sys, Prefix(f, g, b), t) {
      assert InfStep(sys, f, g, t);
    }
  }

  /** The encodings agree: the same k is safe under all of them. */
  lemma EncodingsAgree<S(!new), I(!new)>(sys: LiveSystem<S, I>, k: nat, enc: Encoding, other: Encoding)
    requires |sys.justice| == 1 && k >= 1
    ensures (exists r: Run<S, I>, cs: seq<nat> :: CounterCex(sys, enc, k, r, cs)) ==>
              exists r: Run<S, I>, cs: seq<nat> :: CounterCex(sys, other, k, r, cs)
  {
    hide Mod;
    hide CounterIncr;
    if r: Run<S, I>, cs: seq<nat> :| CounterCex(sys, enc, k, r, cs) {
      CounterCounts(sys, enc, k, r, cs, |r.inputs|);
      var n := Count(sys, r, |r.inputs|);
      if n < k {
        CounterFirstHits(enc, k, n);
      }
      var t := ReachesCount(sys, r, k, |r.inputs|);
      var short := Run(r.states[..t + 1], r.inputs[..t]);
      CountShort(sys, r, t, t);
      forall m | 0 <= m < t ensures RunStep(sys, short, m) {
        assert RunStep(sys, r, m);
      }
      KTimesIsCex(sys, other, k, short);
    }
  }

  /** The count passes through every value up to its last. */
  lemma {:induction false} ReachesCount<S(!new), I(!new)>(sys: LiveSystem<S, I>, r: Run<S, I>, k: nat, b: nat) returns (t: nat)
    requires |sys.justice| == 1 && |r.states| == |r.inputs| + 1 && b <= |r.inputs| && Count(sys, r, b) >= k
    ensures t <= b && Count(sys, r, t) == k
  {
    if Count(sys, r, b) == k {
      t := b;
    } else {
      t := ReachesCount(sys, r, k, b - 1);
    }
  }

  lemma {:induction false} CountShort<S(!new), I(!new)>(sys: LiveSystem<S, I>, r: Run<S, I>, b: nat, t: nat)
    requires |sys.justice| == 1 && |r.states| == |r.inputs| + 1 && t <= b <= |r.inputs|
    ensures Count(sys, Run(r.states[..b + 1], r.inputs[..b]), t) == Count(sys, r, t)
  {
    if t > 0 {
      CountShort(sys, r, b, t - 1);
    }
  }

  // ---------------------------------------------------------------- revisits in a counterexample

  /** The variables a revisit compares are those with an update, the counter excepted. key
      projects a state on them. */
  ghost predicate FreeNext<S(!new), I(!new), K>(sys: LiveSystem<S, I>, key: S -> K) {
    forall s, i, t, u | sys.trans(s, i, t) && key(t) == key(u) && NextAllowed(sys, u) :: sys.trans(s, i, u)
  }

  /** u satisfies what is asserted of next states alone: it is initial or some transition's target. */
  ghost predicate NextAllowed<S(!new), I(!new)>(sys: LiveSystem<S, I>, u: S) {
    sys.init(u) || exists s, i :: sys.trans(s, i, u)
  }

  /** Justice steps are read off the trace as the times at which the counter changes. */
  lemma ChangeIsJustice<S(!new), I(!new)>(sys: LiveSystem<S, I>, enc: Encoding, k: nat, r: Run<S, I>, cs: seq<nat>, t: nat)
    requires CounterCex(sys, enc, k, r, cs) && t < |r.inputs|
    ensures cs[t + 1] != cs[t] <==> sys.justice[0](r.states[t], r.inputs[t])
  {
    hide Mod;
    CounterCounts(sys, enc, k, r, cs, t);
    CounterCounts(sys, enc, k, r, cs, t + 1);
    CounterCounts(sys, enc, k, r, cs, |r.inputs|);
    if sys.justice[0](r.states[t], r.inputs[t]) {
      CountGrows(sys, r, t + 1, |r.inputs|);
      if enc.BvOneHot? && Count(sys, r, |r.inputs|) > k {
        OneHotStuck(k, Count(sys, r, |r.inputs|));
      }
      IncrementShows(enc, k, Count(sys, r, t));
    }
  }

  lemma {:induction false} CountGrows<S(!new), I(!new)>(sys: LiveSystem<S, I>, r: Run<S, I>, a: nat, b: nat)
    requires |sys.justice| == 1 && a <= b <= |r.inputs| && |r.states| == |r.inputs| + 1
    ensures Count(sys, r, a) <= Count(sys, r, b)
  {
    if a < b {
      CountGrows(sys, r, a, b - 1);
    }
  }

  /** No two justice steps of the run agree on the compared variables. */
  ghost predicate NoRevisit<S(!new), I(!new), K>(sys: LiveSystem<S, I>, r: Run<S, I>, keys: seq<K>)
    requires |sys.justice| == 1 && |keys| == |r.states| == |r.inputs| + 1
  {
    forall a, b | 0 <= a < b < |r.inputs| && keys[a] == keys[b] ::
      !(sys.justice[0](r.states[a], r.inputs[a]) && sys.justice[0](r.states[b], r.inputs[b]))
  }

  /** Scans the counterexample backwards for justice steps, then forwards for two of them
      with equal keys. It answers exactly whether there are two such steps. */
  method DetectRevisit<S(!new), I(!new), K(==)>(sys: LiveSystem<S, I>, enc: Encoding, k: nat, r: Run<S, I>, cs: seq<nat>, keys: seq<K>)
    returns (found: bool, loopStart: nat, revisit: nat)
    requires CounterCex(sys, enc, k, r, cs) && |keys| == |r.states|
    ensures found ==> loopStart < revisit < |r.inputs| && keys[loopStart] == keys[revisit]
    ensures found ==> sys.justice[0](r.states[loopStart], r.inputs[loopStart])
    ensures k == 1 ==> !found
    ensures k > 1 && !found ==> NoRevisit(sys, r, keys)
  {
    found, loopStart, revisit := false, 0, 0;
    if k == 1 {
      return;
    }
    var steps := JusticeSteps(sys, enc, k, r, cs);
    found, loopStart, revisit := FindRevisit(keys, steps);
  }

  /** The visited map: the first of the given times whose key was seen at an earlier one. */
  method FindRevisit<K(==)>(keys: seq<K>, steps: seq<nat>) returns (found: bool, loopStart: nat, revisit: nat)
    requires forall i | 0 <= i < |steps| :: steps[i] < |keys|
    requires forall i, j | 0 <= i < j < |steps| :: steps[i] < steps[j]
    ensures found ==> loopStart in steps && revisit in steps
    ensures found ==> loopStart < revisit && keys[loopStart] == keys[revisit]
    ensures !found ==> forall a, b | a in steps && b in steps && a < b :: keys[a] != keys[b]
  {
    var visited: map<K, nat> := map[];
    var n := 0;
    while n < |steps|
      invariant 0 <= n <= |steps|
      invariant forall m | 0 <= m < n :: keys[steps[m]] in visited
      invariant forall x | x in visited :: exists m :: 0 <= m < n && visited[x] == steps[m] && keys[steps[m]] == x
      invariant forall a, b | 0 <= a < b < n :: keys[steps[a]] != keys[steps[b]]
    {
      var step := steps[n];
      if keys[step] in visited {
        return true, visited[keys[step]], step;
      }
      visited := visited[keys[step] := step];
      n := n + 1;
    }
    found, loopStart, revisit := false, 0, 0;
    forall a, b | a in steps && b in steps && a < b ensures keys[a] != keys[b] {
      var i :| 0 <= i < |steps| && steps[i] == a;
      var j :| 0 <= j < |steps| && steps[j] == b;
      assert i < j;
    }
  }

  /** The times at which the counter changes, in increasing order. */
  method JusticeSteps<S(!new), I(!new)>(ghost sys: LiveSystem<S, I>, ghost enc: Encoding, ghost k: nat, ghost r: Run<S, I>, cs: seq<nat>)
    returns (steps: seq<nat>)
    requires CounterCex(sys, enc, k, r, cs)
    ensures forall t: nat :: t in steps <==> t < |r.inputs| && sys.justice[0](r.states[t], r.inputs[t])
    ensures forall i | 0 <= i < |steps| :: steps[i] < |r.inputs|
    ensures forall i, j | 0 <= i < j < |steps| :: steps[i] < steps[j]
  {
    var backwards: seq<nat> := [];
    var counterVal := cs[|cs| - 1];
    var i := 1;
    while i < |cs|
      invariant 1 <= i <= |cs| && counterVal == cs[|cs| - i]
      invariant forall t: nat :: t in backwards <==> |cs| - i <= t < |r.inputs| && sys.justice[0](r.states[t], r.inputs[t])
      invariant forall a | 0 <= a < |backwards| :: |cs| - i <= backwards[a] < |r.inputs|
      invariant forall a, b | 0 <= a < b < |backwards| :: backwards[a] > backwards[b]
    {
      var t := |cs| - 1 - i;
      ChangeIsJustice(sys, enc, k, r, cs, t);
      if cs[t] != counterVal {
        backwards := backwards + [t];
        counterVal := cs[t];
      }
      i := i + 1;
    }
    steps := Reverse(backwards);
  }

  function Reverse(s: seq<nat>): (r: seq<nat>)
    ensures |r| == |s| && forall i | 0 <= i < |s| :: r[i] == s[|s| - 1 - i]
    ensures forall x :: x in r <==> x in s
  {
    if s == [] then []
    else
      assert s == [s[0]] + s[1..];
      Reverse(s[1..]) + [s[0]]
  }

  /** A reported revisit is a real fair lasso: although variables without update and the counter
      are ignored, the run can be redirected from the second step into the first and then
      repeats for ever with justice met in every round. */
  lemma RevisitIsFair<S(!new), I(!new), K>(sys: LiveSystem<S, I>, key: S -> K, r: Run<S, I>, a: nat, b: nat)
    returns (f: nat -> S, g: nat -> I)
    requires |sys.justice| == 1 && IsRun(sys, r) && FreeNext(sys, key)
    requires a < b < |r.inputs| && key(r.states[a]) == key(r.states[b])
    requires sys.justice[0](r.states[a], r.inputs[a])
    ensures FairRun(sys, f, g)
  {
    var loop := Run(r.states[..b + 1], r.inputs[..b]);
    forall t | 0 <= t < b ensures RunStep(sys, loop, t) {
      assert RunStep(sys, r, t);
    }
    assert NextAllowed(sys, r.states[a]) by {
      if a > 0 {
        assert RunStep(sys, r, a - 1);
      }
    }
    assert RunStep(sys, r, b - 1);
    assert sys.justice[0](loop.states[a], loop.inputs[a]);
    assert MetWithin(sys, loop, 0, a, b);
    f, g := LoopIsFair(sys, loop, a);
  }

  // ---------------------------------------------------------------- the engine

  /** What a safety prover says of the system instrumented for one count. */
  datatype Answer<S, I> = Answer(result: ProverResult, run: Run<S, I>, counters: seq<nat>)

  ghost predicate AnswerOk<S(!new), I(!new)>(sys: LiveSystem<S, I>, enc: Encoding, c: nat, a: Answer<S, I>) {
    && (a.result.True? ==> !exists r: Run<S, I>, cs: seq<nat> :: CounterCex(sys, enc, c, r, cs))
    && (a.result.False? ==> CounterCex(sys, enc, c, a.run, a.counters))
  }

  /** The keys seen at justice steps before time t. */
  ghost function KeysSeen<S(!new), I(!new), K>(sys: LiveSystem<S, I>, r: Run<S, I>, keys: seq<K>, t: nat): set<K>
    requires |sys.justice| == 1 && t <= |r.inputs| && |keys| == |r.states| == |r.inputs| + 1
  {
    if t == 0 then {}
    else KeysSeen(sys, r, keys, t - 1) + if sys.justice[0](r.states[t - 1], r.inputs[t - 1]) then {keys[t - 1]} else {}
  }

  lemma {:induction false} KeySeenAt<S(!new), I(!new), K>(sys: LiveSystem<S, I>, r: Run<S, I>, keys: seq<K>, t: nat, x: K)
    requires |sys.justice| == 1 && t <= |r.inputs| && |keys| == |r.states| == |r.inputs| + 1
    ensures x in KeysSeen(sys, r, keys, t) <==> exists a :: 0 <= a < t && keys[a] == x && sys.justice[0](r.states[a], r.inputs[a])
  {
    if t > 0 {
      KeySeenAt(sys, r, keys, t - 1, x);
    }
  }

  /** Without a revisit there are as many keys as justice steps. */
  lemma {:induction false} AsManyKeys<S(!new), I(!new), K>(sys: LiveSystem<S, I>, r: Run<S, I>, keys: seq<K>, t: nat)
    requires |sys.justice| == 1 && t <= |r.inputs| && |keys| == |r.states| == |r.inputs| + 1
    requires NoRevisit(sys, r, keys)
    ensures |KeysSeen(sys, r, keys, t)| == Count(sys, r, t)
  {
    if t > 0 {
      AsManyKeys(sys, r, keys, t - 1);
      if sys.justice[0](r.states[t - 1], r.inputs[t - 1]) {
        assert keys[t - 1] !in KeysSeen(sys, r, keys, t - 1) by {
          KeySeenAt(sys, r, keys, t - 1, keys[t - 1]);
        }
      }
      hide NoRevisit;
    }
  }

  /** A counterexample for more rounds than there are keys has a revisit. */
  lemma RevisitForced<S(!new), I(!new), K>(sys: LiveSystem<S, I>, enc: Encoding, k: nat, r: Run<S, I>, cs: seq<nat>, keys: seq<K>, values: set<K>)
    requires CounterCex(sys, enc, k, r, cs) && |keys| == |r.states| && k > |values|
    requires forall x | x in keys :: x in values
    ensures !NoRevisit(sys, r, keys)
  {
    var n := |r.inputs|;
    CounterCounts(sys, enc, k, r, cs, n);
    if Count(sys, r, n) <= k {
      CounterFirstHits(enc, k, Count(sys, r, n));
    }
    forall x | x in KeysSeen(sys, r, keys, n) ensures x in values {
      KeySeenAt(sys, r, keys, n, x);
    }
    var seen := KeysSeen(sys, r, keys, n);
    assert |seen| <= |values| by {
      assert values == seen + (values - seen);
    }
    if NoRevisit(sys, r, keys) {
      AsManyKeys(sys, r, keys, n);
    }
  }

  class KLiveness<S(!new), I(!new), K(==)> {
    const sys: LiveSystem<S, I>
    const enc: Encoding
    /** Projects a state on the variables a revisit compares. */
    const key: S -> K
    const bound: nat
    const stepSize: nat
    const checkLassoInCex: bool
    const lockstepBmc: bool
    var liveCount: nat

    ghost predicate Valid()
      reads this
    {
      |sys.justice| == 1 && FreeNext(sys, key) && stepSize > 0 && liveCount > 0
    }

    constructor (sys: LiveSystem<S, I>, enc: Encoding, key: S -> K, bound: nat, start: nat, stepSize: nat, checkLassoInCex: bool, lockstepBmc: bool)
      requires |sys.justice| == 1 && FreeNext(sys, key) && stepSize > 0 && start > 0
      ensures Valid() && this.sys == sys && this.enc == enc && this.key == key && liveCount == start
      ensures this.bound == bound && this.stepSize == stepSize
      ensures this.checkLassoInCex == checkLassoInCex && this.lockstepBmc == lockstepBmc
    {
      this.sys, this.enc, this.key, this.bound, this.stepSize := sys, enc, key, bound, stepSize;
      this.checkLassoInCex, this.lockstepBmc, liveCount := checkLassoInCex, lockstepBmc, start;
    }

    /** safety(c) answers for the count c; bmc(n) is a lasso that bounded model checking of the
        liveness-to-safety translation found. values holds the finitely many keys, if there are so
        few: a count beyond their number is then decided whenever its safety prover is. */
    method CheckUntil(k: int, safety: nat -> Answer<S, I>, bmc: nat -> Option<(Run<S, I>, nat)>, ghost values: set<K>) returns (r: ProverResult)
      requires Valid()
      requires forall c: nat | c > 0 :: AnswerOk(sys, enc, c, safety(c))
      requires forall n: nat | bmc(n).Some? :: IsLasso(sys, bmc(n).value.0, bmc(n).value.1)
      modifies this`liveCount
      ensures Valid()
      ensures r.True? ==> !exists f: nat -> S, g: nat -> I :: FairRun(sys, f, g)
      ensures r.False? ==> exists f: nat -> S, g: nat -> I :: FairRun(sys, f, g)
      ensures r.Unknown? ==> liveCount > bound || k < liveCount + 1
      ensures !r.Unknown? ==> liveCount <= bound && k >= liveCount + 1 && safety(liveCount).result == r
      ensures exists m: nat :: liveCount == Scheduled(old(liveCount), m)
      ensures forall m: nat | Scheduled(old(liveCount), m) < liveCount ::
                PassedOver(safety, bmc, Scheduled(old(liveCount), m)) && Scheduled(old(liveCount), m) <= bound
      ensures checkLassoInCex && (forall s :: key(s) in values) ==>
                forall m: nat | Scheduled(old(liveCount), m) < liveCount && Scheduled(old(liveCount), m) > |values| && Scheduled(old(liveCount), m) > 1 ::
                  safety(Scheduled(old(liveCount), m)).result.Unknown?
    {
      hide AnswerOk, IsLasso, FreeNext, FairRun, PassedOver;
      ghost var n := 0;
      r := Unknown;
      while liveCount <= bound
        invariant r.Unknown?
        invariant Valid() && liveCount == Scheduled(old(liveCount), n)
        invariant forall m: nat | m < n :: PassedOver(safety, bmc, Scheduled(old(liveCount), m)) && Scheduled(old(liveCount), m) <= bound
        decreases bound + 1 - liveCount
      {
        if k < liveCount + 1 {
          break;
        }
        r := CheckCount(safety, bmc);
        if !r.Unknown? {
          break;
        }
        liveCount := liveCount + stepSize;
        n := n + 1;
      }
      ScheduleGrows(old(liveCount), n);
      Decided(safety, bmc, old(liveCount), n, values);
    }

    /** One round: the safety prover's answer for the current count, and the tests of its counterexample. */
    method CheckCount(safety: nat -> Answer<S, I>, bmc: nat -> Option<(Run<S, I>, nat)>) returns (r: ProverResult)
      requires Valid() && AnswerOk(sys, enc, liveCount, safety(liveCount))
      requires forall n: nat | bmc(n).Some? :: IsLasso(sys, bmc(n).value.0, bmc(n).value.1)
      ensures r.True? ==> safety(liveCount).result.True? && !exists f: nat -> S, g: nat -> I :: FairRun(sys, f, g)
      ensures r.False? ==> safety(liveCount).result.False? && exists f: nat -> S, g: nat -> I :: FairRun(sys, f, g)
      ensures r.Unknown? ==> PassedOver(safety, bmc, liveCount)
    {
      var answer := safety(liveCount);
      if answer.result.True? {
        SafeCounterProvesLiveness(sys, enc, liveCount);
        return True;
      } else if answer.result.False? {
        if checkLassoInCex {
          var found := RevisitInCex(answer.run, answer.counters);
          if found {
            return False;
          }
        }
        if lockstepBmc {
          var lasso := bmc(|answer.run.inputs|);
          if lasso.Some? {
            LassoCloses(sys, lasso.value.0, lasso.value.1);
            var f, g := LoopIsFair(sys, lasso.value.0, lasso.value.1);
            return False;
          }
        }
      }
      r := Unknown;
    }

    /** The m-th count that is tried. */
    function Scheduled(start: nat, m: nat): nat {
      start + m * stepSize
    }

    lemma ScheduleGrows(start: nat, n: nat)
      requires Valid()
      ensures forall m: nat :: m < n <==> Scheduled(start, m) < Scheduled(start, n)
    {
      forall m: nat ensures m < n <==> Scheduled(start, m) < Scheduled(start, n) {
        assert m < n ==> m * stepSize < n * stepSize;
        assert m >= n ==> m * stepSize >= n * stepSize;
      }
    }

    /** The states of a run, projected on the variables a revisit compares. */
    function Keys(r: Run<S, I>): (keys: seq<K>)
      ensures |keys| == |r.states|
    {
      seq(|r.states|, t requires 0 <= t < |r.states| => key(r.states[t]))
    }

    /** When the engine may go on to a greater count than c: the safety prover found no proof, and
        none of the tests asked for turns its counterexample into a fair run. */
    ghost predicate PassedOver(safety: nat -> Answer<S, I>, bmc: nat -> Option<(Run<S, I>, nat)>, c: nat)
      requires |sys.justice| == 1 && (c > 0 ==> AnswerOk(sys, enc, c, safety(c)))
    {
      && c > 0 && !safety(c).result.True?
      && (safety(c).result.False? ==>
            && (checkLassoInCex && c > 1 ==> NoRevisit(sys, safety(c).run, Keys(safety(c).run)))
            && (lockstepBmc ==> bmc(|safety(c).run.inputs|).None?))
    }

    /** With finitely many keys, no count beyond their number is passed over once its prover answers. */
    lemma Decided(safety: nat -> Answer<S, I>, bmc: nat -> Option<(Run<S, I>, nat)>, start: nat, n: nat, values: set<K>)
      requires Valid() && forall c: nat | c > 0 :: AnswerOk(sys, enc, c, safety(c))
      requires forall m: nat | m < n :: PassedOver(safety, bmc, Scheduled(start, m))
      ensures checkLassoInCex && (forall s :: key(s) in values) ==>
                forall m: nat | m < n && Scheduled(start, m) > |values| && Scheduled(start, m) > 1 ::
                  safety(Scheduled(start, m)).result.Unknown?
    {
      if checkLassoInCex && forall s :: key(s) in values {
        forall m: nat | m < n && Scheduled(start, m) > |values| && Scheduled(start, m) > 1
          ensures safety(Scheduled(start, m)).result.Unknown?
        {
          var c := Scheduled(start, m);
          assert PassedOver(safety, bmc, c) && AnswerOk(sys, enc, c, safety(c));
          if safety(c).result.False? {
            RevisitForced(sys, enc, c, safety(c).run, safety(c).counters, Keys(safety(c).run), values);
          }
        }
      }
    }

    method RevisitInCex(r: Run<S, I>, cs: seq<nat>) returns (found: bool)
      requires Valid() && CounterCex(sys, enc, liveCount, r, cs)
      ensures found ==> exists f: nat -> S, g: nat -> I :: FairRun(sys, f, g)
      ensures !found && liveCount > 1 ==> NoRevisit(sys, r, Keys(r))
    {
      var loopStart, revisit;
      found, loopStart, revisit := DetectRevisit(sys, enc, liveCount, r, cs, Keys(r));
      if found {
        var f, g := RevisitIsFair(sys, key, r, loopStart, revisit);
      }
    }
  }
}
