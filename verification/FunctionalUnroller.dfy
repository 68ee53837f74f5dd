/** The functional unroller: states are substituted away, and fresh copies are introduced
    now and then together with constraints that define them. */
module FunctionalUnroller {
  import opened Terms
  import opened TransitionSystems

  /** What the unroller reads of a transition system. */
  datatype Functional = Functional(statevars: set<Name>, inputvars: set<Name>, updates: map<Name, Term>)

  ghost predicate WellScoped(f: Functional) {
    && (forall v | v in f.updates :: v in f.statevars)
    && forall v | v in f.updates :: InScope(f, f.updates[v])
  }

  ghost predicate InScope(f: Functional, t: Term) {
    Symbols(t) <= CurrSymbols(f.statevars) + InputSymbols(f.inputvars)
  }

  /** Step k of the run that the model m describes: m supplies the state of step 0, the inputs of
      every step and the variables without update of every step; the updates do the rest. */
  function RunAt(f: Functional, m: Model, k: nat): Model
    decreases k
  {
    if k == 0 then Model((x: Symbol) => m.sym(Timed(x, 0)), m.fun)
    else
      var before := RunAt(f, m, k - 1);
      Model((x: Symbol) => if x.Curr? && x.v in f.updates then Eval(f.updates[x.v], before) else m.sym(Timed(x, k)), m.fun)
  }

  lemma {:induction false} RunFun(f: Functional, m: Model, k: nat)
    ensures RunAt(f, m, k).fun == m.fun
  {
  }

  // ---------------------------------------------------------------- one entry of the cache

  predicate IsFresh(f: Functional, createNew: bool, v: Name) {
    createNew || v !in f.updates
  }

  /** The entry of step k > 0 or, with createNew, of any step, for the variables in done. */
  ghost predicate EntryShape(f: Functional, prev: Substitution, k: nat, createNew: bool, s: Substitution, done: set<Name>, inputs: set<Name>) {
    && s.Keys == CurrSymbols(done) + InputSymbols(inputs)
    && (forall v | v in done :: s[Curr(v)] == if IsFresh(f, createNew, v) then Sym(Timed(Curr(v), k)) else Subst(f.updates[v], prev))
    && forall v | v in inputs :: s[Input(v)] == Sym(Timed(Input(v), k))
  }

  /** The fresh copies of step k are what the updates make of the step before. */
  ghost predicate Defines(f: Functional, prev: Substitution, k: nat, vs: set<Name>, m: Model) {
    forall v | v in vs && v in f.updates :: m.sym(Timed(Curr(v), k)) == Eval(Subst(f.updates[v], prev), m)
  }

  ghost predicate ConstraintShape(f: Functional, prev: Substitution, k: nat, createNew: bool, c: Term, done: set<Name>) {
    forall m: Model :: Truth(c, m) <==> (k > 0 && createNew ==> Defines(f, prev, k, done, m))
  }

  /** Under m the entry yields step k of m's run. */
  ghost predicate Yields(f: Functional, s: Substitution, k: nat, m: Model) {
    forall x | x in CurrSymbols(f.statevars) + InputSymbols(f.inputvars) :: x in s && Eval(s[x], m) == RunAt(f, m, k).sym(x)
  }

  lemma YieldsTerm(f: Functional, s: Substitution, k: nat, m: Model, t: Term)
    requires Yields(f, s, k, m) && InScope(f, t)
    ensures Eval(Subst(t, s), m) == Eval(t, RunAt(f, m, k))
  {
    RunFun(f, m, k);
    SubstEval(t, s, m, RunAt(f, m, k));
  }

  lemma FirstYields(f: Functional, s: Substitution, m: Model)
    requires EntryShape(f, map[], 0, true, s, f.statevars, f.inputvars)
    ensures Yields(f, s, 0, m)
  {
  }

  /** If the entry before is right and the constraint of this one holds, so is this one. */
  lemma NextYields(f: Functional, prev: Substitution, s: Substitution, k: nat, createNew: bool, c: Term, m: Model)
    requires k > 0 && WellScoped(f) && Yields(f, prev, k - 1, m)
    requires EntryShape(f, prev, k, createNew, s, f.statevars, f.inputvars)
    requires ConstraintShape(f, prev, k, createNew, c, f.statevars) && Truth(c, m)
    ensures Yields(f, s, k, m)
  {
    hide Yields;
    hide InScope;
    assert forall v | v in f.updates :: InScope(f, f.updates[v]);
    forall v | v in f.statevars ensures Eval(s[Curr(v)], m) == RunAt(f, m, k).sym(Curr(v)) {
      if v in f.updates {
        YieldsTerm(f, prev, k - 1, m, f.updates[v]);
      }
    }
    YieldsAll(f, s, k, m);
  }

  lemma YieldsAll(f: Functional, s: Substitution, k: nat, m: Model)
    requires s.Keys == CurrSymbols(f.statevars) + InputSymbols(f.inputvars)
    requires forall v | v in f.statevars :: Eval(s[Curr(v)], m) == RunAt(f, m, k).sym(Curr(v))
    requires forall v | v in f.inputvars :: s[Input(v)] == Sym(Timed(Input(v), k))
    ensures Yields(f, s, k, m)
  {
  }

  // ---------------------------------------------------------------- the whole cache

  /** All entries and constraints, each with the flag it was made under. */
  ghost predicate CacheShape(f: Functional, cache: seq<Substitution>, extra: seq<Term>, created: seq<bool>) {
    && |extra| == |created| == |cache|
    && (|created| > 0 ==> created[0])
    && forall k {:trigger cache[k]} | 0 <= k < |cache| ::
         EntryShape(f, Before(cache, k), k, created[k], cache[k], f.statevars, f.inputvars)
         && ConstraintShape(f, Before(cache, k), k, created[k], extra[k], f.statevars)
  }

  function Before(cache: seq<Substitution>, k: int): Substitution
    requires k <= |cache|
  {
    if k > 0 then cache[k - 1] else map[]
  }

  /** m satisfies the extra constraints of the steps up to k. */
  ghost predicate Satisfies(extra: seq<Term>, m: Model, k: nat)
    requires k < |extra|
  {
    forall j | 0 <= j <= k :: Truth(extra[j], m)
  }

  /** Meaning is preserved for every request order and every interval: under the extra
      constraints each entry yields the run. */
  lemma {:induction false} CacheYields(f: Functional, cache: seq<Substitution>, extra: seq<Term>, created: seq<bool>, k: nat, m: Model)
    requires WellScoped(f) && CacheShape(f, cache, extra, created) && k < |cache| && Satisfies(extra, m, k)
    ensures Yields(f, cache[k], k, m)
  {
    if k == 0 {
      FirstYields(f, cache[0], m);
    } else {
      CacheYields(f, cache, extra, created, k - 1, m);
      NextYields(f, cache[k - 1], cache[k], k, created[k], extra[k], m);
    }
  }

  /** m with every copy of an updated variable set to its value in m's run. */
  function Completed(f: Functional, m: Model): Model {
    Model((x: Symbol) => if x.Timed? && x.of.Curr? then RunAt(f, m, x.t).sym(x.of) else m.sym(x), m.fun)
  }

  /** m and w describe the same run. */
  ghost predicate SameRun(f: Functional, m: Model, w: Model, k: nat) {
    forall x: Symbol | x.Curr? || x.Input? :: RunAt(f, w, k).sym(x) == RunAt(f, m, k).sym(x)
  }

  lemma {:induction false} CompletedRuns(f: Functional, m: Model, k: nat)
    requires WellScoped(f)
    ensures SameRun(f, m, Completed(f, m), k)
  {
    var w := Completed(f, m);
    if k > 0 {
      CompletedRuns(f, m, k - 1);
      RunFun(f, m, k - 1);
      RunFun(f, w, k - 1);
      forall v | v in f.updates ensures Eval(f.updates[v], RunAt(f, w, k - 1)) == Eval(f.updates[v], RunAt(f, m, k - 1)) {
        assert InScope(f, f.updates[v]);
        EvalAgree(f.updates[v], RunAt(f, w, k - 1), RunAt(f, m, k - 1));
      }
    }
  }

  /** The extra constraints exclude no run: filling in the copies satisfies them all. */
  lemma {:induction false} ConstraintsHarmless(f: Functional, cache: seq<Substitution>, extra: seq<Term>, created: seq<bool>, k: nat, m: Model)
    requires WellScoped(f) && CacheShape(f, cache, extra, created) && k < |cache|
    ensures Satisfies(extra, Completed(f, m), k) && SameRun(f, m, Completed(f, m), k)
  {
    var w := Completed(f, m);
    CompletedRuns(f, m, k);
    assert ConstraintShape(f, Before(cache, k), k, created[k], extra[k], f.statevars) by {
      assert cache[k] == cache[k];
    }
    if k > 0 {
      ConstraintsHarmless(f, cache, extra, created, k - 1, m);
      CacheYields(f, cache, extra, created, k - 1, w);
      assert Defines(f, cache[k - 1], k, f.statevars, w) by {
        CopiesDefined(f, cache[k - 1], k, m);
      }
    }
    assert Truth(extra[k], w);
  }

  lemma CopiesDefined(f: Functional, prev: Substitution, k: nat, m: Model)
    requires WellScoped(f) && k > 0 && Yields(f, prev, k - 1, Completed(f, m))
    ensures Defines(f, prev, k, f.statevars, Completed(f, m))
  {
    var w := Completed(f, m);
    CompletedRuns(f, m, k);
    forall v | v in f.statevars && v in f.updates ensures w.sym(Timed(Curr(v), k)) == Eval(Subst(f.updates[v], prev), w) {
      assert InScope(f, f.updates[v]);
      YieldsTerm(f, prev, k - 1, w, f.updates[v]);
      assert RunAt(f, w, k).sym(Curr(v)) == RunAt(f, m, k).sym(Curr(v));
    }
  }

  /** The copies made for step k carry the values of m's run. */
  ghost predicate CopiesRight(f: Functional, m: Model, k: nat) {
    forall v | v in f.updates :: m.sym(Timed(Curr(v), k)) == RunAt(f, m, k).sym(Curr(v))
  }

  /** What an extra constraint means once the earlier ones hold. */
  lemma ConstraintMeans(f: Functional, cache: seq<Substitution>, extra: seq<Term>, created: seq<bool>, k: nat, m: Model)
    requires WellScoped(f) && CacheShape(f, cache, extra, created) && k < |cache| && (k > 0 ==> Satisfies(extra, m, k - 1))
    ensures Truth(extra[k], m) <==> (k > 0 && created[k] ==> CopiesRight(f, m, k))
  {
    assert ConstraintShape(f, Before(cache, k), k, created[k], extra[k], f.statevars) by {
      assert cache[k] == cache[k];
    }
    if k > 0 {
      CacheYields(f, cache, extra, created, k - 1, m);
      forall v | v in f.updates ensures Eval(Subst(f.updates[v], cache[k - 1]), m) == RunAt(f, m, k).sym(Curr(v)) {
        assert InScope(f, f.updates[v]);
        YieldsTerm(f, cache[k - 1], k - 1, m, f.updates[v]);
      }
    }
    hide CacheShape;
    hide Yields;
    hide Truth;
  }

  /** The extra constraints up to k hold in exactly the models whose copies follow the run. */
  lemma {:induction false} SatisfiesExact(f: Functional, cache: seq<Substitution>, extra: seq<Term>, created: seq<bool>, k: nat, m: Model)
    requires WellScoped(f) && CacheShape(f, cache, extra, created) && k < |cache|
    ensures Satisfies(extra, m, k) <==> forall j | 1 <= j <= k && created[j] :: CopiesRight(f, m, j)
  {
    if k > 0 {
      SatisfiesExact(f, cache, extra, created, k - 1, m);
      if Satisfies(extra, m, k - 1) {
        ConstraintMeans(f, cache, extra, created, k, m);
      }
    } else {
      ConstraintMeans(f, cache, extra, created, k, m);
    }
    hide CacheShape;
    hide CopiesRight;
    hide Truth;
  }

  // ---------------------------------------------------------------- the unroller

  class FunctionalUnroller {
    const ts: TransitionSystem
    const interval: nat
    var timeCache: seq<Substitution>
    var extraConstraints: seq<Term>
    /** Which entries were asked to make new copies. */
    ghost var created: seq<bool>

    ghost function Seen(): Functional
      reads ts
    {
      Functional(ts.statevars, ts.inputvars, ts.updates)
    }

    /** The unroller is bound to the system it was made for: nothing here keeps up with changes. */
    ghost predicate Valid()
      reads this, ts
    {
      WellScoped(Seen()) && CacheShape(Seen(), timeCache, extraConstraints, created)
    }

    /** Throws for a relational system. */
    constructor (ts: TransitionSystem, interval: nat)
      requires ts.functional && ts.Valid()
      ensures Valid() && this.ts == ts && this.interval == interval && timeCache == []
    {
      this.ts, this.interval := ts, interval;
      timeCache, extraConstraints, created := [], [], [];
    }

    /** ok is false where the original throws: next-state variables, and symbols it does not know. */
    method AtTime(t: Term, k: nat) returns (ok: bool, r: Term)
      requires Valid()
      modifies this
      ensures Valid() && old(timeCache) <= timeCache && old(extraConstraints) <= extraConstraints
      ensures ok == ts.NoNext(t)
      ensures ok ==> k < |extraConstraints| && |created| == |extraConstraints|
      ensures ok ==> forall m: Model | Satisfies(extraConstraints, m, k) :: Eval(r, m) == Eval(t, RunAt(Seen(), m, k))
      ensures ok ==> forall j | |old(created)| <= j < |created| :: created[j] == CreateNew(interval, j, k)
    {
      hide ConstraintShape;
      if !ts.NoNext(t) {
        return false, t;
      }
      var cache := VarCacheAtTime(k);
      if t.Sym? && t.x in cache {
        r := cache[t.x];
      } else {
        r := Subst(t, cache);
      }
      ok := true;
      forall m: Model | Satisfies(extraConstraints, m, k) ensures Eval(r, m) == Eval(t, RunAt(Seen(), m, k)) {
        CacheYields(Seen(), timeCache, extraConstraints, created, k, m);
        YieldsTerm(Seen(), timeCache[k], k, m, t);
      }
    }

    method VarCacheAtTime(k: nat) returns (r: Substitution)
      requires Valid()
      modifies this
      ensures Valid() && old(timeCache) <= timeCache && old(extraConstraints) <= extraConstraints
      ensures k < |timeCache| && r == timeCache[k] && old(created) <= created
      ensures forall j | |old(created)| <= j < |created| :: created[j] == CreateNew(interval, j, k)
    {
      hide EntryShape;
      hide ConstraintShape;
      SameLengths(Seen(), timeCache, extraConstraints, created);
      hide CacheShape;
      while |timeCache| <= k
        invariant |timeCache| == |extraConstraints| == |created|
        invariant Valid() && old(timeCache) <= timeCache && old(extraConstraints) <= extraConstraints && old(created) <= created
        invariant forall j | |old(created)| <= j < |created| :: created[j] == CreateNew(interval, j, k)
      {
        var t := |timeCache|;
        var createNew := CreateNew(interval, t, k);
        var subst, constraint := MakeEntry(t, createNew);
        ShapeGrows(Seen(), timeCache, extraConstraints, created, subst, constraint, createNew);
        timeCache := timeCache + [subst];
        extraConstraints := extraConstraints + [constraint];
        created := created + [createNew];
      }
      r := timeCache[k];
    }

    method MakeEntry(t: nat, createNew: bool) returns (subst: Substitution, constraint: Term)
      requires Valid() && t == |timeCache| && (t == 0 ==> createNew)
      ensures EntryShape(Seen(), Before(timeCache, t), t, createNew, subst, ts.statevars, ts.inputvars)
      ensures ConstraintShape(Seen(), Before(timeCache, t), t, createNew, constraint, ts.statevars)
    {
      hide CacheShape;
      subst, constraint := map[], TrueTerm;
      var todo := ts.statevars;
      assert ts.statevars - todo == {};
      while todo != {}
        invariant todo <= ts.statevars
        invariant EntryShape(Seen(), Before(timeCache, t), t, createNew, subst, ts.statevars - todo, {})
        invariant ConstraintShape(Seen(), Before(timeCache, t), t, createNew, constraint, ts.statevars - todo)
        decreases todo
      {
        var v :| v in todo;
        ghost var s, c, done := subst, constraint, ts.statevars - todo;
        var noUpdate := v !in ts.updates;
        if createNew || noUpdate {
          subst := subst[Curr(v) := Sym(Timed(Curr(v), t))];
        }
        if t > 0 && !noUpdate {
          var funSubst := Subst(ts.updates[v], timeCache[t - 1]);
          if createNew {
            constraint := MkAnd(constraint, MkEqual(subst[Curr(v)], funSubst));
          } else {
            subst := subst[Curr(v) := funSubst];
          }
        }
        EntryGrows(Seen(), Before(timeCache, t), t, createNew, s, done, v);
        ConstraintGrows(Seen(), Before(timeCache, t), t, createNew, c, done, v);
        todo := todo - {v};
        assert ts.statevars - todo == done + {v};
        hide EntryShape;
        hide ConstraintShape;
      }
      assert ts.statevars - todo == ts.statevars;
      var inputs := ts.inputvars;
      assert ts.inputvars - inputs == {};
      while inputs != {}
        invariant inputs <= ts.inputvars
        invariant EntryShape(Seen(), Before(timeCache, t), t, createNew, subst, ts.statevars, ts.inputvars - inputs)
        decreases inputs
      {
        var v :| v in inputs;
        ghost var s, done := subst, ts.inputvars - inputs;
        subst := subst[Input(v) := Sym(Timed(Input(v), t))];
        InputGrows(Seen(), Before(timeCache, t), t, createNew, s, done, v);
        inputs := inputs - {v};
        assert ts.inputvars - inputs == done + {v};
        hide EntryShape;
      }
      assert ts.inputvars - inputs == ts.inputvars;
    }

    /** Throws when the unrolling has not come that far. Given the constraints of the steps before,
        the one of step k says that the copies made for that step, if any, have the values of the run. */
    method ExtraConstraintsAt(k: nat) returns (ok: bool, r: Term)
      requires Valid()
      ensures ok == (k < |timeCache|) && |timeCache| == |extraConstraints| == |created|
      ensures ok ==> forall m: Model | k > 0 ==> Satisfies(extraConstraints, m, k - 1) ::
                  Truth(r, m) <==> (k > 0 && created[k] ==> CopiesRight(Seen(), m, k))
    {
      ok := k < |extraConstraints|;
      r := if ok then extraConstraints[k] else TrueTerm;
      forall m: Model | ok && (k > 0 ==> Satisfies(extraConstraints, m, k - 1))
        ensures Truth(r, m) <==> (k > 0 && created[k] ==> CopiesRight(Seen(), m, k))
      {
        ConstraintMeans(Seen(), timeCache, extraConstraints, created, k, m);
      }
      hide CacheShape;
    }
  }

  lemma SameLengths(f: Functional, cache: seq<Substitution>, extra: seq<Term>, created: seq<bool>)
    requires CacheShape(f, cache, extra, created)
    ensures |extra| == |created| == |cache|
  {
  }

  lemma ShapeGrows(f: Functional, cache: seq<Substitution>, extra: seq<Term>, created: seq<bool>, s: Substitution, c: Term, createNew: bool)
    requires CacheShape(f, cache, extra, created) && (cache == [] ==> createNew)
    requires EntryShape(f, Before(cache, |cache|), |cache|, createNew, s, f.statevars, f.inputvars)
    requires ConstraintShape(f, Before(cache, |cache|), |cache|, createNew, c, f.statevars)
    ensures CacheShape(f, cache + [s], extra + [c], created + [createNew])
  {
    hide EntryShape;
    hide ConstraintShape;
    var after := cache + [s];
    forall k | 0 <= k < |after|
      ensures EntryShape(f, Before(after, k), k, (created + [createNew])[k], after[k], f.statevars, f.inputvars)
      ensures ConstraintShape(f, Before(after, k), k, (created + [createNew])[k], (extra + [c])[k], f.statevars)
    {
      if k < |cache| {
        assert after[k] == cache[k] && Before(after, k) == Before(cache, k);
      } else {
        assert Before(after, k) == Before(cache, |cache|);
      }
    }
  }

  /** Entry t makes new copies. The interval is tried on the step k that was asked for. */
  function CreateNew(interval: nat, t: nat, k: nat): bool {
    (interval != 0 && k % interval == 0) || t == 0
  }

  lemma EntryGrows(f: Functional, prev: Substitution, k: nat, createNew: bool, s: Substitution, done: set<Name>, v: Name)
    requires EntryShape(f, prev, k, createNew, s, done, {}) && v !in done
    ensures EntryShape(f, prev, k, createNew,
                       s[Curr(v) := if IsFresh(f, createNew, v) then Sym(Timed(Curr(v), k)) else Subst(f.updates[v], prev)], done + {v}, {})
  {
    hide Subst;
  }

  lemma InputGrows(f: Functional, prev: Substitution, k: nat, createNew: bool, s: Substitution, done: set<Name>, v: Name)
    requires EntryShape(f, prev, k, createNew, s, f.statevars, done)
    ensures EntryShape(f, prev, k, createNew, s[Input(v) := Sym(Timed(Input(v), k))], f.statevars, done + {v})
  {
    hide Subst;
  }

  lemma ConstraintGrows(f: Functional, prev: Substitution, k: nat, createNew: bool, c: Term, done: set<Name>, v: Name)
    requires ConstraintShape(f, prev, k, createNew, c, done) && v !in done
    ensures ConstraintShape(f, prev, k, createNew,
                            if k > 0 && createNew && v in f.updates
                            then MkAnd(c, MkEqual(Sym(Timed(Curr(v), k)), Subst(f.updates[v], prev))) else c, done + {v})
  {
    if v in f.updates {
      var e := MkEqual(Sym(Timed(Curr(v), k)), Subst(f.updates[v], prev));
      forall m: Model ensures Truth(MkAnd(c, e), m) <==>
                              Truth(c, m) && m.sym(Timed(Curr(v), k)) == Eval(Subst(f.updates[v], prev), m)
      {
        TruthAnd(c, e, m);
        TruthEqual(Sym(Timed(Curr(v), k)), Subst(f.updates[v], prev), m);
      }
    }
    hide Subst;
    hide Truth;
  }

  // ---------------------------------------------------------------- where the copies come

  /** New copies every interval steps. */
  predicate AsDocumented(interval: nat, t: nat) {
    t == 0 || (interval != 0 && t % interval == 0)
  }

  /** Asking for step k when the cache has n entries creates the copies the interval promises exactly
      when it is 0 or 1, at most one entry beyond the first is built, or no multiple of the interval
      lies in between. */
  lemma CreatedAsDocumented(interval: nat, n: nat, k: nat)
    requires n <= k
    ensures (forall t | n <= t <= k :: CreateNew(interval, t, k) == AsDocumented(interval, t)) <==>
            (interval <= 1 || n >= k || k == 1
             || (k % interval != 0 && k / interval == (if n == 0 then 0 else (n - 1) / interval)))
  {
    var from := if n == 0 then 1 else n;
    if interval >= 2 && from < k {
      if k % interval == 0 {
        ModBefore(k, interval);
        assert CreateNew(interval, k - 1, k) != AsDocumented(interval, k - 1);
      } else if k / interval == (from - 1) / interval {
        forall t | from <= t <= k ensures t % interval != 0 {
          NoMultiple(from - 1, t, k, interval);
        }
      } else {
        var t := Multiple(from, k, interval);
        assert CreateNew(interval, t, k) != AsDocumented(interval, t);
      }
    }
  }

  lemma ModBefore(k: nat, d: nat)
    requires d >= 2 && k >= 1 && k % d == 0
    ensures (k - 1) % d != 0
  {
    var q := k / d;
    assert k == q * d;
    assert k - 1 == (q - 1) * d + (d - 1);
    DivUnique(k - 1, d, q - 1, d - 1);
  }

  lemma DivUnique(a: int, d: nat, q: int, r: int)
    requires d > 0 && a == q * d + r && 0 <= r < d
    ensures a / d == q && a % d == r
  {
    var x, y := a / d, a % d;
    assert x * d + y == a;
    MulMono(q + 1, x, d);
    MulMono(x + 1, q, d);
  }

  lemma MulMono(a: int, b: int, d: nat)
    ensures a <= b ==> a * d <= b * d
  {
  }

  lemma DivMono(a: nat, b: nat, d: nat)
    requires d > 0 && a <= b
    ensures a / d <= b / d
  {
    var x, y := a / d, b / d;
    assert x * d + a % d == a && y * d + b % d == b;
    MulMono(y + 1, x, d);
  }

  /** Between steps of the same block there is no multiple but the first. */
  lemma NoMultiple(a: nat, t: nat, b: nat, d: nat)
    requires d >= 2 && a < t <= b && a / d == b / d
    ensures t % d != 0
  {
    DivMono(a, t, d);
    DivMono(t, b, d);
    assert t == (t / d) * d + t % d && a == (a / d) * d + a % d;
  }

  lemma Multiple(from: nat, k: nat, d: nat) returns (t: nat)
    requires d >= 2 && 1 <= from <= k && k / d != (from - 1) / d
    ensures from <= t <= k && t % d == 0
  {
    t := (k / d) * d;
    assert k == (k / d) * d + k % d;
    DivUnique(t, d, k / d, 0);
    if t <= from - 1 {
      DivMono(t, from - 1, d);
      DivMono(from - 1, k, d);
    }
  }
}
