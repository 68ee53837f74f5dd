/** The relational unroller: timed copies of variables, substituted into a term, and the way
    back. */
module Unroller {
  import opened Terms
  import opened TransitionSystems

  /** The timed copy of x at step k; a next-state variable is the current one of step k + 1. */
  function TimedOf(x: Symbol, k: nat): Symbol {
    match x
    case Next(v) => Timed(Curr(v), k + 1)
    case _ => Timed(x, k)
  }

  /** The step a timed model describes at k. */
  function StepAt(m: Model, k: nat): Model {
    Model((x: Symbol) => m.sym(TimedOf(x, k)), m.fun)
  }

  /** Next-state variables turned into current ones. */
  function Unprime(x: Symbol): Symbol {
    match x
    case Next(v) => Curr(v)
    case _ => x
  }

  function Rename(t: Term, f: Symbol -> Symbol): Term
    decreases t, 1
  {
    match t
    case Val(_) => t
    case Sym(x) => Sym(f(x))
    case App(op, args) => App(op, RenameAll(args, f))
  }

  function RenameAll(ts: seq<Term>, f: Symbol -> Symbol): seq<Term>
    decreases ts, 0
  {
    if ts == [] then [] else [Rename(ts[0], f)] + RenameAll(ts[1..], f)
  }

  lemma {:induction false} RenameSame(t: Term, f: Symbol -> Symbol)
    ensures Rename(t, f) == t <==> forall x | x in Symbols(t) :: f(x) == x
    decreases t, 1
  {
    if t.App? {
      RenameAllSame(t.args, f);
    }
  }

  lemma {:induction false} RenameAllSame(ts: seq<Term>, f: Symbol -> Symbol)
    ensures RenameAll(ts, f) == ts <==> forall x | x in SymbolsAll(ts) :: f(x) == x
    decreases ts, 0
  {
    if ts != [] {
      RenameSame(ts[0], f);
      RenameAllSame(ts[1..], f);
      var r := RenameAll(ts, f);
      assert r[0] == Rename(ts[0], f) && r[1..] == RenameAll(ts[1..], f);
      assert ts == [ts[0]] + ts[1..];
    }
  }

  function ApplySub(s: Substitution, x: Symbol): Term {
    if x in s then s[x] else Sym(x)
  }

  /** Substituting one after the other. */
  lemma {:induction false} SubstTwice(t: Term, s: Substitution, u: Substitution, f: Symbol -> Symbol)
    requires forall x | x in Symbols(t) :: Subst(ApplySub(s, x), u) == Sym(f(x))
    ensures Subst(Subst(t, s), u) == Rename(t, f)
    decreases t, 1
  {
    if t.App? {
      SubstTwiceAll(t.args, s, u, f);
    }
  }

  lemma {:induction false} SubstTwiceAll(ts: seq<Term>, s: Substitution, u: Substitution, f: Symbol -> Symbol)
    requires forall x | x in SymbolsAll(ts) :: Subst(ApplySub(s, x), u) == Sym(f(x))
    ensures SubstAll(SubstAll(ts, s), u) == RenameAll(ts, f)
    decreases ts, 0
  {
    if ts != [] {
      SubstTwice(ts[0], s, u, f);
      SubstTwiceAll(ts[1..], s, u, f);
      assert SubstAll(ts, s)[1..] == SubstAll(ts[1..], s);
    }
  }

  function TimedAll(xs: set<Symbol>, k: nat): set<Symbol> {
    set x | x in xs :: TimedOf(x, k)
  }

  /** Substituting timed copies for all symbols leaves just those copies. */
  lemma {:induction false} SubstSymbols(t: Term, s: Substitution, k: nat)
    requires forall x | x in Symbols(t) :: ApplySub(s, x) == Sym(TimedOf(x, k))
    ensures Symbols(Subst(t, s)) == TimedAll(Symbols(t), k)
    decreases t, 1
  {
    if t.App? {
      SubstSymbolsAll(t.args, s, k);
    }
  }

  lemma {:induction false} SubstSymbolsAll(ts: seq<Term>, s: Substitution, k: nat)
    requires forall x | x in SymbolsAll(ts) :: ApplySub(s, x) == Sym(TimedOf(x, k))
    ensures SymbolsAll(SubstAll(ts, s)) == TimedAll(SymbolsAll(ts), k)
    decreases ts, 0
  {
    if ts != [] {
      SubstSymbols(ts[0], s, k);
      SubstSymbolsAll(ts[1..], s, k);
      assert SubstAll(ts, s)[1..] == SubstAll(ts[1..], s);
      assert TimedAll(SymbolsAll(ts), k) == TimedAll(Symbols(ts[0]), k) + TimedAll(SymbolsAll(ts[1..]), k);
    }
  }

  /** The variables a substitution of step k must know. */
  predicate Covers(s: Substitution, states: set<Name>, inputs: set<Name>) {
    && (forall v | v in states :: Curr(v) in s && Next(v) in s)
    && forall v | v in inputs :: Input(v) in s
  }

  predicate TimesAt(s: Substitution, k: nat) {
    forall x | x in s :: !x.Timed? && s[x] == Sym(TimedOf(x, k))
  }

  predicate KnownSymbol(states: set<Name>, inputs: set<Name>, x: Symbol) {
    match x
    case Curr(v) => v in states
    case Next(v) => v in states
    case Input(v) => v in inputs
    case Timed(_, _) => false
  }

  /** All of t is made of the system's variables. */
  predicate InScope(t: Term, states: set<Name>, inputs: set<Name>) {
    forall x | x in Symbols(t) :: KnownSymbol(states, inputs, x)
  }

  /** Unrolling says of step k what the term says of a step. */
  lemma UnrollMeans(t: Term, s: Substitution, states: set<Name>, inputs: set<Name>, k: nat, m: Model)
    requires InScope(t, states, inputs) && Covers(s, states, inputs) && TimesAt(s, k)
    ensures Eval(Subst(t, s), m) == Eval(t, StepAt(m, k))
  {
    forall x | x in Symbols(t) ensures StepAt(m, k).sym(x) == Replaced(s, m, x) {
      assert x in s;
    }
    SubstEval(t, s, m, StepAt(m, k));
  }

  /** Every copy in the rows is known to untime. */
  ghost predicate RowsOk(timeVarMap: seq<map<Symbol, Symbol>>, untimeCache: Substitution) {
    forall k, x | 0 <= k < |timeVarMap| && x in timeVarMap[k] :: timeVarMap[k][x] == Timed(x, k) && Timed(x, k) in untimeCache
  }

  ghost predicate UntimesOk(timeVarMap: seq<map<Symbol, Symbol>>, untimeCache: Substitution) {
    forall x | x in untimeCache :: x.Timed? && x.t < |timeVarMap| && x.of in timeVarMap[x.t] && untimeCache[x] == Sym(x.of)
  }

  ghost predicate TimesOk(untimeCache: Substitution, varTimes: map<Symbol, nat>) {
    varTimes.Keys == untimeCache.Keys && forall x | x in varTimes :: x.Timed? && varTimes[x] == x.t
  }

  /** The caches agree: every copy of a variable was made once, and untime takes it back. */
  ghost predicate VarsOk(timeVarMap: seq<map<Symbol, Symbol>>, untimeCache: Substitution, varTimes: map<Symbol, nat>) {
    RowsOk(timeVarMap, untimeCache) && UntimesOk(timeVarMap, untimeCache) && TimesOk(untimeCache, varTimes)
  }

  /** A new row, and a new copy in a row. */
  lemma RowAdded(timeVarMap: seq<map<Symbol, Symbol>>, untimeCache: Substitution, varTimes: map<Symbol, nat>)
    requires VarsOk(timeVarMap, untimeCache, varTimes)
    ensures VarsOk(timeVarMap + [map[]], untimeCache, varTimes)
  {
  }

  lemma RowsAfterCopy(timeVarMap: seq<map<Symbol, Symbol>>, untimeCache: Substitution, v: Symbol, k: nat)
    requires RowsOk(timeVarMap, untimeCache) && k < |timeVarMap|
    ensures RowsOk(timeVarMap[k := timeVarMap[k][v := Timed(v, k)]], untimeCache[Timed(v, k) := Sym(v)])
  {
  }

  lemma UntimesAfterCopy(timeVarMap: seq<map<Symbol, Symbol>>, untimeCache: Substitution, v: Symbol, k: nat)
    requires UntimesOk(timeVarMap, untimeCache) && k < |timeVarMap|
    ensures UntimesOk(timeVarMap[k := timeVarMap[k][v := Timed(v, k)]], untimeCache[Timed(v, k) := Sym(v)])
  {
  }

  lemma CopyAdded(timeVarMap: seq<map<Symbol, Symbol>>, untimeCache: Substitution, varTimes: map<Symbol, nat>, v: Symbol, k: nat)
    requires VarsOk(timeVarMap, untimeCache, varTimes) && k < |timeVarMap| && v !in timeVarMap[k]
    ensures Timed(v, k) !in untimeCache
    ensures VarsOk(timeVarMap[k := timeVarMap[k][v := Timed(v, k)]], untimeCache[Timed(v, k) := Sym(v)], varTimes[Timed(v, k) := k])
  {
    assert Timed(v, k) !in untimeCache;
    RowsAfterCopy(timeVarMap, untimeCache, v, k);
    UntimesAfterCopy(timeVarMap, untimeCache, v, k);
    hide RowsOk;
    hide UntimesOk;
  }

  /** An entry of the cache: the copies of step k of the variables named, all of them made. */
  ghost predicate EntryOk(s: Substitution, k: nat, states: set<Name>, inputs: set<Name>, made: set<Symbol>) {
    TimesAt(s, k) && Covers(s, states, inputs) && forall x | x in s :: TimedOf(x, k) in made
  }

  lemma StateAdded(s: Substitution, k: nat, states: set<Name>, made: set<Symbol>, v: Name, more: set<Symbol>)
    requires EntryOk(s, k, states, {}, made) && made <= more && Timed(Curr(v), k) in more && Timed(Curr(v), k + 1) in more
    ensures EntryOk(s[Curr(v) := Sym(Timed(Curr(v), k))][Next(v) := Sym(Timed(Curr(v), k + 1))], k, states + {v}, {}, more)
  {
  }

  lemma InputAdded(s: Substitution, k: nat, states: set<Name>, inputs: set<Name>, made: set<Symbol>, v: Name, more: set<Symbol>)
    requires EntryOk(s, k, states, inputs, made) && made <= more && Timed(Input(v), k) in more
    ensures EntryOk(s[Input(v) := Sym(Timed(Input(v), k))], k, states, inputs + {v}, more)
  {
  }

  /** What an entry offers when more copies exist and fewer variables are asked for. */
  lemma EntryWeakens(s: Substitution, k: nat, states: set<Name>, inputs: set<Name>, made: set<Symbol>,
                     fewer: set<Name>, fewerInputs: set<Name>, more: set<Symbol>)
    requires EntryOk(s, k, states, inputs, made) && made <= more && fewer <= states && fewerInputs <= inputs
    ensures EntryOk(s, k, fewer, fewerInputs, more)
  {
  }

  ghost predicate CacheOk(cache: seq<Substitution>, states: set<Name>, inputs: set<Name>, made: set<Symbol>) {
    forall k | 0 <= k < |cache| :: EntryOk(cache[k], k, states, inputs, made)
  }

  lemma CacheWeakens(cache: seq<Substitution>, states: set<Name>, inputs: set<Name>, made: set<Symbol>, more: set<Symbol>)
    requires CacheOk(cache, states, inputs, made) && made <= more
    ensures CacheOk(cache, states, inputs, more)
  {
  }

  datatype CurrTime = Time(k: nat) | UnknownVariable | NotUnrolled

  class Unroller {
    const ts: TransitionSystem
    var timeCache: seq<Substitution>
    var timeVarMap: seq<map<Symbol, Symbol>>
    var untimeCache: Substitution
    var varTimes: map<Symbol, nat>
    var numVars: nat
    /** The variables the system had when numVars was counted. */
    ghost var seenStates: set<Name>
    ghost var seenInputs: set<Name>

    ghost predicate VarsValid()
      reads this
    {
      VarsOk(timeVarMap, untimeCache, varTimes)
    }

    ghost predicate EntryValid(s: Substitution, k: nat, states: set<Name>, inputs: set<Name>)
      reads this
    {
      EntryOk(s, k, states, inputs, untimeCache.Keys)
    }

    ghost predicate Valid()
      reads this, ts
    {
      && VarsValid()
      && seenStates <= ts.statevars && seenInputs <= ts.inputvars
      && numVars == |seenStates| + |seenInputs|
      && CacheOk(timeCache, seenStates, seenInputs, untimeCache.Keys)
    }

    constructor (ts: TransitionSystem)
      ensures Valid() && this.ts == ts && untimeCache == map[]
    {
      this.ts := ts;
      timeCache, timeVarMap, untimeCache, varTimes := [], [], map[], map[];
      numVars := |ts.statevars| + |ts.inputvars|;
      seenStates, seenInputs := ts.statevars, ts.inputvars;
    }

    /** make_symbol throws on a name in use, so a copy must not be made twice. */
    method VarAtTime(v: Symbol, k: nat) returns (r: Symbol)
      requires VarsValid()
      modifies this`timeVarMap, this`untimeCache, this`varTimes
      ensures VarsValid() && r == Timed(v, k) && r in untimeCache
      ensures untimeCache.Keys == old(untimeCache.Keys) + {r}
    {
      while |timeVarMap| <= k
        invariant VarsValid() && untimeCache == old(untimeCache)
      {
        RowAdded(timeVarMap, untimeCache, varTimes);
        timeVarMap := timeVarMap + [map[]];
      }
      if v in timeVarMap[k] {
        return timeVarMap[k][v];
      }
      CopyAdded(timeVarMap, untimeCache, varTimes, v, k);
      hide VarsOk;
      r := Timed(v, k);
      assert r !in untimeCache;
      timeVarMap := timeVarMap[k := timeVarMap[k][v := r]];
      untimeCache := untimeCache[r := Sym(v)];
      varTimes := varTimes[r := k];
    }

    /** Adds the copies of all variables at step k to s. */
    method AddVariables(s: Substitution, k: nat) returns (r: Substitution)
      requires VarsValid() && EntryValid(s, k, {}, {})
      modifies this`timeVarMap, this`untimeCache, this`varTimes
      ensures VarsValid() && old(untimeCache.Keys) <= untimeCache.Keys
      ensures EntryValid(r, k, ts.statevars, ts.inputvars)
    {
      hide VarsOk;
      hide EntryOk;
      r := s;
      var todo := ts.statevars;
      assert ts.statevars - todo == {};
      while todo != {}
        invariant VarsValid() && todo <= ts.statevars && old(untimeCache.Keys) <= untimeCache.Keys
        invariant EntryValid(r, k, ts.statevars - todo, {})
        decreases todo
      {
        var v :| v in todo;
        ghost var made, before := untimeCache.Keys, ts.statevars - todo;
        var now := VarAtTime(Curr(v), k);
        var next := VarAtTime(Curr(v), k + 1);
        StateAdded(r, k, before, made, v, untimeCache.Keys);
        r := r[Curr(v) := Sym(now)][Next(v) := Sym(next)];
        todo := todo - {v};
        assert ts.statevars - todo == before + {v};
      }
      assert ts.statevars - todo == ts.statevars;
      var inputs := ts.inputvars;
      assert ts.inputvars - inputs == {};
      while inputs != {}
        invariant VarsValid() && inputs <= ts.inputvars && old(untimeCache.Keys) <= untimeCache.Keys
        invariant EntryValid(r, k, ts.statevars, ts.inputvars - inputs)
        decreases inputs
      {
        var v :| v in inputs;
        ghost var made, before := untimeCache.Keys, ts.inputvars - inputs;
        var now := VarAtTime(Input(v), k);
        InputAdded(r, k, ts.statevars, before, made, v, untimeCache.Keys);
        r := r[Input(v) := Sym(now)];
        inputs := inputs - {v};
        assert ts.inputvars - inputs == before + {v};
      }
      assert ts.inputvars - inputs == ts.inputvars;
    }

    /** The substitution of step k, which knows every variable the system has by now. */
    method VarCacheAtTime(k: nat) returns (r: Substitution)
      requires Valid()
      modifies this
      ensures Valid() && EntryValid(r, k, ts.statevars, ts.inputvars)
      ensures old(untimeCache.Keys) <= untimeCache.Keys
    {
      hide VarsOk;
      hide EntryOk;
      hide CacheOk;
      while |timeCache| <= k
        invariant Valid() && old(untimeCache.Keys) <= untimeCache.Keys
      {
        AddEntry();
      }
      var current := |ts.statevars| + |ts.inputvars|;
      CountGrows(seenStates, ts.statevars, seenInputs, ts.inputvars);
      if current > numVars {
        numVars := current;
        RefreshEntries();
        seenStates, seenInputs := ts.statevars, ts.inputvars;
      }
      r := timeCache[k];
      assert EntryOk(timeCache[k], k, seenStates, seenInputs, untimeCache.Keys) by {
        EntryAt(timeCache, seenStates, seenInputs, untimeCache.Keys, k);
      }
    }

    method AddEntry()
      requires Valid()
      modifies this
      ensures Valid() && |timeCache| == |old(timeCache)| + 1 && old(untimeCache.Keys) <= untimeCache.Keys
    {
      hide VarsOk;
      ghost var made := untimeCache.Keys;
      var s := AddVariables(map[], |timeCache|);
      CacheWeakens(timeCache, seenStates, seenInputs, made, untimeCache.Keys);
      EntryWeakens(s, |timeCache|, ts.statevars, ts.inputvars, untimeCache.Keys, seenStates, seenInputs, untimeCache.Keys);
      hide EntryOk;
      timeCache := timeCache + [s];
    }

    /** Brings every entry up to date. */
    method RefreshEntries()
      requires VarsValid() && CacheOk(timeCache, seenStates, seenInputs, untimeCache.Keys)
      modifies this`timeCache, this`timeVarMap, this`untimeCache, this`varTimes
      ensures VarsValid() && CacheOk(timeCache, ts.statevars, ts.inputvars, untimeCache.Keys)
      ensures |timeCache| == |old(timeCache)| && old(untimeCache.Keys) <= untimeCache.Keys
    {
      hide VarsOk;
      hide EntryOk;
      var t := 0;
      while t < |timeCache|
        invariant 0 <= t <= |timeCache| == |old(timeCache)| && VarsValid() && old(untimeCache.Keys) <= untimeCache.Keys
        invariant CacheOk(timeCache[..t], ts.statevars, ts.inputvars, untimeCache.Keys)
        invariant forall j | t <= j < |timeCache| :: timeCache[j] == old(timeCache)[j]
      {
        ghost var made := untimeCache.Keys;
        EntryWeakens(timeCache[t], t, seenStates, seenInputs, old(untimeCache.Keys), {}, {}, made);
        var s := AddVariables(timeCache[t], t);
        CacheWeakens(timeCache[..t], ts.statevars, ts.inputvars, made, untimeCache.Keys);
        timeCache := timeCache[t := s];
        t := t + 1;
      }
      assert timeCache[..t] == timeCache;
    }

    lemma EntryAt(cache: seq<Substitution>, states: set<Name>, inputs: set<Name>, made: set<Symbol>, k: nat)
      requires CacheOk(cache, states, inputs, made) && k < |cache|
      ensures EntryOk(cache[k], k, states, inputs, made)
    {
    }

    lemma CountGrows(a: set<Name>, b: set<Name>, c: set<Name>, d: set<Name>)
      requires a <= b && c <= d
      ensures |b| + |d| > |a| + |c| <==> (a != b || c != d)
    {
      assert |b| == |a| + |b - a| by {
        assert b == a + (b - a);
      }
      assert |d| == |c| + |d - c| by {
        assert d == c + (d - c);
      }
      if |b - a| == 0 && |d - c| == 0 {
        assert a == b && c == d;
      }
    }

    function Untime(t: Term): Term
      reads this
    {
      Subst(t, untimeCache)
    }

    /** Unrolls t at step k, whatever variables have joined the system since. */
    method AtTime(t: Term, k: nat) returns (r: Term)
      requires Valid()
      modifies this
      ensures Valid() && old(untimeCache.Keys) <= untimeCache.Keys
      ensures InScope(t, ts.statevars, ts.inputvars) ==>
                && (forall m: Model :: Eval(r, m) == Eval(t, StepAt(m, k)))
                && Untime(r) == Rename(t, Unprime)
                && Symbols(r) == TimedAll(Symbols(t), k) <= varTimes.Keys
    {
      hide VarsValid;
      var cache := VarCacheAtTime(k);
      if t.Sym? && t.x in cache {
        r := cache[t.x];
      } else {
        r := Subst(t, cache);
      }
      if InScope(t, ts.statevars, ts.inputvars) {
        forall m: Model ensures Eval(r, m) == Eval(t, StepAt(m, k)) {
          UnrollMeans(t, cache, ts.statevars, ts.inputvars, k, m);
        }
        forall x | x in Symbols(t) ensures Subst(ApplySub(cache, x), untimeCache) == Sym(Unprime(x)) {
          assert x in cache && TimedOf(x, k) in untimeCache;
          assert untimeCache[TimedOf(x, k)] == Sym(Unprime(x)) by {
            UntimesOne(x, k);
          }
        }
        SubstTwice(t, cache, untimeCache, Unprime);
        SubstSymbols(t, cache, k);
        assert untimeCache.Keys == varTimes.Keys by {
          SameKeys();
        }
      }
    }

    lemma UntimesOne(x: Symbol, k: nat)
      requires VarsValid() && !x.Timed? && TimedOf(x, k) in untimeCache
      ensures untimeCache[TimedOf(x, k)] == Sym(Unprime(x))
    {
    }

    lemma SameKeys()
      requires VarsValid()
      ensures untimeCache.Keys == varTimes.Keys
    {
    }

    /** The least time of a term's variables. Throws on variables never unrolled and on times more
        than one apart; a term without variables is undefined behaviour in the original. */
    method GetCurrTime(t: Term) returns (r: CurrTime)
      requires VarsValid() && Symbols(t) != {}
      ensures r.UnknownVariable? <==> !(Symbols(t) <= varTimes.Keys)
      ensures !r.UnknownVariable? ==> (r.NotUnrolled? <==> exists x, y :: x in Symbols(t) && y in Symbols(t) && x.t > y.t + 1)
      ensures r.Time? ==> (forall x | x in Symbols(t) :: r.k <= x.t) && exists x :: x in Symbols(t) && x.t == r.k
    {
      var ok, times := VarTimes(Symbols(t));
      if !ok {
        return UnknownVariable;
      }
      hide VarsOk;
      assert forall x | x in Symbols(t) :: x.Timed? && x.t in times;
      var min, max := MinMax(times);
      if max - min > 1 {
        ghost var x :| x in Symbols(t) && x.t == max;
        ghost var y :| y in Symbols(t) && y.t == min;
        return NotUnrolled;
      }
      r := Time(min);
    }

    method VarTimes(vars: set<Symbol>) returns (ok: bool, times: set<nat>)
      requires VarsValid()
      ensures ok <==> vars <= varTimes.Keys
      ensures ok ==> (forall x | x in vars :: x.Timed? && x.t in times) && forall n | n in times :: exists x :: x in vars && x.t == n
      ensures ok && vars != {} ==> times != {}
    {
      var todo := vars;
      times := {};
      ghost var done: set<Symbol> := {};
      while todo != {}
        invariant todo <= vars && done == vars - todo && done <= varTimes.Keys
        invariant forall x | x in done :: x.Timed? && x.t in times
        invariant forall n | n in times :: exists x :: x in done && x.t == n
        decreases todo
      {
        var x :| x in todo;
        if x !in varTimes {
          return false, times;
        }
        times := times + {varTimes[x]};
        todo := todo - {x};
        done := done + {x};
      }
      assert done == vars;
      ok := true;
      if vars != {} {
        var x :| x in vars;
        assert x.t in times;
      }
    }
  }

  method MinMax(times: set<nat>) returns (min: nat, max: nat)
    requires times != {}
    ensures min in times && max in times && forall n | n in times :: min <= n <= max
  {
    min :| min in times;
    max := min;
    var rest := times;
    while rest != {}
      invariant rest <= times && min in times && max in times
      invariant min <= max && forall n | n in times && n !in rest :: min <= n <= max
      decreases rest
    {
      var n :| n in rest;
      max := if n > max then n else max;
      min := if n < min then n else min;
      rest := rest - {n};
    }
  }

  /** Of an unrolled term, the current time is k only if the term mentions a current state or an
      input; one over next states alone is reported a step later. */
  lemma CurrTimeOfUnrolled(t: Term, r: Term, k: nat, n: nat)
    requires Symbols(r) == TimedAll(Symbols(t), k) && forall x | x in Symbols(t) :: !x.Timed?
    requires (forall x | x in Symbols(r) :: n <= x.t) && exists x :: x in Symbols(r) && x.t == n
    ensures n == k <==> exists x :: x in Symbols(t) && !x.Next?
    ensures n == k || n == k + 1
  {
  }

  /** untime undoes at_time exactly on the terms without next-state variables. */
  lemma UntimeUndoes(t: Term)
    ensures Rename(t, Unprime) == t <==> forall x | x in Symbols(t) :: !x.Next?
  {
    RenameSame(t, Unprime);
  }
}
