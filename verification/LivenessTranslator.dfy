/** The liveness-to-safety translator at work on a symbolic transition system, and the
    proof that the terms it builds mean the semantic instrumentation. */
module LivenessTranslator {
  import opened Terms
  import opened TransitionSystems
  import opened Liveness
  import opened LivenessToSafety

  /** A snapshot of the parts of a transition system that its meaning depends on. */
  datatype Parts = Parts(
    statevars: set<Name>, inputvars: set<Name>, init: Term,
    updates: map<Name, Term>, constraints: seq<Term>, primed: seq<Term>)

  ghost function Snapshot(ts: TransitionSystem): Parts
    reads ts
  {
    Parts(ts.statevars, ts.inputvars, ts.init, ts.updates, ts.constraints, ts.primed)
  }

  // ---------------------------------------------------------------- the terms it adds

  const Save := Sym(Input(SaveInput))
  const Saved := Sym(Curr(SavedState))

  /** saved' = saved \/ save */
  const SavedUpdate := MkOr(Saved, Save)

  /** loop_v' = (save /\ !saved) ? v : loop_v */
  function LoopUpdate(v: Name): Term {
    MkIte(MkAnd(Save, MkNot(Saved)), Sym(Curr(v)), Sym(Curr(LoopOf(v))))
  }

  /** justice_i' = justice_i \/ ((save \/ saved) /\ condition) */
  function JusticeUpdate(i: nat, j: Term): Term {
    MkOr(Sym(Curr(JusticeOf(i))), MkAnd(MkOr(Save, Saved), j))
  }

  function LoopNames(vs: set<Name>): set<Name> {
    set v | v in vs :: LoopOf(v)
  }

  function JusticeNames(n: nat): set<Name> {
    set i: nat | i < n :: JusticeOf(i)
  }

  /** What translation makes of the snapshot p once the oracle, the loop states of the variables
      in done and the first n justice states have been added. */
  ghost predicate Partly(p: Parts, q: Parts, done: set<Name>, justice: seq<Term>, n: nat)
    requires n <= |justice|
  {
    && q.statevars == p.statevars + {SavedState} + LoopNames(done) + JusticeNames(n)
    && q.inputvars == p.inputvars + {SaveInput}
    && q.constraints == p.constraints && q.primed == p.primed
    && UpdatesAre(p, q.updates, done, justice, n)
    && InitIs(p, q.init, n)
  }

  ghost predicate UpdatesAre(p: Parts, updates: map<Name, Term>, done: set<Name>, justice: seq<Term>, n: nat)
    requires n <= |justice|
  {
    && (forall v | v in p.updates :: v in updates && updates[v] == p.updates[v])
    && SavedState in updates && updates[SavedState] == SavedUpdate
    && (forall v | v in done :: LoopOf(v) in updates && updates[LoopOf(v)] == LoopUpdate(v))
    && (forall i | 0 <= i < n :: JusticeOf(i) in updates && updates[JusticeOf(i)] == JusticeUpdate(i, justice[i]))
    && forall v | v in updates ::
         v in p.updates || v == SavedState || (v.LoopOf? && v.v in done) || (v.JusticeOf? && v.i < n)
  }

  ghost predicate InitIs(p: Parts, init: Term, n: nat) {
    forall m: Model :: Truth(init, m) <==>
                       Truth(p.init, m) && m.sym(Curr(SavedState)) == B(false)
                       && forall i: nat | 0 <= i < n :: m.sym(Curr(JusticeOf(i))) == B(false)
  }

  ghost predicate Translated(p: Parts, q: Parts, justice: seq<Term>) {
    Partly(p, q, p.statevars, justice, |justice|)
  }

  /** A bad state: a loop is closed and every justice flag is up. */
  ghost predicate Closed(vs: set<Name>, n: nat, m: Model) {
    && m.sym(Curr(SavedState)) == B(true)
    && (forall v | v in vs :: m.sym(Curr(v)) == m.sym(Curr(LoopOf(v))))
    && forall i | 0 <= i < n :: m.sym(Curr(JusticeOf(i))) == B(true)
  }

  ghost predicate FreshNames(ts: TransitionSystem, justice: seq<Term>)
    reads ts
  {
    && !ts.Known(SaveInput) && !ts.Known(SavedState)
    && (forall v | v in ts.statevars :: !ts.Known(LoopOf(v)))
    && forall i | 0 <= i < |justice| :: !ts.Known(JusticeOf(i))
  }

  // ---------------------------------------------------------------- the translator

  /** Instruments ts in place and returns the safety property. It asks for what the solver and
      assign_next would otherwise throw on: fresh names and conditions without next states. */
  method Translate(ts: TransitionSystem, justice: seq<Term>) returns (prop: Term)
    requires ts.Valid() && FreshNames(ts, justice)
    requires forall j | j in justice :: ts.NoNext(j)
    modifies ts
    ensures ts.Valid() && Translated(old(Snapshot(ts)), Snapshot(ts), justice)
    ensures forall m: Model :: Truth(prop, m) <==> !Closed(old(ts.statevars), |justice|, m)
  {
    hide UpdatesAre;
    hide InitIs;
    hide Shaped;
    hide InitImplies;
    hide Fresh;
    ghost var p := Snapshot(ts);
    var origStatevars := ts.statevars;
    AddOracle(ts, p, justice);
    var loopStates := AddLoopStates(ts, p, origStatevars, justice);
    AddJusticeStates(ts, p, justice);
    prop := BuildProperty(loopStates, |justice|);
    assert Elements(loopStates) == origStatevars;
  }

  /** The names to be made up do not occur in p, and the conditions speak of p only. */
  ghost predicate Fresh(p: Parts, justice: seq<Term>) {
    && SaveInput !in p.statevars + p.inputvars && SavedState !in p.statevars + p.inputvars
    && (forall v | v in p.statevars :: LoopOf(v) !in p.statevars + p.inputvars)
    && (forall i | 0 <= i < |justice| :: JusticeOf(i) !in p.statevars + p.inputvars)
    && (forall v | v in p.updates :: v in p.statevars)
    && forall j | j in justice :: Symbols(j) <= CurrSymbols(p.statevars) + InputSymbols(p.inputvars)
  }

  /** What stays true while the translator adds its variables. */
  ghost predicate Instrumenting(ts: TransitionSystem, p: Parts, done: set<Name>, justice: seq<Term>, n: nat)
    reads ts
    requires n <= |justice|
  {
    ts.Valid() && Partly(p, Snapshot(ts), done, justice, n) && Fresh(p, justice)
  }

  /** The snapshot after one more variable with its update. */
  function WithVariable(q: Parts, v: Name, init: Term, update: Term): Parts {
    q.(statevars := q.statevars + {v}, init := init, updates := q.updates[v := update])
  }

  lemma LoopAdds(p: Parts, q: Parts, done: set<Name>, justice: seq<Term>, v: Name)
    requires Partly(p, q, done, justice, 0) && Fresh(p, justice) && v in p.statevars && v !in done
    ensures LoopOf(v) !in q.statevars + q.inputvars && LoopOf(v) !in q.updates
    ensures Partly(p, WithVariable(q, LoopOf(v), q.init, LoopUpdate(v)), done + {v}, justice, 0)
  {
    assert LoopOf(v) !in p.updates;
    LoopUpdateAdds(p, q.updates, done, justice, v);
    assert LoopNames(done + {v}) == LoopNames(done) + {LoopOf(v)};
    hide InitIs;
    hide UpdatesAre;
    hide LoopUpdate;
  }

  lemma LoopUpdateAdds(p: Parts, updates: map<Name, Term>, done: set<Name>, justice: seq<Term>, v: Name)
    requires UpdatesAre(p, updates, done, justice, 0) && LoopOf(v) !in p.updates && v !in done
    ensures LoopOf(v) !in updates
    ensures UpdatesAre(p, updates[LoopOf(v) := LoopUpdate(v)], done + {v}, justice, 0)
  {
    hide LoopUpdate;
  }

  lemma LoopScope(p: Parts, q: Parts, done: set<Name>, justice: seq<Term>, v: Name)
    requires Partly(p, q, done, justice, 0) && v in p.statevars
    ensures Symbols(LoopUpdate(v)) <= CurrSymbols(q.statevars + {LoopOf(v)}) + InputSymbols(q.inputvars)
  {
    LoopUpdateSymbols(v);
    hide InitIs;
    hide UpdatesAre;
  }

  lemma JusticeAdds(p: Parts, q: Parts, justice: seq<Term>, i: nat, init: Term)
    requires i < |justice| && Partly(p, q, p.statevars, justice, i) && Fresh(p, justice)
    requires init == MkAnd(q.init, MkEqual(Sym(Curr(JusticeOf(i))), FalseTerm))
    ensures JusticeOf(i) !in q.statevars + q.inputvars && JusticeOf(i) !in q.updates
    ensures Partly(p, WithVariable(q, JusticeOf(i), init, JusticeUpdate(i, justice[i])), p.statevars, justice, i + 1)
  {
    InitConjunct(p, q.init, i + 1, JusticeOf(i));
    JusticeUpdateAdds(p, q.updates, justice, i);
    assert JusticeNames(i + 1) == JusticeNames(i) + {JusticeOf(i)};
    hide InitIs;
    hide UpdatesAre;
    hide JusticeUpdate;
  }

  lemma JusticeUpdateAdds(p: Parts, updates: map<Name, Term>, justice: seq<Term>, i: nat)
    requires i < |justice| && UpdatesAre(p, updates, p.statevars, justice, i)
    requires JusticeOf(i) !in p.updates
    ensures JusticeOf(i) !in updates
    ensures UpdatesAre(p, updates[JusticeOf(i) := JusticeUpdate(i, justice[i])], p.statevars, justice, i + 1)
  {
    hide LoopUpdate;
    hide JusticeUpdate;
  }

  lemma JusticeScope(p: Parts, q: Parts, justice: seq<Term>, i: nat)
    requires i < |justice| && Partly(p, q, p.statevars, justice, i) && Fresh(p, justice)
    ensures Symbols(JusticeUpdate(i, justice[i])) <= CurrSymbols(q.statevars + {JusticeOf(i)}) + InputSymbols(q.inputvars)
    ensures Symbols(MkEqual(Sym(Curr(JusticeOf(i))), FalseTerm)) <= CurrSymbols(q.statevars + {JusticeOf(i)})
  {
    hide InitIs;
    hide UpdatesAre;
    JusticeUpdateSymbols(i, justice[i]);
    BinarySymbols(Equal, Sym(Curr(JusticeOf(i))), FalseTerm);
    assert justice[i] in justice;
  }

  lemma BinarySymbols(op: Op, a: Term, b: Term)
    ensures Symbols(App(op, [a, b])) == Symbols(a) + Symbols(b)
  {
    assert [a, b][1..] == [b] && [b][1..] == [];
    assert SymbolsAll([a, b]) == Symbols(a) + SymbolsAll([b]) && SymbolsAll([b]) == Symbols(b) + SymbolsAll([]);
  }

  lemma UnarySymbols(op: Op, a: Term)
    ensures Symbols(App(op, [a])) == Symbols(a)
  {
    assert [a][1..] == [] && SymbolsAll([a]) == Symbols(a) + SymbolsAll([]);
  }

  lemma IteSymbols(c: Term, a: Term, b: Term)
    ensures Symbols(MkIte(c, a, b)) == Symbols(c) + Symbols(a) + Symbols(b)
  {
    assert [c, a, b][1..] == [a, b] && [a, b][1..] == [b] && [b][1..] == [];
    assert SymbolsAll([c, a, b]) == Symbols(c) + SymbolsAll([a, b]);
    assert SymbolsAll([a, b]) == Symbols(a) + SymbolsAll([b]) && SymbolsAll([b]) == Symbols(b) + SymbolsAll([]);
  }

  lemma InitConjunct(p: Parts, init: Term, n: nat, v: Name)
    requires if n == 0 then v == SavedState && init == p.init else v == JusticeOf(n - 1) && InitIs(p, init, n - 1)
    ensures InitIs(p, MkAnd(init, MkEqual(Sym(Curr(v)), FalseTerm)), n)
  {
    forall m: Model
      ensures Truth(MkAnd(init, MkEqual(Sym(Curr(v)), FalseTerm)), m) <==>
              Truth(init, m) && m.sym(Curr(v)) == B(false)
    {
      TruthAnd(init, MkEqual(Sym(Curr(v)), FalseTerm), m);
      TruthEqual(Sym(Curr(v)), FalseTerm, m);
    }
  }

  /** The `save` input and the `saved` state. */
  method AddOracle(ts: TransitionSystem, ghost p: Parts, ghost justice: seq<Term>)
    requires ts.Valid() && FreshNames(ts, justice) && p == Snapshot(ts)
    requires forall j | j in justice :: ts.NoNext(j)
    modifies ts
    ensures Instrumenting(ts, p, {}, justice, 0)
  {
    hide Shaped;
    hide InitImplies;
    hide InitIs;
    hide UpdatesAre;
    hide CurrSymbols;
    hide InputSymbols;
    OracleAdds(p, justice, ts);
    var ok := ts.MakeInputvar(SaveInput);
    ok := ts.MakeStatevar(SavedState);
    ok := ts.ConstrainInit(MkEqual(Saved, FalseTerm));
    ok := ts.AssignNext(SavedState, SavedUpdate);
  }

  lemma OracleAdds(p: Parts, justice: seq<Term>, ts: TransitionSystem)
    requires ts.Valid() && FreshNames(ts, justice) && p == Snapshot(ts)
    requires forall j | j in justice :: ts.NoNext(j)
    ensures Fresh(p, justice) && SavedState !in p.updates
    ensures Symbols(SavedUpdate) <= CurrSymbols(p.statevars + {SavedState}) + InputSymbols(p.inputvars + {SaveInput})
    ensures Symbols(MkEqual(Saved, FalseTerm)) <= CurrSymbols(p.statevars + {SavedState})
    ensures InitIs(p, MkAnd(p.init, MkEqual(Saved, FalseTerm)), 0)
    ensures UpdatesAre(p, p.updates[SavedState := SavedUpdate], {}, justice, 0)
  {
    BinarySymbols(Equal, Saved, FalseTerm);
    BinarySymbols(Or, Saved, Save);
    InitConjunct(p, p.init, 0, SavedState);
  }

  /** One loop state per original variable, in any order; returns the variables paired. */
  method AddLoopStates(ts: TransitionSystem, ghost p: Parts, origStatevars: set<Name>, ghost justice: seq<Term>)
    returns (loopStates: seq<Name>)
    requires Instrumenting(ts, p, {}, justice, 0) && origStatevars == p.statevars
    modifies ts
    ensures Instrumenting(ts, p, p.statevars, justice, 0)
    ensures forall v :: v in loopStates <==> v in p.statevars
  {
    hide Instrumenting;
    var todo := origStatevars;
    assert origStatevars - todo == {};
    loopStates := [];
    while todo != {}
      invariant todo <= origStatevars
      invariant Instrumenting(ts, p, origStatevars - todo, justice, 0)
      invariant forall v :: v in loopStates <==> v in origStatevars - todo
      decreases todo
    {
      var v :| v in todo;
      ghost var done := origStatevars - todo;
      AddLoopState(ts, p, done, justice, v);
      todo := todo - {v};
      assert origStatevars - todo == done + {v};
      loopStates := loopStates + [v];
    }
    assert origStatevars - todo == origStatevars;
  }

  method AddLoopState(ts: TransitionSystem, ghost p: Parts, ghost done: set<Name>, ghost justice: seq<Term>, v: Name)
    requires Instrumenting(ts, p, done, justice, 0) && v in p.statevars && v !in done
    modifies ts
    ensures Instrumenting(ts, p, done + {v}, justice, 0)
  {
    hide Partly;
    hide Fresh;
    hide CurrSymbols;
    hide InputSymbols;
    hide LoopUpdate;
    ghost var q := Snapshot(ts);
    LoopAdds(p, q, done, justice, v);
    LoopScope(p, q, done, justice, v);
    var ok := ts.MakeStatevar(LoopOf(v));
    ok := ts.AssignNext(LoopOf(v), LoopUpdate(v));
    assert Snapshot(ts) == WithVariable(q, LoopOf(v), q.init, LoopUpdate(v));
  }

  lemma LoopUpdateSymbols(v: Name)
    ensures Symbols(LoopUpdate(v)) == {Input(SaveInput), Curr(SavedState), Curr(v), Curr(LoopOf(v))}
  {
    UnarySymbols(Not, Saved);
    BinarySymbols(And, Save, MkNot(Saved));
    IteSymbols(MkAnd(Save, MkNot(Saved)), Sym(Curr(v)), Sym(Curr(LoopOf(v))));
  }

  lemma JusticeUpdateSymbols(i: nat, j: Term)
    ensures Symbols(JusticeUpdate(i, j)) == {Curr(JusticeOf(i)), Input(SaveInput), Curr(SavedState)} + Symbols(j)
  {
    BinarySymbols(Or, Save, Saved);
    BinarySymbols(And, MkOr(Save, Saved), j);
    BinarySymbols(Or, Sym(Curr(JusticeOf(i))), MkAnd(MkOr(Save, Saved), j));
  }

  /** One flag per justice condition. */
  method AddJusticeStates(ts: TransitionSystem, ghost p: Parts, justice: seq<Term>)
    requires Instrumenting(ts, p, p.statevars, justice, 0)
    modifies ts
    ensures Instrumenting(ts, p, p.statevars, justice, |justice|)
  {
    hide Instrumenting;
    var i := 0;
    while i < |justice|
      invariant 0 <= i <= |justice| && Instrumenting(ts, p, p.statevars, justice, i)
    {
      AddJusticeState(ts, p, justice, i);
      i := i + 1;
    }
  }

  method AddJusticeState(ts: TransitionSystem, ghost p: Parts, justice: seq<Term>, i: nat)
    requires i < |justice| && Instrumenting(ts, p, p.statevars, justice, i)
    modifies ts
    ensures Instrumenting(ts, p, p.statevars, justice, i + 1)
  {
    hide Partly;
    hide Fresh;
    hide CurrSymbols;
    hide InputSymbols;
    hide JusticeUpdate;
    ghost var q := Snapshot(ts);
    var initially := MkEqual(Sym(Curr(JusticeOf(i))), FalseTerm);
    JusticeAdds(p, q, justice, i, MkAnd(q.init, initially));
    JusticeScope(p, q, justice, i);
    var ok := ts.MakeStatevar(JusticeOf(i));
    ok := ts.ConstrainInit(initially);
    ok := ts.AssignNext(JusticeOf(i), JusticeUpdate(i, justice[i]));
    assert Snapshot(ts) == WithVariable(q, JusticeOf(i), MkAnd(q.init, initially), JusticeUpdate(i, justice[i]));
  }

  function Elements(s: seq<Name>): set<Name> {
    set v | v in s
  }

  /** not (saved /\ v0 = loop0 /\ ... /\ justice0 /\ ...) */
  method BuildProperty(loopStates: seq<Name>, n: nat) returns (prop: Term)
    ensures forall m: Model :: Truth(prop, m) <==> !Closed(Elements(loopStates), n, m)
  {
    var looped := Saved;
    var k := 0;
    while k < |loopStates|
      invariant 0 <= k <= |loopStates|
      invariant forall m: Model :: Truth(looped, m) <==> Closed(Elements(loopStates[..k]), 0, m)
    {
      var v := loopStates[k];
      ghost var before := looped;
      looped := MkAnd(looped, MkEqual(Sym(Curr(v)), Sym(Curr(LoopOf(v)))));
      forall m: Model ensures Truth(looped, m) <==> Closed(Elements(loopStates[..k + 1]), 0, m) {
        TruthAnd(before, MkEqual(Sym(Curr(v)), Sym(Curr(LoopOf(v)))), m);
        TruthEqual(Sym(Curr(v)), Sym(Curr(LoopOf(v))), m);
        assert loopStates[..k + 1] == loopStates[..k] + [v];
      }
      k := k + 1;
    }
    assert loopStates[..k] == loopStates;
    var bad := looped;
    var i := 0;
    while i < n
      invariant 0 <= i <= n
      invariant forall m: Model :: Truth(bad, m) <==> Closed(Elements(loopStates), i, m)
    {
      ghost var before := bad;
      bad := MkAnd(bad, Sym(Curr(JusticeOf(i))));
      forall m: Model ensures Truth(bad, m) <==> Closed(Elements(loopStates), i + 1, m) {
        TruthAnd(before, Sym(Curr(JusticeOf(i))), m);
      }
      i := i + 1;
    }
    prop := MkNot(bad);
    forall m: Model ensures Truth(prop, m) <==> !Closed(Elements(loopStates), n, m) {
      TruthNot(bad, m);
    }
  }

  // ---------------------------------------------------------------- what the terms mean

  /** A valuation of state variables or of inputs. */
  type Assign = map<Name, Value>

  function Look(a: Assign, v: Name): Value {
    if v in a then a[v] else B(false)
  }

  /** The model of one step from s to t under input i. */
  function StepModel(s: Assign, i: Assign, t: Assign, fun: Functions): Model {
    Model((x: Symbol) => match x
          case Curr(v) => Look(s, v)
          case Next(v) => Look(t, v)
          case Input(v) => Look(i, v)
          case Timed(_, _) => B(false), fun)
  }

  /** The runs and justice conditions of the system p describes. */
  ghost function LiveOf(p: Parts, justice: seq<Term>, fun: Functions): LiveSystem<Assign, Assign> {
    LiveSystem(
      (s: Assign) => s.Keys == p.statevars && Truth(p.init, StepModel(s, map[], s, fun)),
      (s: Assign, i: Assign, t: Assign) =>
        s.Keys == p.statevars && i.Keys == p.inputvars && t.Keys == p.statevars
        && StepHolds(p.updates, p.constraints, p.primed, StepModel(s, i, t, fun)),
      seq(|justice|, k requires 0 <= k < |justice| => (s: Assign, i: Assign) => Truth(justice[k], StepModel(s, i, s, fun))))
  }

  /** All terms of p speak of its own variables. */
  ghost predicate Scoped(p: Parts, justice: seq<Term>) {
    && Fresh(p, justice)
    && Symbols(p.init) <= CurrSymbols(p.statevars)
    && (forall v | v in p.updates :: Symbols(p.updates[v]) <= CurrSymbols(p.statevars) + InputSymbols(p.inputvars))
    && (forall c | c in p.constraints :: Symbols(c) <= CurrSymbols(p.statevars) + InputSymbols(p.inputvars))
    && forall c | c in p.primed :: Symbols(c) <= CurrSymbols(p.statevars)
  }

  function Restrict(a: Assign, vs: set<Name>): Assign {
    map v | v in vs :: Look(a, v)
  }

  /** The instrumented state that a valuation of the translated system encodes. */
  function Decode(p: Parts, n: nat, a: Assign): XState<Assign> {
    XState(Restrict(a, p.statevars), Look(a, SavedState) == B(true),
           map v | v in p.statevars :: Look(a, LoopOf(v)), seq(n, i requires 0 <= i => Look(a, JusticeOf(i)) == B(true)))
  }

  function DecodeInput(p: Parts, a: Assign): XInput<Assign> {
    XInput(Restrict(a, p.inputvars), Look(a, SaveInput) == B(true))
  }

  /** The Boolean variables the translator adds hold Booleans. */
  ghost predicate BooleanFlags(n: nat, a: Assign) {
    Look(a, SavedState).B? && forall i: nat | i < n :: Look(a, JusticeOf(i)).B?
  }

  /** Terms over p's variables do not see the instrumentation. */
  lemma SameForParts(p: Parts, t: Term, s: Assign, i: Assign, n: Assign, fun: Functions)
    requires Symbols(t) <= CurrSymbols(p.statevars) + InputSymbols(p.inputvars)
    ensures Eval(t, StepModel(s, i, n, fun)) ==
            Eval(t, StepModel(Restrict(s, p.statevars), Restrict(i, p.inputvars), Restrict(n, p.statevars), fun))
  {
    EvalAgree(t, StepModel(s, i, n, fun), StepModel(Restrict(s, p.statevars), Restrict(i, p.inputvars), Restrict(n, p.statevars), fun));
  }

  /** The original part of a step of the translated system is a step of the original. */
  lemma OriginalPart(p: Parts, justice: seq<Term>, s: Assign, i: Assign, t: Assign, fun: Functions)
    requires Scoped(p, justice)
    ensures StepHolds(p.updates, p.constraints, p.primed, StepModel(s, i, t, fun)) <==>
            StepHolds(p.updates, p.constraints, p.primed,
                      StepModel(Restrict(s, p.statevars), Restrict(i, p.inputvars), Restrict(t, p.statevars), fun))
  {
    var m := StepModel(s, i, t, fun);
    var k := StepModel(Restrict(s, p.statevars), Restrict(i, p.inputvars), Restrict(t, p.statevars), fun);
    forall v | v in p.updates ensures Eval(p.updates[v], m) == Eval(p.updates[v], k) && m.sym(Next(v)) == k.sym(Next(v)) {
      SameForParts(p, p.updates[v], s, i, t, fun);
    }
    forall c | c in p.constraints ensures Truth(c, m) <==> Truth(c, k) {
      SameForParts(p, c, s, i, t, fun);
    }
    forall c | c in p.primed ensures Truth(Prime(c), m) <==> Truth(Prime(c), k) {
      var now := StepModel(t, map[], t, fun);
      PrimeMeans(c, m, now);
      PrimeMeans(c, k, now);
    }
  }

  /** The updates the translator adds, as conditions on valuations. */
  ghost predicate AddedHold(p: Parts, justice: seq<Term>, s: Assign, i: Assign, t: Assign, fun: Functions) {
    var x, u := Decode(p, |justice|, s), DecodeInput(p, i);
    && Look(t, SavedState) == B(x.saved || u.save)
    && (forall v | v in p.statevars :: Look(t, LoopOf(v)) == if u.save && !x.saved then Look(s, v) else Look(s, LoopOf(v)))
    && forall k | 0 <= k < |justice| :: Look(t, JusticeOf(k)) ==
                                        B(Look(s, JusticeOf(k)) == B(true) || ((u.save || x.saved) && Truth(justice[k], StepModel(s, i, t, fun))))
  }

  lemma LoopUpdateMeans(v: Name, m: Model)
    ensures Eval(LoopUpdate(v), m) ==
            if Truth(Save, m) && !Truth(Saved, m) then m.sym(Curr(v)) else m.sym(Curr(LoopOf(v)))
  {
    EvalIte(MkAnd(Save, MkNot(Saved)), Sym(Curr(v)), Sym(Curr(LoopOf(v))), m);
    TruthAnd(Save, MkNot(Saved), m);
    TruthNot(Saved, m);
  }

  lemma JusticeUpdateMeans(k: nat, j: Term, m: Model)
    ensures Eval(JusticeUpdate(k, j), m) ==
            B(m.sym(Curr(JusticeOf(k))) == B(true) || ((Truth(Save, m) || Truth(Saved, m)) && Truth(j, m)))
  {
    EvalOr(Sym(Curr(JusticeOf(k))), MkAnd(MkOr(Save, Saved), j), m);
    TruthAnd(MkOr(Save, Saved), j, m);
    EvalOr(Save, Saved, m);
  }

  ghost predicate AddedEval(p: Parts, justice: seq<Term>, m: Model) {
    && m.sym(Next(SavedState)) == Eval(SavedUpdate, m)
    && (forall v | v in p.statevars :: m.sym(Next(LoopOf(v))) == Eval(LoopUpdate(v), m))
    && forall k | 0 <= k < |justice| :: m.sym(Next(JusticeOf(k))) == Eval(JusticeUpdate(k, justice[k]), m)
  }

  lemma SplitUpdates(p: Parts, updates: map<Name, Term>, justice: seq<Term>, m: Model)
    requires UpdatesAre(p, updates, p.statevars, justice, |justice|)
    ensures UpdatesHold(updates, m) <==> UpdatesHold(p.updates, m) && AddedEval(p, justice, m)
  {
    hide LoopUpdate;
    hide JusticeUpdate;
    hide Eval;
  }

  lemma AddedMeans(p: Parts, justice: seq<Term>, s: Assign, i: Assign, t: Assign, fun: Functions)
    ensures AddedEval(p, justice, StepModel(s, i, t, fun)) <==> AddedHold(p, justice, s, i, t, fun)
  {
    var m := StepModel(s, i, t, fun);
    assert Truth(Save, m) == (Look(i, SaveInput) == B(true)) && Truth(Saved, m) == (Look(s, SavedState) == B(true));
    EvalOr(Saved, Save, m);
    hide LoopUpdate;
    hide JusticeUpdate;
    hide Eval;
    forall v ensures Eval(LoopUpdate(v), m) ==
                     if Truth(Save, m) && !Truth(Saved, m) then m.sym(Curr(v)) else m.sym(Curr(LoopOf(v)))
    {
      LoopUpdateMeans(v, m);
    }
    forall k: nat | k < |justice| ensures Eval(JusticeUpdate(k, justice[k]), m) ==
                                          B(m.sym(Curr(JusticeOf(k))) == B(true) || ((Truth(Save, m) || Truth(Saved, m)) && Truth(justice[k], m)))
    {
      JusticeUpdateMeans(k, justice[k], m);
    }
  }

  lemma AddedUpdates(p: Parts, q: Parts, justice: seq<Term>, s: Assign, i: Assign, t: Assign, fun: Functions)
    requires Translated(p, q, justice)
    ensures UpdatesHold(q.updates, StepModel(s, i, t, fun)) <==>
            UpdatesHold(p.updates, StepModel(s, i, t, fun)) && AddedHold(p, justice, s, i, t, fun)
  {
    SplitUpdates(p, q.updates, justice, StepModel(s, i, t, fun));
    AddedMeans(p, justice, s, i, t, fun);
  }

  // ---------------------------------------------------------------- exactness on the terms

  /** A run of the translated system q that violates the property translation returned. */
  ghost predicate TermCex(p: Parts, q: Parts, n: nat, fun: Functions, r: Run<Assign, Assign>) {
    && IsRun(LiveOf(q, [], fun), r)
    && ClosedAt(p, n, fun, r.states[|r.inputs|])
  }

  ghost predicate ClosedAt(p: Parts, n: nat, fun: Functions, a: Assign) {
    Closed(p.statevars, n, StepModel(a, map[], a, fun))
  }

  lemma SameMaps(p: Parts, a: Assign, x: Assign, y: Assign)
    requires x.Keys == y.Keys == p.statevars
    ensures x == y <==> forall v | v in p.statevars :: Look(x, v) == Look(y, v)
  {
  }

  lemma DecodeLooks(p: Parts, n: nat, a: Assign)
    ensures Decode(p, n, a).s.Keys == Decode(p, n, a).loop.Keys == p.statevars
    ensures forall v | v in p.statevars :: Look(Decode(p, n, a).s, v) == Look(a, v)
    ensures forall v | v in p.statevars :: Look(Decode(p, n, a).loop, v) == Look(a, LoopOf(v))
    ensures |Decode(p, n, a).just| == n
    ensures forall i | 0 <= i < n :: Decode(p, n, a).just[i] == (Look(a, JusticeOf(i)) == B(true))
  {
  }

  lemma ClosedDecodes(p: Parts, n: nat, fun: Functions, a: Assign)
    ensures ClosedAt(p, n, fun, a) <==> XBad(Decode(p, n, a))
  {
    var x := Decode(p, n, a);
    DecodeLooks(p, n, a);
    SameMaps(p, a, x.s, x.loop);
    var m := StepModel(a, map[], a, fun);
    assert (forall v | v in p.statevars :: m.sym(Curr(v)) == m.sym(Curr(LoopOf(v)))) <==>
           (forall v | v in p.statevars :: Look(x.s, v) == Look(x.loop, v));
    assert (forall i | 0 <= i < n :: m.sym(Curr(JusticeOf(i))) == B(true)) <==> (forall i | 0 <= i < n :: x.just[i]);
    assert x.saved == (Look(a, SavedState) == B(true));
  }

  lemma InitDecodes(p: Parts, q: Parts, justice: seq<Term>, fun: Functions, a: Assign)
    requires Scoped(p, justice) && InitIs(p, q.init, |justice|) && BooleanFlags(|justice|, a)
    ensures Truth(q.init, StepModel(a, map[], a, fun)) <==> XInit(LiveOf(p, justice, fun), Decode(p, |justice|, a))
  {
    var m := StepModel(a, map[], a, fun);
    var x := Decode(p, |justice|, a);
    DecodeLooks(p, |justice|, a);
    assert Truth(p.init, m) <==> LiveOf(p, justice, fun).init(x.s) by {
      EvalAgree(p.init, m, StepModel(x.s, map[], x.s, fun));
    }
    assert (forall i: nat | 0 <= i < |justice| :: m.sym(Curr(JusticeOf(i))) == B(false)) <==>
           (forall i | 0 <= i < |justice| :: !x.just[i]) by {
      assert forall i: nat | i < |justice| :: m.sym(Curr(JusticeOf(i))) == Look(a, JusticeOf(i));
    }
    assert (m.sym(Curr(SavedState)) == B(false)) == !x.saved;
    hide *;
  }
}
