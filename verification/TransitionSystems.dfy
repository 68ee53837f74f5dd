/** Symbolic transition systems and the operations that build them. Whatever the order of
    the calls, T is the conjunction of the state updates, the constraints, and the
    next-state copies of some state-only constraints that Init implies as well. */
module TransitionSystems {
  import opened Terms

  function CurrSymbols(vs: set<Name>): set<Symbol> {
    set v | v in vs :: Curr(v)
  }

  function InputSymbols(vs: set<Name>): set<Symbol> {
    set v | v in vs :: Input(v)
  }

  /** substitute(t, next_map_) */
  function Prime(t: Term): Term {
    Subst(t, map x | x in Symbols(t) && x.Curr? :: Sym(Next(x.v)))
  }

  predicate IsCurrOnly(t: Term) {
    forall x | x in Symbols(t) :: x.Curr?
  }

  predicate IsNoNext(t: Term) {
    forall x | x in Symbols(t) :: x.Curr? || x.Input?
  }

  // ---------------------------------------------------------------- the parts of T

  ghost predicate UpdatesHold(updates: map<Name, Term>, m: Model) {
    forall v | v in updates :: m.sym(Next(v)) == Eval(updates[v], m)
  }

  ghost predicate AllTrue(ts: seq<Term>, m: Model) {
    forall t | t in ts :: Truth(t, m)
  }

  ghost predicate AllPrimedTrue(ts: seq<Term>, m: Model) {
    forall t | t in ts :: Truth(Prime(t), m)
  }

  /** What T demands of a step: the updates U, the constraints C on the current state and
      inputs, and the constraints D on the next state. */
  ghost predicate StepHolds(updates: map<Name, Term>, constraints: seq<Term>, primed: seq<Term>, m: Model) {
    UpdatesHold(updates, m) && AllTrue(constraints, m) && AllPrimedTrue(primed, m)
  }

  /** m and k describe the same current state and inputs. */
  ghost predicate SameNow(m: Model, k: Model) {
    m.fun == k.fun && forall x: Symbol | x.Curr? || x.Input? :: m.sym(x) == k.sym(x)
  }

  /** A variable without update is free in the next state but for D: the target of a step may
      be exchanged for any other that agrees on the updated variables and satisfies D. */
  lemma FreeNextTarget(updates: map<Name, Term>, constraints: seq<Term>, primed: seq<Term>, m: Model, k: Model)
    requires forall v | v in updates :: IsNoNext(updates[v])
    requires forall c | c in constraints :: IsNoNext(c)
    requires StepHolds(updates, constraints, primed, m) && SameNow(m, k)
    requires forall v | v in updates :: k.sym(Next(v)) == m.sym(Next(v))
    requires AllPrimedTrue(primed, k)
    ensures StepHolds(updates, constraints, primed, k)
  {
    forall v | v in updates ensures k.sym(Next(v)) == Eval(updates[v], k) {
      EvalAgree(updates[v], m, k);
    }
    forall c | c in constraints ensures Truth(c, k) {
      EvalAgree(c, m, k);
    }
  }

  /** The primed copy of a state-only term says of the next state what the term says of the
      current one. */
  lemma PrimeMeans(t: Term, m: Model, k: Model)
    requires IsCurrOnly(t) && m.fun == k.fun
    requires forall x | x in Symbols(t) :: k.sym(x) == m.sym(Next(x.v))
    ensures Truth(Prime(t), m) <==> Truth(t, k)
  {
    SubstEval(t, map x | x in Symbols(t) && x.Curr? :: Sym(Next(x.v)), m, k);
  }

  /** T is exactly the conjunction of its recorded parts. */
  ghost predicate Shaped(trans: Term, updates: map<Name, Term>, constraints: seq<Term>, primed: seq<Term>) {
    forall m: Model :: Truth(trans, m) <==> StepHolds(updates, constraints, primed, m)
  }

  ghost predicate InitImplies(init: Term, primed: seq<Term>) {
    forall m: Model | Truth(init, m) :: AllTrue(primed, m)
  }

  lemma WithUpdate(trans: Term, updates: map<Name, Term>, constraints: seq<Term>, primed: seq<Term>, v: Name, val: Term)
    requires Shaped(trans, updates, constraints, primed) && v !in updates
    ensures Shaped(MkAnd(trans, MkEqual(Sym(Next(v)), val)), updates[v := val], constraints, primed)
  {
    var after := updates[v := val];
    assert forall w | w in updates :: w in after && after[w] == updates[w];
    forall m: Model
      ensures Truth(MkAnd(trans, MkEqual(Sym(Next(v)), val)), m) <==> StepHolds(after, constraints, primed, m)
    {
      TruthAnd(trans, MkEqual(Sym(Next(v)), val), m);
      TruthEqual(Sym(Next(v)), val, m);
    }
  }

  lemma WithConstraint(trans: Term, updates: map<Name, Term>, constraints: seq<Term>, primed: seq<Term>, c: Term)
    requires Shaped(trans, updates, constraints, primed)
    ensures Shaped(MkAnd(trans, c), updates, constraints + [c], primed)
  {
    forall m: Model ensures Truth(MkAnd(trans, c), m) <==> StepHolds(updates, constraints + [c], primed, m) {
      TruthAnd(trans, c, m);
    }
  }

  lemma WithPrimed(trans: Term, updates: map<Name, Term>, constraints: seq<Term>, primed: seq<Term>, c: Term)
    requires Shaped(trans, updates, constraints, primed)
    ensures Shaped(MkAnd(trans, Prime(c)), updates, constraints, primed + [c])
  {
    forall m: Model ensures Truth(MkAnd(trans, Prime(c)), m) <==> StepHolds(updates, constraints, primed + [c], m) {
      TruthAnd(trans, Prime(c), m);
    }
  }

  lemma WithConstraintAndNext(trans: Term, updates: map<Name, Term>, constraints: seq<Term>, primed: seq<Term>, c: Term)
    requires Shaped(trans, updates, constraints, primed)
    ensures Shaped(MkAnd(MkAnd(trans, c), Prime(c)), updates, constraints + [c], primed + [c])
  {
    hide Shaped;
    WithConstraint(trans, updates, constraints, primed, c);
    WithPrimed(MkAnd(trans, c), updates, constraints + [c], primed, c);
  }

  lemma WithInit(init: Term, primed: seq<Term>, c: Term)
    requires InitImplies(init, primed)
    ensures InitImplies(MkAnd(init, c), primed + [c]) && InitImplies(MkAnd(init, c), primed)
  {
    forall m: Model | Truth(MkAnd(init, c), m) ensures AllTrue(primed + [c], m) {
      TruthAnd(init, c, m);
    }
  }

  // ---------------------------------------------------------------- the class

  class TransitionSystem {
    var statevars: set<Name>
    var inputvars: set<Name>
    var init: Term
    var trans: Term
    var updates: map<Name, Term>
    var noUpdates: set<Name>
    var constraints: seq<Term>
    /** Recorded with each constraint: whether it goes to Init and, primed, to T. */
    var toInitAndNext: seq<bool>
    const functional: bool
    var deterministic: bool
    /** The constraints whose next-state copy was added to T. */
    ghost var primed: seq<Term>

    predicate OnlyCurr(t: Term)
      reads this
    {
      Symbols(t) <= CurrSymbols(statevars)
    }

    predicate NoNext(t: Term)
      reads this
    {
      Symbols(t) <= CurrSymbols(statevars) + InputSymbols(inputvars)
    }

    predicate Known(v: Name)
      reads this
    {
      v in statevars || v in inputvars
    }

    ghost predicate Valid()
      reads this
    {
      && (forall v | v in updates :: v in statevars && NoNext(updates[v]))
      && noUpdates == statevars - updates.Keys
      && (forall c | c in constraints :: NoNext(c)) && |toInitAndNext| == |constraints|
      && (forall p | p in primed :: OnlyCurr(p) && exists i :: 0 <= i < |constraints| && constraints[i] == p && toInitAndNext[i])
      && OnlyCurr(init)
      && Shaped(trans, updates, constraints, primed)
      && InitImplies(init, primed)
      && (deterministic ==> functional && constraints == [] && noUpdates == {})
    }

    /** Every state-only constraint recorded as extending to Init and the next state does so. */
    ghost predicate Replayable()
      reads this
    {
      forall i | 0 <= i < |constraints| && i < |toInitAndNext| && toInitAndNext[i] && OnlyCurr(constraints[i]) :: constraints[i] in primed
    }

    constructor (functional: bool)
      ensures Valid() && Replayable() && statevars == {} && inputvars == {}
      ensures init == TrueTerm && trans == TrueTerm && this.functional == functional
      ensures updates == map[] && constraints == [] && toInitAndNext == [] && primed == []
    {
      this.functional := functional;
      statevars, inputvars, init, trans := {}, {}, TrueTerm, TrueTerm;
      updates, noUpdates, constraints, toInitAndNext, primed := map[], {}, [], [], [];
      deterministic := false;
    }

    /** Throws when the name is taken: ok is false then, but the deterministic flag is gone. */
    method MakeStatevar(v: Name) returns (ok: bool)
      requires Valid()
      modifies this
      ensures Valid() && ok == !old(Known(v)) && !deterministic
      ensures statevars == if ok then old(statevars) + {v} else old(statevars)
      ensures noUpdates == if ok then old(noUpdates) + {v} else old(noUpdates)
      ensures inputvars == old(inputvars) && init == old(init) && trans == old(trans)
      ensures updates == old(updates) && constraints == old(constraints) && primed == old(primed)
      ensures toInitAndNext == old(toInitAndNext)
      ensures old(Replayable()) ==> Replayable()
    {
      hide Shaped;
      hide InitImplies;
      deterministic := false;
      if Known(v) {
        return false;
      }
      ghost var known, inputs := statevars, inputvars;
      statevars := statevars + {v};
      noUpdates := noUpdates + {v};
      assert CurrSymbols(known) <= CurrSymbols(statevars);
      forall c | c in constraints && OnlyCurr(c) ensures Symbols(c) <= CurrSymbols(known) {
        assert Symbols(c) <= CurrSymbols(known) + InputSymbols(inputs);
      }
      ok := true;
    }

    method MakeInputvar(v: Name) returns (ok: bool)
      requires Valid()
      modifies this
      ensures Valid() && ok == !old(Known(v))
      ensures inputvars == if ok then old(inputvars) + {v} else old(inputvars)
      ensures statevars == old(statevars) && init == old(init) && trans == old(trans) && noUpdates == old(noUpdates)
      ensures updates == old(updates) && constraints == old(constraints) && primed == old(primed)
      ensures toInitAndNext == old(toInitAndNext)
      ensures deterministic == old(deterministic)
      ensures old(Replayable()) ==> Replayable()
    {
      hide Shaped;
      hide InitImplies;
      if Known(v) {
        return false;
      }
      inputvars := inputvars + {v};
      assert InputSymbols(old(inputvars)) <= InputSymbols(inputvars);
      ok := true;
    }

    /** Replaces Init. What constraints had added to it is lost. */
    method SetInit(t: Term) returns (ok: bool)
      requires Valid()
      modifies this`init
      ensures ok == OnlyCurr(t) && init == if ok then t else old(init)
      ensures primed == [] || !ok ==> Valid()
      ensures old(Replayable()) ==> Replayable()
    {
      hide Shaped;
      ok := OnlyCurr(t);
      if ok {
        init := t;
      }
    }

    method ConstrainInit(c: Term) returns (ok: bool)
      requires Valid()
      modifies this`init
      ensures Valid() && ok == OnlyCurr(c)
      ensures init == if ok then MkAnd(old(init), c) else old(init)
      ensures old(Replayable()) ==> Replayable()
    {
      hide Shaped;
      hide InitImplies;
      if !OnlyCurr(c) {
        return false;
      }
      AndSymbols(init, c);
      WithInit(init, primed, c);
      hide MkAnd;
      hide Symbols;
      hide CurrSymbols;
      hide InputSymbols;
      init := MkAnd(init, c);
      assert OnlyCurr(init);
      ok := true;
    }

    /** state' = val; throws for unknown variables, next-state symbols in val, and a second
        update of the same variable. */
    method AssignNext(v: Name, val: Term) returns (ok: bool)
      requires Valid()
      modifies this
      ensures Valid() && ok == (v in statevars && NoNext(val) && v !in old(updates))
      ensures updates == if ok then old(updates)[v := val] else old(updates)
      ensures trans == if ok then MkAnd(old(trans), MkEqual(Sym(Next(v)), val)) else old(trans)
      ensures noUpdates == if ok then old(noUpdates) - {v} else old(noUpdates)
      ensures deterministic == if ok && functional && constraints == [] then updates.Keys == statevars else old(deterministic)
      ensures statevars == old(statevars) && inputvars == old(inputvars) && init == old(init)
      ensures constraints == old(constraints) && primed == old(primed) && toInitAndNext == old(toInitAndNext)
      ensures old(Replayable()) ==> Replayable()
    {
      hide Shaped;
      hide InitImplies;
      hide CurrSymbols;
      hide InputSymbols;
      hide Symbols;
      hide Prime;
      if v !in statevars || !NoNext(val) || v in updates {
        return false;
      }
      ghost var before := updates;
      updates := updates[v := val];
      noUpdates := noUpdates - {v};
      trans := MkAnd(trans, MkEqual(Sym(Next(v)), val));
      if functional && constraints == [] {
        deterministic := updates.Keys == statevars;
      }
      WithUpdate(old(trans), before, constraints, primed, v, val);
      ok := true;
    }

    /** The common part: c joins T, and with nextToo also Init and, primed, T. */
    method Conjoin(c: Term, nextToo: bool, flag: bool)
      requires Valid() && NoNext(c) && (nextToo ==> OnlyCurr(c) && flag)
      modifies this
      ensures Valid() && !deterministic
      ensures constraints == old(constraints) + [c] && toInitAndNext == old(toInitAndNext) + [flag]
      ensures primed == if nextToo then old(primed) + [c] else old(primed)
      ensures init == if nextToo then MkAnd(old(init), c) else old(init)
      ensures statevars == old(statevars) && inputvars == old(inputvars)
      ensures updates == old(updates) && noUpdates == old(noUpdates)
      ensures old(Replayable()) && (flag && OnlyCurr(c) ==> nextToo) ==> Replayable()
      ensures !nextToo ==> (Replayable() <==> old(Replayable()) && (flag && OnlyCurr(c) ==> c in primed))
    {
      hide Shaped;
      hide InitImplies;
      hide CurrSymbols;
      hide InputSymbols;
      hide Symbols;
      hide Prime;
      WithConstraint(trans, updates, constraints, primed, c);
      WithConstraintAndNext(trans, updates, constraints, primed, c);
      WithInit(init, primed, c);
      AndSymbols(init, c);
      hide MkAnd;
      deterministic := false;
      trans := MkAnd(trans, c);
      ghost var before, flags := constraints, toInitAndNext;
      constraints, toInitAndNext := constraints + [c], toInitAndNext + [flag];
      assert constraints[|before|] == c && toInitAndNext[|before|] == flag;
      assert forall i | 0 <= i < |before| :: constraints[i] == before[i] && toInitAndNext[i] == flags[i];
      if nextToo {
        init := MkAnd(init, c);
        trans := MkAnd(trans, Prime(c));
        primed := primed + [c];
      }
    }

    /** Throws on anything but a state-only term, but clears the deterministic flag first. */
    method AddInvar(c: Term) returns (ok: bool)
      requires Valid()
      modifies this
      ensures Valid() && !deterministic && ok == old(OnlyCurr(c))
      ensures ok ==> constraints == old(constraints) + [c] && toInitAndNext == old(toInitAndNext) + [true] && primed == old(primed) + [c]
      ensures !ok ==> constraints == old(constraints) && primed == old(primed) && trans == old(trans) && init == old(init)
      ensures updates == old(updates) && statevars == old(statevars) && inputvars == old(inputvars)
      ensures old(Replayable()) ==> Replayable()
    {
      hide Shaped;
      hide InitImplies;
      deterministic := false;
      ok := OnlyCurr(c);
      if ok {
        Conjoin(c, true, true);
      }
    }

    /** A constraint over states and inputs. Even a state-only one gets no next-state copy here. */
    method ConstrainInputs(c: Term) returns (ok: bool)
      requires Valid()
      modifies this
      ensures Valid() && !deterministic && ok == old(NoNext(c))
      ensures ok ==> constraints == old(constraints) + [c] && toInitAndNext == old(toInitAndNext) + [true]
      ensures !ok ==> constraints == old(constraints) && trans == old(trans)
      ensures primed == old(primed) && init == old(init) && updates == old(updates)
      ensures statevars == old(statevars) && inputvars == old(inputvars)
      ensures Replayable() <==> old(Replayable()) && (ok && OnlyCurr(c) ==> c in primed)
    {
      hide Shaped;
      hide InitImplies;
      deterministic := false;
      ok := NoNext(c);
      if ok {
        Conjoin(c, false, true);
      }
    }

    method AddConstraint(c: Term, flag: bool) returns (ok: bool)
      requires Valid()
      modifies this
      ensures Valid() && !deterministic && ok == old(NoNext(c))
      ensures ok ==> constraints == old(constraints) + [c] && toInitAndNext == old(toInitAndNext) + [flag]
      ensures primed == if old(OnlyCurr(c)) && flag then old(primed) + [c] else old(primed)
      ensures init == if old(OnlyCurr(c)) && flag then MkAnd(old(init), c) else old(init)
      ensures !ok ==> constraints == old(constraints) && toInitAndNext == old(toInitAndNext) && trans == old(trans)
      ensures updates == old(updates) && statevars == old(statevars) && inputvars == old(inputvars)
      ensures old(Replayable()) ==> Replayable()
    {
      hide Shaped;
      hide InitImplies;
      deterministic := false;
      ok := NoNext(c);
      if OnlyCurr(c) {
        Conjoin(c, flag, flag);
      } else if ok {
        Conjoin(c, false, flag);
      }
    }

    lemma AndSymbols(a: Term, b: Term)
      ensures Symbols(MkAnd(a, b)) == Symbols(a) + Symbols(b)
    {
      assert [a, b][1..] == [b] && [b][1..] == [];
      assert SymbolsAll([a, b]) == Symbols(a) + SymbolsAll([b]) && SymbolsAll([b]) == Symbols(b) + SymbolsAll([]);
    }
  }
}
