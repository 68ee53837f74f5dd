/** IC3SA works on a relational copy of the functional system it is given. The copy replays the
    recorded constraints, and has the meaning of the original only under a condition. */
module RelationalView {
  import opened Terms
  import opened TransitionSystems

  /** The recorded constraints that the copy adds to Init and, primed, to T. */
  ghost function Flagged(statevars: set<Name>, constraints: seq<Term>, flags: seq<bool>): (r: seq<Term>)
    requires |constraints| == |flags|
    ensures forall c | c in r :: exists i :: 0 <= i < |constraints| && constraints[i] == c && flags[i]
    ensures forall i | 0 <= i < |constraints| && flags[i] && Symbols(constraints[i]) <= CurrSymbols(statevars) :: constraints[i] in r
  {
    if constraints == [] then []
    else
      var n := |constraints| - 1;
      Flagged(statevars, constraints[..n], flags[..n])
      + if flags[n] && Symbols(constraints[n]) <= CurrSymbols(statevars) then [constraints[n]] else []
  }

  /** What the initial states of the copy are. */
  ghost predicate InitWith(init: Term, before: Term, added: seq<Term>) {
    forall m: Model :: Truth(init, m) <==> Truth(before, m) && AllTrue(added, m)
  }

  method Abstract(conc: TransitionSystem) returns (copy: TransitionSystem)
    requires conc.Valid() && conc.inputvars == {}
    ensures fresh(copy) && copy.Valid() && !copy.functional
    ensures copy.statevars == conc.statevars && copy.updates == conc.updates
    ensures copy.constraints == conc.constraints && copy.toInitAndNext == conc.toInitAndNext
    ensures copy.primed == Flagged(conc.statevars, conc.constraints, conc.toInitAndNext)
    ensures InitWith(copy.init, conc.init, copy.primed)
  {
    hide Shaped;
    hide InitImplies;
    copy := CopyVariables(conc);
    var ok := copy.SetInit(conc.init);
    CopyUpdates(conc, copy);
    CopyConstraints(conc, copy);
  }

  method CopyVariables(conc: TransitionSystem) returns (copy: TransitionSystem)
    ensures fresh(copy) && copy.Valid() && !copy.functional && copy.statevars == conc.statevars && copy.inputvars == {}
    ensures copy.updates == map[] && copy.constraints == [] && copy.toInitAndNext == [] && copy.primed == []
  {
    copy := new TransitionSystem(false);
    var todo := conc.statevars;
    while todo != {}
      invariant fresh(copy) && copy.Valid() && todo <= conc.statevars && copy.statevars == conc.statevars - todo
      invariant copy.inputvars == {} && copy.updates == map[] && copy.constraints == [] && copy.toInitAndNext == [] && copy.primed == []
      decreases todo
    {
      var v :| v in todo;
      var ok := copy.MakeStatevar(v);
      todo := todo - {v};
    }
  }

  method CopyUpdates(conc: TransitionSystem, copy: TransitionSystem)
    requires conc != copy && conc.Valid() && copy.Valid() && conc.inputvars == {} == copy.inputvars
    requires copy.statevars == conc.statevars && copy.updates == map[]
    modifies copy
    ensures copy.Valid() && copy.updates == conc.updates
    ensures copy.statevars == conc.statevars && copy.inputvars == {} && copy.init == old(copy.init)
    ensures copy.constraints == old(copy.constraints) && copy.toInitAndNext == old(copy.toInitAndNext) && copy.primed == old(copy.primed)
  {
    var todo := conc.updates.Keys;
    while todo != {}
      invariant copy.Valid() && todo <= conc.updates.Keys
      invariant copy.updates.Keys == conc.updates.Keys - todo && forall v | v in copy.updates :: copy.updates[v] == conc.updates[v]
      invariant copy.statevars == conc.statevars && copy.inputvars == {} && copy.init == old(copy.init)
      invariant copy.constraints == old(copy.constraints) && copy.toInitAndNext == old(copy.toInitAndNext) && copy.primed == old(copy.primed)
      decreases todo
    {
      hide Shaped;
      hide InitImplies;
      var v :| v in todo;
      assert v in conc.updates && copy.NoNext(conc.updates[v]);
      var ok := copy.AssignNext(v, conc.updates[v]);
      todo := todo - {v};
    }
  }

  method CopyConstraints(conc: TransitionSystem, copy: TransitionSystem)
    requires conc != copy && conc.Valid() && copy.Valid() && conc.inputvars == {} == copy.inputvars
    requires copy.statevars == conc.statevars && copy.constraints == [] && copy.toInitAndNext == [] && copy.primed == []
    modifies copy
    ensures copy.Valid() && copy.updates == old(copy.updates) && copy.statevars == conc.statevars
    ensures copy.constraints == conc.constraints && copy.toInitAndNext == conc.toInitAndNext
    ensures copy.primed == Flagged(conc.statevars, conc.constraints, conc.toInitAndNext)
    ensures InitWith(copy.init, old(copy.init), copy.primed)
  {
    hide Shaped;
    hide InitImplies;
    hide Symbols;
    hide CurrSymbols;
    hide InputSymbols;
    hide Flagged;
    hide InitWith;
    var i := 0;
    NoneReplayed(copy, conc.statevars);
    assert conc.constraints[..i] == [] && conc.toInitAndNext[..i] == [];
    while i < |conc.constraints|
      invariant 0 <= i <= |conc.constraints| && copy.Valid()
      invariant copy.updates == old(copy.updates) && copy.statevars == conc.statevars && copy.inputvars == {}
      invariant copy.constraints == conc.constraints[..i] && copy.toInitAndNext == conc.toInitAndNext[..i]
      invariant copy.primed == Flagged(conc.statevars, conc.constraints[..i], conc.toInitAndNext[..i])
      invariant InitWith(copy.init, old(copy.init), copy.primed)
    {
      var c, flag := conc.constraints[i], conc.toInitAndNext[i];
      assert c in conc.constraints;
      CopyConstraint(copy, c, flag, old(copy.init));
      assert conc.constraints[..i + 1] == conc.constraints[..i] + [c];
      assert conc.toInitAndNext[..i + 1] == conc.toInitAndNext[..i] + [flag];
      FlaggedStep(conc.statevars, conc.constraints[..i], conc.toInitAndNext[..i], c, flag);
      i := i + 1;
    }
    assert conc.constraints[..i] == conc.constraints && conc.toInitAndNext[..i] == conc.toInitAndNext;
  }

  lemma NoneReplayed(copy: TransitionSystem, statevars: set<Name>)
    ensures Flagged(statevars, [], []) == [] && InitWith(copy.init, copy.init, [])
  {
  }

  /** One recorded constraint, replayed. first is the copy's Init before the first of them. */
  method CopyConstraint(copy: TransitionSystem, c: Term, flag: bool, ghost first: Term)
    requires copy.Valid() && copy.NoNext(c) && copy.inputvars == {} && InitWith(copy.init, first, copy.primed)
    modifies copy
    ensures copy.Valid() && copy.updates == old(copy.updates) && copy.statevars == old(copy.statevars) && copy.inputvars == {}
    ensures copy.constraints == old(copy.constraints) + [c] && copy.toInitAndNext == old(copy.toInitAndNext) + [flag]
    ensures copy.primed == old(copy.primed) + if flag && Symbols(c) <= CurrSymbols(copy.statevars) then [c] else []
    ensures InitWith(copy.init, first, copy.primed)
  {
    hide Shaped;
    hide InitImplies;
    MoreInit(copy.init, first, copy.primed, c);
    hide InitWith;
    var ok := copy.AddConstraint(c, flag);
  }

  lemma FlaggedStep(statevars: set<Name>, constraints: seq<Term>, flags: seq<bool>, c: Term, flag: bool)
    requires |constraints| == |flags|
    ensures Flagged(statevars, constraints + [c], flags + [flag]) ==
            Flagged(statevars, constraints, flags) + if flag && Symbols(c) <= CurrSymbols(statevars) then [c] else []
  {
    assert (constraints + [c])[..|constraints|] == constraints && (flags + [flag])[..|flags|] == flags;
  }

  lemma MoreInit(init: Term, before: Term, added: seq<Term>, c: Term)
    requires InitWith(init, before, added)
    ensures InitWith(MkAnd(init, c), before, added + [c])
  {
    forall m: Model ensures Truth(MkAnd(init, c), m) <==> Truth(before, m) && AllTrue(added + [c], m) {
      TruthAnd(init, c, m);
    }
  }

  /** Init implies c and T implies its next-state copy. */
  ghost predicate Implied(ts: TransitionSystem, c: Term)
    reads ts
  {
    forall m: Model :: (Truth(ts.init, m) ==> Truth(c, m)) && (Truth(ts.trans, m) ==> Truth(Prime(c), m))
  }

  ghost predicate SameSystem(a: TransitionSystem, b: TransitionSystem)
    reads a, b
  {
    forall m: Model :: (Truth(a.init, m) <==> Truth(b.init, m)) && (Truth(a.trans, m) <==> Truth(b.trans, m))
  }

  /** The copy means what the original means exactly when the original's Init and T already imply
      every state-only constraint that is recorded as extending to them. */
  lemma CopyExact(conc: TransitionSystem, copy: TransitionSystem)
    requires conc.Valid() && copy.Valid() && copy.statevars == conc.statevars
    requires copy.updates == conc.updates && copy.constraints == conc.constraints
    requires copy.primed == Flagged(conc.statevars, conc.constraints, conc.toInitAndNext)
    requires InitWith(copy.init, conc.init, copy.primed)
    ensures SameSystem(conc, copy) <==> forall c | c in copy.primed :: Implied(conc, c)
  {
    hide Truth;
    hide UpdatesHold;
  }

  /** It does whenever each such constraint was indeed added to them. Every operation of a transition
      system keeps that but constrain_inputs, which breaks it exactly for a state-only constraint
      that was not added before. */
  lemma ReplayableCopyExact(conc: TransitionSystem, copy: TransitionSystem)
    requires conc.Valid() && copy.Valid() && copy.statevars == conc.statevars && conc.Replayable()
    requires copy.updates == conc.updates && copy.constraints == conc.constraints
    requires copy.primed == Flagged(conc.statevars, conc.constraints, conc.toInitAndNext)
    requires InitWith(copy.init, conc.init, copy.primed)
    ensures SameSystem(conc, copy)
  {
    FlaggedOnlyCurr(conc.statevars, conc.constraints, conc.toInitAndNext);
    forall c | c in copy.primed ensures Implied(conc, c) {
      assert c in conc.primed;
      PrimedIsImplied(conc, c);
    }
    CopyExact(conc, copy);
    hide SameSystem;
    hide Implied;
  }

  lemma {:induction false} FlaggedOnlyCurr(statevars: set<Name>, constraints: seq<Term>, flags: seq<bool>)
    requires |constraints| == |flags|
    ensures forall c | c in Flagged(statevars, constraints, flags) ::
              Symbols(c) <= CurrSymbols(statevars) && exists i :: 0 <= i < |constraints| && constraints[i] == c && flags[i]
  {
    if constraints != [] {
      FlaggedOnlyCurr(statevars, constraints[..|constraints| - 1], flags[..|constraints| - 1]);
    }
  }

  lemma PrimedIsImplied(ts: TransitionSystem, c: Term)
    requires ts.Valid() && c in ts.primed
    ensures Implied(ts, c)
  {
  }

  /** constrain_inputs records a state-only constraint as if it extended to Init and the next state,
      although it is added to T alone: the copy of such a system loses initial states. */
  method LostInitialState() returns (conc: TransitionSystem, copy: TransitionSystem, ghost m: Model)
    ensures conc.Valid() && copy.Valid() && !SameSystem(conc, copy)
    ensures Truth(conc.init, m) && !Truth(copy.init, m)
  {
    hide Shaped;
    hide InitImplies;
    hide InitWith;
    hide Flagged;
    var x := User("x");
    conc := new TransitionSystem(true);
    var ok := conc.MakeStatevar(x);
    ok := conc.ConstrainInputs(Sym(Curr(x)));
    copy := Abstract(conc);
    m := Model((s: Symbol) => B(false), (f: nat, vs: seq<Value>) => B(false));
    assert Truth(conc.init, m);
    OneFlagged(conc.statevars, Sym(Curr(x)));
    assert !Truth(Sym(Curr(x)), m);
    assert !Truth(copy.init, m) by {
      InitLoses(copy.init, conc.init, copy.primed, Sym(Curr(x)), m);
    }
  }

  lemma OneFlagged(statevars: set<Name>, c: Term)
    requires Symbols(c) <= CurrSymbols(statevars)
    ensures Flagged(statevars, [c], [true]) == [c]
  {
    assert [c][..0] == [] && [true][..0] == [];
  }

  lemma InitLoses(init: Term, before: Term, added: seq<Term>, c: Term, m: Model)
    requires InitWith(init, before, added) && c in added && !Truth(c, m)
    ensures !Truth(init, m)
  {
  }
}
