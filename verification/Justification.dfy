/** Justification in IC3SA: which symbols of a term keep its value in the solver's model. The
    worklist is proved to collect what a recursive definition says, and that to suffice. */
module Justification {
  import opened Terms
  import opened TransitionSystems

  type Updates = map<Name, Term>

  // ---------------------------------------------------------------- weights

  /** The size of a term that counts a next-state variable with its update. */
  function Weight(t: Term, u: Updates): (n: nat)
    ensures n >= 1
    decreases |u|, t, 1
  {
    match t
    case Val(_) => 1
    case Sym(x) =>
      if x.Next? && x.v in u then assert |u| > 0; 1 + Weight(u[x.v], map[]) else 1
    case App(_, args) => 1 + TotalWeight(args, u)
  }

  function TotalWeight(ts: seq<Term>, u: Updates): (n: nat)
    ensures ts != [] ==> n >= 1
    decreases |u|, ts, 0
  {
    if ts == [] then 0 else Weight(ts[0], u) + TotalWeight(ts[1..], u)
  }

  lemma {:induction false} TotalWeightSplit(a: seq<Term>, b: seq<Term>, u: Updates)
    ensures TotalWeight(a + b, u) == TotalWeight(a, u) + TotalWeight(b, u)
  {
    if a == [] {
      assert a + b == b;
    } else {
      TotalWeightSplit(a[1..], b, u);
      assert (a + b)[1..] == a[1..] + b;
    }
  }

  lemma {:induction false} WeightOfMember(ts: seq<Term>, u: Updates, t: Term)
    requires t in ts
    ensures Weight(t, u) <= TotalWeight(ts, u)
  {
    if t != ts[0] {
      WeightOfMember(ts[1..], u, t);
    }
  }

  /** Without next-state variables the updates do not matter. */
  lemma {:induction false} WeightNoNext(t: Term, u: Updates)
    requires forall x | x in Symbols(t) :: !x.Next?
    ensures Weight(t, u) == Weight(t, map[])
    decreases t, 1
  {
    if t.App? {
      TotalWeightNoNext(t.args, u);
    }
  }

  lemma {:induction false} TotalWeightNoNext(ts: seq<Term>, u: Updates)
    requires forall x | x in SymbolsAll(ts) :: !x.Next?
    ensures TotalWeight(ts, u) == TotalWeight(ts, map[])
    decreases ts, 0
  {
    if ts != [] {
      WeightNoNext(ts[0], u);
      TotalWeightNoNext(ts[1..], u);
    }
  }

  // ---------------------------------------------------------------- one step

  /** The arity of the operators, and the sort of the arguments of the connectives. */
  ghost predicate WellSorted(t: Term, m: Model)
    decreases t
  {
    t.App? ==>
      && (forall a | a in t.args :: WellSorted(a, m))
      && (t.op.Ite? ==> |t.args| == 3)
      && (t.op.Implies? ==> |t.args| == 2)
      && (t.op.Not? ==> |t.args| == 1)
      && (t.op.Not? || t.op.And? || t.op.Or? || t.op.Implies? ==> forall a | a in t.args :: Eval(a, m).B?)
  }

  predicate IsIte(t: Term) {
    t.App? && t.op.Ite?
  }

  /** is_controlled: one argument alone explains the value. */
  predicate IsControlled(t: Term, m: Model) {
    t.App? && match t.op
              case And => Eval(t, m) != B(true)
              case Or => Eval(t, m) == B(true)
              case Implies => Eval(t, m) == B(true)
              case _ => false
  }

  function SmartNot(t: Term): Term {
    if t.App? && t.op.Not? && |t.args| == 1 then t.args[0] else MkNot(t)
  }

  lemma SmartNotMeans(t: Term, m: Model)
    requires WellSorted(t, m) && Eval(t, m).B?
    ensures Truth(SmartNot(t), m) <==> !Truth(t, m)
    ensures Eval(SmartNot(t), m).B? && WellSorted(SmartNot(t), m)
  {
  }

  /** The arguments among which the controlling one is sought; an implication is rewritten. */
  function Candidates(t: Term): seq<Term>
    requires t.App?
  {
    if t.op.Implies? && |t.args| == 2 then [SmartNot(t.args[0]), t.args[1]] else t.args
  }

  function ControllingValue(t: Term): Value
    requires t.App?
  {
    B(!t.op.And?)
  }

  /** The first argument with the controlling value. */
  function FirstWith(ts: seq<Term>, v: Value, m: Model): Term {
    if ts == [] then TrueTerm
    else if Eval(ts[0], m) == v then ts[0] else FirstWith(ts[1..], v, m)
  }

  lemma {:induction false} FirstWithFound(ts: seq<Term>, v: Value, m: Model, t: Term)
    requires t in ts && Eval(t, m) == v
    ensures FirstWith(ts, v, m) in ts && Eval(FirstWith(ts, v, m), m) == v
  {
    if Eval(ts[0], m) != v {
      FirstWithFound(ts[1..], v, m, t);
    }
  }

  function Controlling(t: Term, m: Model): Term
    requires t.App?
  {
    FirstWith(Candidates(t), ControllingValue(t), m)
  }

  lemma CandidatesSorted(t: Term, m: Model)
    requires WellSorted(t, m) && IsControlled(t, m)
    ensures forall a | a in Candidates(t) :: WellSorted(a, m) && Eval(a, m).B?
    ensures exists a :: a in Candidates(t) && Eval(a, m) == ControllingValue(t)
  {
    if t.op.Implies? {
      assert t.args[0] in t.args && t.args[1] in t.args;
      SmartNotMeans(t.args[0], m);
      var c := Candidates(t);
      assert c[0] == SmartNot(t.args[0]) && c[1] == t.args[1];
      assert c[0] in c && c[1] in c;
      assert Truth(c[0], m) || Truth(c[1], m);
    } else {
      var vs := EvalAll(t.args, m);
      assert forall v | v in vs :: exists i :: 0 <= i < |vs| && vs[i] == v && vs[i] == Eval(t.args[i], m);
    }
  }

  /** The chosen argument has the controlling value, so the debug assertion holds. */
  lemma ControllingFound(t: Term, m: Model)
    requires WellSorted(t, m) && IsControlled(t, m)
    ensures Controlling(t, m) in Candidates(t) && Eval(Controlling(t, m), m) == ControllingValue(t)
    ensures WellSorted(Controlling(t, m), m)
  {
    CandidatesSorted(t, m);
    var a :| a in Candidates(t) && Eval(a, m) == ControllingValue(t);
    FirstWithFound(Candidates(t), ControllingValue(t), m, a);
  }

  /** A controlling argument with its value forces the value of the term in any model. */
  lemma ControllingForces(t: Term, m: Model, k: Model)
    requires WellSorted(t, m) && IsControlled(t, m)
    requires Eval(Controlling(t, m), k) == ControllingValue(t)
    ensures Eval(t, k) == Eval(t, m)
  {
    ControllingFound(t, m);
    var c := Controlling(t, m);
    if t.op.Implies? {
      var a := t.args[0];
      assert EvalAll(t.args, k) == [Eval(a, k), Eval(t.args[1], k)];
      if c == SmartNot(a) && !(a.App? && a.op.Not?) {
        TruthNot(a, k);
      } else if c == SmartNot(a) {
        assert a in t.args;
        assert a == MkNot(a.args[0]);
        TruthNot(a.args[0], k);
      }
    } else {
      var i :| 0 <= i < |t.args| && t.args[i] == c;
      var vs := EvalAll(t.args, k);
      assert vs[i] == ControllingValue(t) && vs[i] in vs;
    }
  }

  // ---------------------------------------------------------------- when one argument is enough

  /** The value of argument i fixes the value of t, whatever the other arguments are. */
  ghost predicate AloneFixes(t: Term, m: Model, i: nat)
    requires t.App? && i < |t.args|
  {
    forall vs: seq<Value> | |vs| == |t.args| && vs[i] == Eval(t.args[i], m) :: Apply(t.op, vs, m.fun) == Eval(t, m)
  }

  /** A connective applied to at least two arguments. */
  ghost predicate IsConnective(t: Term) {
    t.App? && |t.args| > 1 && (t.op.And? || t.op.Or? || t.op.Implies?)
  }

  lemma AloneFixesExact(t: Term, m: Model, i: nat)
    requires WellSorted(t, m) && IsConnective(t) && i < |t.args|
    ensures |Candidates(t)| == |t.args|
    ensures AloneFixes(t, m, i) <==> Eval(Candidates(t)[i], m) == ControllingValue(t)
  {
    var a, now := t.args[i], EvalAll(t.args, m);
    assert a in t.args;
    var decisive := if t.op.And? || (t.op.Implies? && i == 0) then B(false) else B(true);
    assert Eval(Candidates(t)[i], m) == ControllingValue(t) <==> Eval(a, m) == decisive by {
      if t.op.Implies? && i == 0 {
        SmartNotMeans(a, m);
      }
    }
    if Eval(a, m) == decisive {
      forall vs: seq<Value> | |vs| == |t.args| && vs[i] == now[i] ensures Apply(t.op, vs, m.fun) == Apply(t.op, now, m.fun) {
        assert vs[i] in vs && now[i] in now;
      }
    } else {
      TwoOutcomes(t, m, i);
    }
  }

  /** An argument without the decisive value leaves both outcomes open. */
  lemma TwoOutcomes(t: Term, m: Model, i: nat)
    requires WellSorted(t, m) && IsConnective(t) && i < |t.args|
    requires Eval(t.args[i], m) == if t.op.And? || (t.op.Implies? && i == 0) then B(true) else B(false)
    ensures !AloneFixes(t, m, i)
  {
    var n, v, j := |t.args|, Eval(t.args[i], m), if i == 0 then 1 else 0;
    var same := seq(n, k requires 0 <= k < n => v);
    var mixed := same[j := B(!v.b)];
    assert mixed[j] in mixed && same[j] in same;
    if t.op.Implies? {
      same := mixed[j := B(v.b)];
    }
    assert Apply(t.op, same, m.fun) != Apply(t.op, mixed, m.fun);
    assert same[i] == mixed[i] == v;
  }

  /** A connective is taken as controlled exactly when one of its arguments alone fixes its value. */
  lemma ControlledExact(t: Term, m: Model)
    requires WellSorted(t, m) && IsConnective(t)
    ensures IsControlled(t, m) <==> exists i: nat :: i < |t.args| && AloneFixes(t, m, i)
  {
    if i: nat :| i < |t.args| && AloneFixes(t, m, i) {
      AloneFixesExact(t, m, i);
      assert t.args[i] in t.args;
      var vs := EvalAll(t.args, m);
      assert vs[i] in vs;
      if t.op.Implies? && i == 0 {
        SmartNotMeans(t.args[0], m);
      }
    }
    if IsControlled(t, m) {
      CandidatesSorted(t, m);
      var a :| a in Candidates(t) && Eval(a, m) == ControllingValue(t);
      var i: nat :| i < |Candidates(t)| && Candidates(t)[i] == a;
      AloneFixesExact(t, m, i);
    }
  }

  /** What a visit to t pushes on the worklist. */
  function Successors(t: Term, u: Updates, m: Model): seq<Term> {
    match t
    case Val(_) => []
    case Sym(x) => if x.Next? && x.v in u then [u[x.v]] else []
    case App(op, args) =>
      if op.Ite? then (if |args| == 3 then [args[0], if Eval(args[0], m) == B(true) then args[1] else args[2]] else [])
      else if IsControlled(t, m) then [Controlling(t, m)]
      else args
  }

  /** What a visit to t adds to the projection. */
  function Local(t: Term, m: Model): set<Symbol> {
    if IsIte(t) || IsControlled(t, m) then {} else Symbols(t)
  }

  /** The updates are over current states and inputs, and well sorted. */
  ghost predicate GoodUpdates(u: Updates, m: Model) {
    forall v | v in u :: IsNoNext(u[v]) && WellSorted(u[v], m)
  }

  lemma SuccessorsLighter(t: Term, u: Updates, m: Model)
    requires WellSorted(t, m) && GoodUpdates(u, m)
    ensures TotalWeight(Successors(t, u, m), u) < Weight(t, u)
    ensures forall s | s in Successors(t, u, m) :: WellSorted(s, m)
  {
    if t.App? {
      var args := t.args;
      if t.op.Ite? {
        var s := Successors(t, u, m);
        assert args == [args[0], args[1], args[2]];
        assert s[0] == args[0] && args[0] in args && args[1] in args && args[2] in args;
        Weigh3(args, u);
        Weigh2(s, u);
      } else if IsControlled(t, m) {
        ControllingFound(t, m);
        var c := Controlling(t, m);
        assert [c][1..] == [];
        if t.op.Implies? {
          Weigh2(args, u);
          SmartNotLight(args[0], u);
        } else {
          WeightOfMember(args, u, c);
        }
      }
    } else if t.Sym? && t.x.Next? && t.x.v in u {
      WeightNoNext(u[t.x.v], u);
      assert [u[t.x.v]][1..] == [];
    }
  }

  lemma Weigh2(ts: seq<Term>, u: Updates)
    requires |ts| == 2
    ensures TotalWeight(ts, u) == Weight(ts[0], u) + Weight(ts[1], u)
  {
    assert ts[1..] == [ts[1]] && ts[1..][1..] == [];
    assert TotalWeight(ts[1..], u) == Weight(ts[1], u) + TotalWeight([], u);
  }

  lemma Weigh3(ts: seq<Term>, u: Updates)
    requires |ts| == 3
    ensures TotalWeight(ts, u) == Weight(ts[0], u) + Weight(ts[1], u) + Weight(ts[2], u)
  {
    Weigh2(ts[1..], u);
  }

  lemma SmartNotLight(t: Term, u: Updates)
    ensures Weight(SmartNot(t), u) <= 1 + Weight(t, u)
  {
    assert [t][1..] == [];
    assert TotalWeight([t], u) == Weight(t, u);
    if t.App? && t.op.Not? && |t.args| == 1 {
      WeightOfMember(t.args, u, t.args[0]);
    }
  }

  // ---------------------------------------------------------------- the recursive definition

  /** The symbols that justify the value of t in m. */
  ghost function Coi(t: Term, u: Updates, m: Model): set<Symbol>
    requires WellSorted(t, m) && GoodUpdates(u, m)
    decreases Weight(t, u), 1, 0
  {
    SuccessorsLighter(t, u, m);
    Local(t, m) + CoiAll(Successors(t, u, m), u, m)
  }

  ghost function CoiAll(ts: seq<Term>, u: Updates, m: Model): set<Symbol>
    requires GoodUpdates(u, m) && forall t | t in ts :: WellSorted(t, m)
    decreases TotalWeight(ts, u), 2, |ts|
  {
    if ts == [] then {}
    else Coi(ts[0], u, m) + CoiAll(ts[1..], u, m)
  }

  lemma CoiOfOne(t: Term, u: Updates, m: Model)
    requires GoodUpdates(u, m) && WellSorted(t, m)
    ensures CoiAll([t], u, m) == Coi(t, u, m)
  {
    assert [t][1..] == [];
    assert CoiAll([t][1..], u, m) == {};
  }

  lemma {:induction false} FirstIs(ts: seq<Term>, v: Value, m: Model, i: nat)
    requires i < |ts| && Eval(ts[i], m) == v && forall j | 0 <= j < i :: Eval(ts[j], m) != v
    ensures FirstWith(ts, v, m) == ts[i]
  {
    if i > 0 {
      FirstIs(ts[1..], v, m, i - 1);
    }
  }

  /** Where some argument alone fixes a connective, nothing is collected but what justifies the first such
      argument, negated first if it is the premise of an implication. */
  lemma CoiOfControlled(t: Term, u: Updates, m: Model, i: nat)
    requires WellSorted(t, m) && GoodUpdates(u, m) && IsConnective(t) && i < |t.args|
    requires AloneFixes(t, m, i) && forall j: nat | j < i :: !AloneFixes(t, m, j)
    ensures var c := if t.op.Implies? && i == 0 then SmartNot(t.args[0]) else t.args[i];
            WellSorted(c, m) && Coi(t, u, m) == Coi(c, u, m)
  {
    ControlledExact(t, m);
    ControllingFound(t, m);
    AloneFixesExact(t, m, i);
    forall j: nat | j < i ensures Eval(Candidates(t)[j], m) != ControllingValue(t) {
      AloneFixesExact(t, m, j);
    }
    FirstIs(Candidates(t), ControllingValue(t), m, i);
    CoiOfOne(Controlling(t, m), u, m);
  }

  /** Of an if-then-else only the condition and the branch taken are collected. */
  lemma CoiOfIte(t: Term, u: Updates, m: Model)
    requires WellSorted(t, m) && GoodUpdates(u, m) && IsIte(t)
    ensures var branch := if Truth(t.args[0], m) then t.args[1] else t.args[2];
            t.args[0] in t.args && branch in t.args && Coi(t, u, m) == Coi(t.args[0], u, m) + Coi(branch, u, m)
  {
    var a, branch := t.args[0], if Truth(t.args[0], m) then t.args[1] else t.args[2];
    assert a in t.args && branch in t.args;
    var s := Successors(t, u, m);
    assert s == [a, branch] && s[1..] == [branch];
    CoiOfOne(branch, u, m);
    assert CoiAll(s, u, m) == Coi(a, u, m) + CoiAll(s[1..], u, m);
  }

  lemma {:induction false} CoiAllMember(ts: seq<Term>, u: Updates, m: Model, t: Term)
    requires GoodUpdates(u, m) && (forall a | a in ts :: WellSorted(a, m)) && t in ts
    ensures Coi(t, u, m) <= CoiAll(ts, u, m)
  {
    if t != ts[0] {
      CoiAllMember(ts[1..], u, m, t);
    }
  }

  lemma {:induction false} CoiAllWithin(ts: seq<Term>, u: Updates, m: Model, xs: set<Symbol>)
    requires GoodUpdates(u, m) && forall a | a in ts :: WellSorted(a, m)
    requires forall a | a in ts :: Coi(a, u, m) <= xs
    ensures CoiAll(ts, u, m) <= xs
  {
    if ts != [] {
      CoiAllWithin(ts[1..], u, m, xs);
    }
  }

  /** m and k agree on the collected symbols that no update determines. */
  ghost predicate AgreeOn(xs: set<Symbol>, u: Updates, m: Model, k: Model) {
    m.fun == k.fun && forall x | x in xs && !(x.Next? && x.v in u) :: m.sym(x) == k.sym(x)
  }

  /** The collected symbols suffice: any model that agrees on them and obeys the updates gives the
      term the value it has in the solver's model. */
  lemma {:induction false} CoiSuffices(t: Term, u: Updates, m: Model, k: Model)
    requires WellSorted(t, m) && GoodUpdates(u, m) && UpdatesHold(u, m) && UpdatesHold(u, k)
    requires AgreeOn(Coi(t, u, m), u, m, k)
    ensures Eval(t, k) == Eval(t, m)
    decreases Weight(t, u)
  {
    SuccessorsLighter(t, u, m);
    var next := Successors(t, u, m);
    forall s | s in next ensures Eval(s, k) == Eval(s, m) {
      WeightOfMember(next, u, s);
      CoiAllMember(next, u, m, s);
      CoiSuffices(s, u, m, k);
    }
    ValueFromSuccessors(t, u, m, k);
  }

  lemma IteValue(t: Term, m: Model, k: Model)
    requires IsIte(t) && |t.args| == 3 && Eval(t.args[0], m) == Eval(t.args[0], k)
    requires var i := if Eval(t.args[0], m) == B(true) then 1 else 2; Eval(t.args[i], m) == Eval(t.args[i], k)
    ensures Eval(t, k) == Eval(t, m)
  {
  }

  /** The values of the successors determine the value of the term. */
  lemma ValueFromSuccessors(t: Term, u: Updates, m: Model, k: Model)
    requires WellSorted(t, m) && UpdatesHold(u, m) && UpdatesHold(u, k) && m.fun == k.fun
    requires t.Sym? && !(t.x.Next? && t.x.v in u) ==> m.sym(t.x) == k.sym(t.x)
    requires forall s | s in Successors(t, u, m) :: Eval(s, k) == Eval(s, m)
    ensures Eval(t, k) == Eval(t, m)
  {
    var next := Successors(t, u, m);
    match t
    case Val(_) =>
    case Sym(x) =>
      if x.Next? && x.v in u {
        assert next[0] in next;
      }
    case App(op, args) =>
      if op.Ite? {
        assert next[0] in next && next[1] in next;
        IteValue(t, m, k);
      } else if IsControlled(t, m) {
        assert next[0] in next;
        ControllingFound(t, m);
        ControllingForces(t, m, k);
      } else {
        assert next == args;
        assert EvalAll(args, k) == EvalAll(args, m);
      }
  }
}
