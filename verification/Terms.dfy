/** Solver terms over current, next, input and timed symbols, their value in a model, and
    substitution. */
module Terms {

  /** Names of variables. The others than User are made up by the liveness-to-safety translator
      and the predicate abstractor; make_symbol refuses a name that is taken. */
  datatype Name = User(id: string) | SaveInput | SavedState | LoopOf(v: Name) | JusticeOf(i: nat) | HatOf(v: Name)

  datatype Symbol = Curr(v: Name) | Next(v: Name) | Input(v: Name) | Timed(of: Symbol, t: nat)

  datatype Value = B(b: bool) | N(n: int)

  /** Fun stands for every operator whose meaning does not matter here. */
  datatype Op = Not | And | Or | Implies | Equal | Distinct | Ite | Fun(f: nat)

  datatype Term = Val(v: Value) | Sym(x: Symbol) | App(op: Op, args: seq<Term>)

  /** The meaning of the other operators. */
  type Functions = (nat, seq<Value>) -> Value

  type Substitution = map<Symbol, Term>

  /** A model fixes the symbols and the other operators. */
  datatype Model = Model(sym: Symbol -> Value, fun: Functions)

  const TrueTerm := Val(B(true))
  const FalseTerm := Val(B(false))

  function Arg(vs: seq<Value>, i: nat): Value {
    if i < |vs| then vs[i] else B(false)
  }

  function Apply(op: Op, vs: seq<Value>, fun: Functions): Value {
    match op
    case Not => B(Arg(vs, 0) != B(true))
    case And => B(forall v | v in vs :: v == B(true))
    case Or => B(exists v | v in vs :: v == B(true))
    case Implies => B(Arg(vs, 0) != B(true) || Arg(vs, 1) == B(true))
    case Equal => B(Arg(vs, 0) == Arg(vs, 1))
    case Distinct => B(Arg(vs, 0) != Arg(vs, 1))
    case Ite => if Arg(vs, 0) == B(true) then Arg(vs, 1) else Arg(vs, 2)
    case Fun(f) => fun(f, vs)
  }

  function Eval(t: Term, m: Model): Value
    decreases t, 1
  {
    match t
    case Val(v) => v
    case Sym(x) => m.sym(x)
    case App(op, args) => Apply(op, EvalAll(args, m), m.fun)
  }

  function EvalAll(ts: seq<Term>, m: Model): (vs: seq<Value>)
    ensures |vs| == |ts|
    ensures forall i | 0 <= i < |ts| :: vs[i] == Eval(ts[i], m)
    decreases ts, 0
  {
    if ts == [] then [] else [Eval(ts[0], m)] + EvalAll(ts[1..], m)
  }

  predicate Truth(t: Term, m: Model) {
    Eval(t, m) == B(true)
  }

  // ---------------------------------------------------------------- building terms

  function MkNot(a: Term): Term { App(Not, [a]) }
  function MkAnd(a: Term, b: Term): Term { App(And, [a, b]) }
  function MkOr(a: Term, b: Term): Term { App(Or, [a, b]) }
  function MkEqual(a: Term, b: Term): Term { App(Equal, [a, b]) }
  function MkIte(c: Term, a: Term, b: Term): Term { App(Ite, [c, a, b]) }

  lemma EvalBinary(op: Op, a: Term, b: Term, m: Model)
    ensures Eval(App(op, [a, b]), m) == Apply(op, [Eval(a, m), Eval(b, m)], m.fun)
  {
    assert EvalAll([a, b], m) == [Eval(a, m), Eval(b, m)];
  }

  lemma TruthAnd(a: Term, b: Term, m: Model)
    ensures Truth(MkAnd(a, b), m) <==> Truth(a, m) && Truth(b, m)
  {
    EvalBinary(And, a, b, m);
    var vs := [Eval(a, m), Eval(b, m)];
    assert vs[0] in vs && vs[1] in vs;
  }

  lemma EvalOr(a: Term, b: Term, m: Model)
    ensures Eval(MkOr(a, b), m) == B(Truth(a, m) || Truth(b, m))
  {
    EvalBinary(Or, a, b, m);
    var vs := [Eval(a, m), Eval(b, m)];
    assert vs[0] in vs && vs[1] in vs;
  }

  lemma TruthEqual(a: Term, b: Term, m: Model)
    ensures Truth(MkEqual(a, b), m) <==> Eval(a, m) == Eval(b, m)
  {
  }

  lemma TruthNot(a: Term, m: Model)
    ensures Truth(MkNot(a), m) <==> !Truth(a, m)
  {
  }

  lemma EvalIte(c: Term, a: Term, b: Term, m: Model)
    ensures Eval(MkIte(c, a, b), m) == if Truth(c, m) then Eval(a, m) else Eval(b, m)
  {
  }

  // ---------------------------------------------------------------- free symbols

  function Symbols(t: Term): set<Symbol>
    decreases t, 1
  {
    match t
    case Val(_) => {}
    case Sym(x) => {x}
    case App(_, args) => SymbolsAll(args)
  }

  function SymbolsAll(ts: seq<Term>): (r: set<Symbol>)
    ensures forall i | 0 <= i < |ts| :: Symbols(ts[i]) <= r
    decreases ts, 0
  {
    if ts == [] then {} else
    var r := Symbols(ts[0]) + SymbolsAll(ts[1..]);
    assert forall i | 1 <= i < |ts| :: ts[i] == ts[1..][i - 1];
    r
  }

  /** m and k give the symbols in xs the same values. */
  ghost predicate Agree(m: Model, k: Model, xs: set<Symbol>) {
    m.fun == k.fun && forall x | x in xs :: m.sym(x) == k.sym(x)
  }

  /** A term depends on its free symbols only. */
  lemma {:induction false} EvalAgree(t: Term, m: Model, k: Model)
    requires Agree(m, k, Symbols(t))
    ensures Eval(t, m) == Eval(t, k)
    decreases t, 1
  {
    if t.App? {
      EvalAllAgree(t.args, m, k);
    }
  }

  lemma {:induction false} EvalAllAgree(ts: seq<Term>, m: Model, k: Model)
    requires Agree(m, k, SymbolsAll(ts))
    ensures EvalAll(ts, m) == EvalAll(ts, k)
    decreases ts, 0
  {
    if ts != [] {
      EvalAgree(ts[0], m, k);
      EvalAllAgree(ts[1..], m, k);
    }
  }

  // ---------------------------------------------------------------- substitution

  /** substitute: replaces symbols simultaneously. */
  function Subst(t: Term, s: Substitution): Term
    decreases t, 1
  {
    match t
    case Val(_) => t
    case Sym(x) => if x in s then s[x] else t
    case App(op, args) => App(op, SubstAll(args, s))
  }

  function SubstAll(ts: seq<Term>, s: Substitution): (r: seq<Term>)
    ensures |r| == |ts|
    decreases ts, 0
  {
    if ts == [] then [] else [Subst(ts[0], s)] + SubstAll(ts[1..], s)
  }

  /** The value m gives to what s puts in place of x. */
  function Replaced(s: Substitution, m: Model, x: Symbol): Value {
    if x in s then Eval(s[x], m) else m.sym(x)
  }

  /** A substituted term has in m the value the term has in any model k that assigns each of
      its symbols the value of the replacement. */
  lemma {:induction false} SubstEval(t: Term, s: Substitution, m: Model, k: Model)
    requires k.fun == m.fun && forall x | x in Symbols(t) :: k.sym(x) == Replaced(s, m, x)
    ensures Eval(Subst(t, s), m) == Eval(t, k)
    decreases t, 1
  {
    if t.App? {
      SubstAllEval(t.args, s, m, k);
    }
  }

  lemma {:induction false} SubstAllEval(ts: seq<Term>, s: Substitution, m: Model, k: Model)
    requires k.fun == m.fun && forall x | x in SymbolsAll(ts) :: k.sym(x) == Replaced(s, m, x)
    ensures EvalAll(SubstAll(ts, s), m) == EvalAll(ts, k)
    decreases ts, 0
  {
    if ts != [] {
      SubstEval(ts[0], s, m, k);
      SubstAllEval(ts[1..], s, m, k);
    }
  }
}
