/** Syntax-guided abstraction in IC3SA: the worklist of the justification, and the cube that
    expresses the partition of the terms the model induces. */
module IC3SA {
  import opened Terms
  import opened TransitionSystems
  import opened Justification

  /** For one sort: the terms that have a value in the model. */
  type Classes = map<Value, set<Term>>

  /** A conjunction of literals. */
  ghost predicate Holds(cube: set<Term>, k: Model) {
    forall l | l in cube :: Truth(l, k)
  }

  predicate InProjection(t: Term, keep: set<Symbol>) {
    Symbols(t) <= keep
  }

  // ---------------------------------------------------------------- justification

  /** Once the worklist is empty the visited terms are closed, and all they need is collected. */
  lemma {:induction false} ClosedCollects(visited: set<Term>, u: Updates, m: Model, p: set<Symbol>, t: Term)
    requires GoodUpdates(u, m) && t in visited
    requires forall s | s in visited :: WellSorted(s, m) && Local(s, m) <= p
    requires forall s, r | s in visited && r in Successors(s, u, m) :: r in visited
    ensures Coi(t, u, m) <= p
    decreases Weight(t, u)
  {
    SuccessorsLighter(t, u, m);
    var next := Successors(t, u, m);
    forall r | r in next ensures Coi(r, u, m) <= p {
      WeightOfMember(next, u, r);
      ClosedCollects(visited, u, m, p, r);
    }
    CoiAllWithin(next, u, m, p);
  }

  lemma SuccessorsCoi(t: Term, u: Updates, m: Model, r: Term)
    requires WellSorted(t, m) && GoodUpdates(u, m) && r in Successors(t, u, m)
    ensures WellSorted(r, m) && Coi(r, u, m) <= Coi(t, u, m)
  {
    SuccessorsLighter(t, u, m);
    CoiAllMember(Successors(t, u, m), u, m, r);
  }

  /** get_controlling: the first argument whose value controls the term. */
  method GetControlling(t: Term, m: Model) returns (r: Term)
    requires WellSorted(t, m) && IsControlled(t, m)
    ensures r == Controlling(t, m)
  {
    var args := Candidates(t);
    var value := ControllingValue(t);
    ControllingFound(t, m);
    var i := 0;
    while Eval(args[i], m) != value
      invariant 0 <= i < |args| && FirstWith(args[i..], value, m) == FirstWith(args, value, m)
      invariant exists j :: i <= j < |args| && Eval(args[j], m) == value
      decreases |args| - i
    {
      assert args[i..][1..] == args[i + 1..];
      i := i + 1;
    }
    r := args[i];
  }

  /** What a visit to t calls for has been visited or waits. */
  ghost predicate Handled(t: Term, toVisit: seq<Term>, visited: set<Term>, u: Updates, m: Model) {
    forall r | r in Successors(t, u, m) :: r in visited || r in toVisit
  }

  lemma HandledStep(t: Term, rest: seq<Term>, c: Term, next: seq<Term>, visited: set<Term>, u: Updates, m: Model)
    ensures Handled(t, rest + [c], visited, u, m) ==> Handled(t, rest + next, visited + {c}, u, m)
  {
    hide Successors;
  }

  /** All that is still needed is in reach of the worklist, and nothing else was collected. */
  ghost predicate Pending(term: Term, toVisit: seq<Term>, visited: set<Term>, from: set<Symbol>, p: set<Symbol>, u: Updates, m: Model)
    requires WellSorted(term, m) && GoodUpdates(u, m)
  {
    && (forall t | t in toVisit :: WellSorted(t, m) && Coi(t, u, m) <= Coi(term, u, m))
    && (forall t | t in visited :: WellSorted(t, m) && Local(t, m) <= p && Handled(t, toVisit, visited, u, m))
    && (term in visited || term in toVisit)
    && from <= p <= from + Coi(term, u, m)
  }

  lemma Skipped(term: Term, rest: seq<Term>, c: Term, visited: set<Term>, from: set<Symbol>, p: set<Symbol>, u: Updates, m: Model)
    requires WellSorted(term, m) && GoodUpdates(u, m)
    requires Pending(term, rest + [c], visited, from, p, u, m) && c in visited
    ensures Pending(term, rest, visited, from, p, u, m)
    ensures TotalWeight(rest, u) < TotalWeight(rest + [c], u)
  {
    hide Successors;
    hide Coi;
    hide WellSorted;
    hide Local;
    TotalWeightSplit(rest, [c], u);
    forall t | t in visited ensures Handled(t, rest, visited, u, m) {
      assert Handled(t, rest + [c], visited, u, m);
    }
    hide Handled;
    assert forall t | t in rest :: t in rest + [c];
  }

  lemma VisitLightens(rest: seq<Term>, c: Term, u: Updates, m: Model)
    requires WellSorted(c, m) && GoodUpdates(u, m)
    ensures TotalWeight(rest + Successors(c, u, m), u) < TotalWeight(rest + [c], u)
  {
    SuccessorsLighter(c, u, m);
    TotalWeightSplit(rest, [c], u);
    TotalWeightSplit(rest, Successors(c, u, m), u);
    assert TotalWeight([c], u) == Weight(c, u) + TotalWeight([], u);
  }

  lemma Visited(term: Term, rest: seq<Term>, c: Term, visited: set<Term>, from: set<Symbol>, p: set<Symbol>, u: Updates, m: Model)
    requires WellSorted(term, m) && GoodUpdates(u, m)
    requires Pending(term, rest + [c], visited, from, p, u, m)
    ensures Pending(term, rest + Successors(c, u, m), visited + {c}, from, p + Local(c, m), u, m)
  {
    assert c in rest + [c];
    assert Local(c, m) <= Coi(c, u, m);
    var next := Successors(c, u, m);
    forall r | r in next ensures WellSorted(r, m) && Coi(r, u, m) <= Coi(c, u, m) {
      SuccessorsCoi(c, u, m, r);
    }
    forall t | t in visited ensures Handled(t, rest + next, visited + {c}, u, m) {
      HandledStep(t, rest, c, next, visited, u, m);
    }
    assert Handled(c, rest + next, visited + {c}, u, m);
    hide Handled;
    hide Successors;
    hide Coi;
    hide WellSorted;
    hide Local;
    hide GoodUpdates;
    assert forall t | t in rest :: t in rest + [c];
  }

  /** Adds to the projection what justifies the value of term in the model m: exactly the symbols
      the recursive definition names, each term being visited once. */
  method JustifyCoi(term: Term, projection: set<Symbol>, u: Updates, m: Model) returns (p: set<Symbol>)
    requires WellSorted(term, m) && GoodUpdates(u, m)
    ensures p == projection + Coi(term, u, m)
  {
    hide GoodUpdates;
    hide WellSorted;
    hide Coi;
    hide Successors;
    hide Local;
    p := projection;
    var toVisit := [term];
    var visited: set<Term> := {};
    while toVisit != []
      invariant Pending(term, toVisit, visited, projection, p, u, m)
      decreases TotalWeight(toVisit, u)
    {
      var c := toVisit[|toVisit| - 1];
      ghost var rest := toVisit[..|toVisit| - 1];
      assert toVisit == rest + [c];
      assert WellSorted(c, m);
      toVisit := toVisit[..|toVisit| - 1];
      if c in visited {
        Skipped(term, rest, c, visited, projection, p, u, m);
        continue;
      }
      VisitLightens(rest, c, u, m);
      Visited(term, rest, c, visited, projection, p, u, m);
      hide Pending;
      visited := visited + {c};
      toVisit, p := Visit(c, toVisit, p, u, m);
    }
    forall s, r | s in visited && r in Successors(s, u, m) ensures r in visited {
      assert Handled(s, toVisit, visited, u, m);
    }
    ClosedCollects(visited, u, m, p, term);
  }

  /** One visit. */
  method Visit(c: Term, toVisit: seq<Term>, projection: set<Symbol>, u: Updates, m: Model) returns (r: seq<Term>, p: set<Symbol>)
    requires WellSorted(c, m)
    ensures r == toVisit + Successors(c, u, m) && p == projection + Local(c, m)
  {
    r, p := toVisit, projection;
    if IsIte(c) {
      r := r + [c.args[0]];
      r := r + [if Eval(c.args[0], m) == B(true) then c.args[1] else c.args[2]];
    } else if IsControlled(c, m) {
      var t := GetControlling(c, m);
      r := r + [t];
    } else {
      if c.App? {
        r := r + c.args;
      }
      if c.Sym? && c.x.Next? && c.x.v in u {
        r := r + [u[c.x.v]];
      }
      p := p + Symbols(c);
    }
  }

  // ---------------------------------------------------------------- equivalence classes

  method GetEquivalenceClassesOfSort(terms: set<Term>, keep: set<Symbol>, m: Model) returns (ec: Classes)
    ensures forall v | v in ec :: ec[v] != {}
    ensures forall v, t | v in ec && t in ec[v] :: t in terms && InProjection(t, keep) && Eval(t, m) == v
    ensures forall t | t in terms && InProjection(t, keep) :: Eval(t, m) in ec && t in ec[Eval(t, m)]
  {
    ec := map[];
    var todo := terms;
    while todo != {}
      invariant todo <= terms
      invariant forall v | v in ec :: ec[v] != {}
      invariant forall v, t | v in ec && t in ec[v] :: t in terms && InProjection(t, keep) && Eval(t, m) == v
      invariant forall t | t in terms && t !in todo && InProjection(t, keep) :: Eval(t, m) in ec && t in ec[Eval(t, m)]
      decreases todo
    {
      var t :| t in todo;
      if InProjection(t, keep) {
        var val := Eval(t, m);
        ec := ec[val := (if val in ec then ec[val] else {}) + {t}];
      }
      todo := todo - {t};
    }
  }

  // ---------------------------------------------------------------- the partition cube

  /** The classes are non-empty and keyed by the value their terms have in m. */
  ghost predicate KeyedBy(ec: Classes, m: Model) {
    && (forall v | v in ec :: ec[v] != {})
    && forall v, t | v in ec && t in ec[v] :: Eval(t, m) == v
  }

  /** k makes exactly the terms equal that share a class. */
  ghost predicate SamePartition(ec: Classes, k: Model) {
    forall v, w, t, r | v in ec && w in ec && t in ec[v] && r in ec[w] :: Eval(t, k) == Eval(r, k) <==> v == w
  }

  /** make_term, which may rewrite a term into a value. */
  method MakeTerm(op: Op, a: Term, b: Term) returns (r: Term)
    requires op == Equal || op == Distinct
    ensures forall k: Model :: Truth(r, k) <==> (Eval(a, k) == Eval(b, k) <==> op == Equal)
  {
    r := App(op, [a, b]);
    forall k: Model ensures Truth(r, k) <==> (Eval(a, k) == Eval(b, k) <==> op == Equal) {
      EvalBinary(op, a, b, k);
    }
    if a.Val? && b.Val? {
      r := Val(B((a.v == b.v) == (op == Equal)));
    }
  }

  ghost predicate AllEqualTo(ts: set<Term>, r: Term, k: Model) {
    forall t | t in ts :: Eval(t, k) == Eval(r, k)
  }

  /** Adds a literal that m satisfies, unless it was rewritten into a value. */
  method AddLiteral(op: Op, a: Term, b: Term, cube: set<Term>, ghost m: Model) returns (r: set<Term>)
    requires op == Equal || op == Distinct
    requires Eval(a, m) == Eval(b, m) <==> op == Equal
    ensures forall k: Model :: Holds(r, k) <==> Holds(cube, k) && (Eval(a, k) == Eval(b, k) <==> op == Equal)
  {
    r := cube;
    var lit := MakeTerm(op, a, b);
    if lit.Val? {
      assert Truth(lit, m);
      assert forall k: Model :: Truth(lit, k);
    } else {
      r := r + {lit};
      forall k: Model ensures Holds(r, k) <==> Holds(cube, k) && Truth(lit, k) {
        assert lit in r;
      }
    }
  }

  /** The chain of equalities of one class and the term that represents it: a symbol if there is
      one after the first, else preferably no value. */
  method ClassEqualities(terms: set<Term>, cube: set<Term>, ghost m: Model) returns (r: set<Term>, repr: Term)
    requires terms != {} && forall t, s | t in terms && s in terms :: Eval(t, m) == Eval(s, m)
    ensures repr in terms
    ensures forall k: Model :: Holds(r, k) <==> Holds(cube, k) && AllEqualTo(terms, repr, k)
  {
    r := cube;
    var last :| last in terms;
    var todo := terms - {last};
    repr := last;
    var foundRepr, reprVal := false, repr.Val?;
    assert terms - todo == {last};
    while todo != {}
      invariant todo <= terms && last in terms - todo && repr in terms - todo
      invariant forall k: Model :: Holds(r, k) <==> Holds(cube, k) && AllEqualTo(terms - todo, last, k)
      decreases todo
    {
      var term :| term in todo;
      ghost var before, done, prev := r, terms - todo, last;
      r := AddLiteral(Equal, last, term, r, m);
      last := term;
      todo := todo - {term};
      forall k: Model ensures Holds(r, k) <==> Holds(cube, k) && AllEqualTo(terms - todo, last, k) {
        assert Holds(r, k) <==> Holds(before, k) && Eval(prev, k) == Eval(term, k);
        assert forall t :: t in terms - todo <==> t in done || t == term;
      }
      if !foundRepr {
        if term.Sym? {
          repr, reprVal, foundRepr := term, false, true;
        } else if !term.Val? && reprVal {
          repr, reprVal := term, false;
        }
      }
    }
    assert terms - todo == terms;
  }

  /** Of the representatives, those before position (a, b) in the double loop differ. */
  ghost predicate Differ(reprs: seq<Term>, a: int, b: int, k: Model) {
    forall i, j | 0 <= i < j < |reprs| && (i < a || (i == a && j < b)) :: Eval(reprs[i], k) != Eval(reprs[j], k)
  }

  /** Every representative belongs to the class of its value, and the classes in vals are distinct. */
  ghost predicate Represent(ec: Classes, vals: seq<Value>, reprs: seq<Term>, m: Model) {
    && |vals| == |reprs|
    && (forall i | 0 <= i < |vals| :: vals[i] in ec && reprs[i] in ec[vals[i]] && Eval(reprs[i], m) == vals[i])
    && forall i, j | 0 <= i < j < |vals| :: vals[i] != vals[j]
  }

  ghost predicate ClassesEqual(ec: Classes, vals: seq<Value>, reprs: seq<Term>, k: Model)
    requires |vals| == |reprs| && forall i | 0 <= i < |vals| :: vals[i] in ec
  {
    forall i | 0 <= i < |vals| :: AllEqualTo(ec[vals[i]], reprs[i], k)
  }

  lemma LiteralsPartition(ec: Classes, vals: seq<Value>, reprs: seq<Term>, m: Model, k: Model, i: int, j: int, t: Term, r: Term)
    requires Represent(ec, vals, reprs, m) && ClassesEqual(ec, vals, reprs, k) && Differ(reprs, |reprs|, 0, k)
    requires 0 <= i < |vals| && 0 <= j < |vals| && t in ec[vals[i]] && r in ec[vals[j]]
    ensures Eval(t, k) == Eval(r, k) <==> vals[i] == vals[j]
  {
    hide Eval;
  }

  lemma PartitionLiterals(ec: Classes, vals: seq<Value>, reprs: seq<Term>, m: Model, k: Model)
    requires Represent(ec, vals, reprs, m) && SamePartition(ec, k)
    ensures ClassesEqual(ec, vals, reprs, k) && Differ(reprs, |reprs|, 0, k)
  {
    hide Eval;
  }

  lemma FromLiterals(ec: Classes, vals: seq<Value>, reprs: seq<Term>, m: Model, k: Model)
    requires Represent(ec, vals, reprs, m) && forall v | v in ec :: v in vals
    requires ClassesEqual(ec, vals, reprs, k) && Differ(reprs, |reprs|, 0, k)
    ensures SamePartition(ec, k)
  {
    hide Eval;
    hide ClassesEqual;
    hide Differ;
    forall v, w, t, r | v in ec && w in ec && t in ec[v] && r in ec[w] ensures Eval(t, k) == Eval(r, k) <==> v == w {
      var i :| 0 <= i < |vals| && vals[i] == v;
      var j :| 0 <= j < |vals| && vals[j] == w;
      LiteralsPartition(ec, vals, reprs, m, k, i, j, t, r);
    }
  }

  /** Equal classes and different representatives make the partition. */
  lemma PartitionFromLiterals(ec: Classes, vals: seq<Value>, reprs: seq<Term>, m: Model, k: Model)
    requires Represent(ec, vals, reprs, m) && forall v | v in ec :: v in vals
    ensures ClassesEqual(ec, vals, reprs, k) && Differ(reprs, |reprs|, 0, k) <==> SamePartition(ec, k)
  {
    hide SamePartition;
    if SamePartition(ec, k) {
      PartitionLiterals(ec, vals, reprs, m, k);
    }
    if ClassesEqual(ec, vals, reprs, k) && Differ(reprs, |reprs|, 0, k) {
      FromLiterals(ec, vals, reprs, m, k);
    }
  }

  /** The literals for one sort: they hold in exactly the states that partition its terms as the
      model does. Two values need no disequality. */
  method PartitionOfSort(ec: Classes, cube: set<Term>, ghost m: Model) returns (r: set<Term>)
    requires KeyedBy(ec, m)
    ensures forall k: Model :: Holds(r, k) <==> Holds(cube, k) && SamePartition(ec, k)
  {
    ghost var vals;
    var reprs;
    r, vals, reprs := Equalities(ec, cube, m);
    ghost var base := r;
    r := Disequalities(reprs, r, m);
    forall k: Model ensures Holds(r, k) <==> Holds(cube, k) && SamePartition(ec, k) {
      PartitionFromLiterals(ec, vals, reprs, m, k);
    }
  }

  method Equalities(ec: Classes, cube: set<Term>, ghost m: Model) returns (r: set<Term>, ghost vals: seq<Value>, reprs: seq<Term>)
    requires KeyedBy(ec, m)
    ensures Represent(ec, vals, reprs, m) && forall v | v in ec :: v in vals
    ensures forall k: Model :: Holds(r, k) <==> Holds(cube, k) && ClassesEqual(ec, vals, reprs, k)
  {
    r, vals, reprs := cube, [], [];
    var todo := ec.Keys;
    while todo != {}
      invariant todo <= ec.Keys && Represent(ec, vals, reprs, m)
      invariant forall v :: v in vals <==> v in ec && v !in todo
      invariant forall k: Model :: Holds(r, k) <==> Holds(cube, k) && ClassesEqual(ec, vals, reprs, k)
      decreases todo
    {
      var v :| v in todo;
      ghost var before, vals0, reprs0 := r, vals, reprs;
      var repr;
      r, repr := ClassEqualities(ec[v], r, m);
      reprs := reprs + [repr];
      vals := vals + [v];
      todo := todo - {v};
      assert Represent(ec, vals, reprs, m) by {
        assert forall i | 0 <= i < |vals0| :: vals0[i] in vals0;
      }
      forall k: Model ensures Holds(r, k) <==> Holds(cube, k) && ClassesEqual(ec, vals, reprs, k) {
        OneMoreClass(ec, vals0, reprs0, v, repr, k);
      }
    }
  }

  lemma OneMoreClass(ec: Classes, vals: seq<Value>, reprs: seq<Term>, v: Value, repr: Term, k: Model)
    requires |vals| == |reprs| && v in ec && forall i | 0 <= i < |vals| :: vals[i] in ec
    ensures ClassesEqual(ec, vals + [v], reprs + [repr], k) <==> ClassesEqual(ec, vals, reprs, k) && AllEqualTo(ec[v], repr, k)
  {
    var vs, rs := vals + [v], reprs + [repr];
    hide AllEqualTo;
    if ClassesEqual(ec, vs, rs, k) {
      assert AllEqualTo(ec[vs[|vals|]], rs[|vals|], k);
      forall i | 0 <= i < |vals| ensures AllEqualTo(ec[vals[i]], reprs[i], k) {
        assert AllEqualTo(ec[vs[i]], rs[i], k);
      }
    }
  }

  method Disequalities(reprs: seq<Term>, cube: set<Term>, ghost m: Model) returns (r: set<Term>)
    requires forall i, j | 0 <= i < j < |reprs| :: Eval(reprs[i], m) != Eval(reprs[j], m)
    ensures forall k: Model :: Holds(r, k) <==> Holds(cube, k) && Differ(reprs, |reprs|, 0, k)
  {
    r := cube;
    var i := 0;
    while i < |reprs|
      invariant 0 <= i <= |reprs|
      invariant forall k: Model :: Holds(r, k) <==> Holds(cube, k) && Differ(reprs, i, i + 1, k)
    {
      var j := i + 1;
      while j < |reprs|
        invariant i < j <= |reprs|
        invariant forall k: Model :: Holds(r, k) <==> Holds(cube, k) && Differ(reprs, i, j, k)
      {
        ghost var before := r;
        if !(reprs[i].Val? && reprs[j].Val?) {
          r := AddLiteral(Distinct, reprs[i], reprs[j], r, m);
        } else {
          assert Eval(reprs[i], m) != Eval(reprs[j], m);
          assert forall k: Model :: Eval(reprs[i], k) != Eval(reprs[j], k);
        }
        forall k: Model ensures Holds(r, k) <==> Holds(cube, k) && Differ(reprs, i, j + 1, k) {
          assert Holds(r, k) <==> Holds(before, k) && Eval(reprs[i], k) != Eval(reprs[j], k);
          DifferStep(reprs, i, j, k);
        }
        j := j + 1;
      }
      assert forall k: Model :: Differ(reprs, i, |reprs|, k) <==> Differ(reprs, i + 1, i + 2, k);
      i := i + 1;
    }
    assert forall k: Model :: Differ(reprs, i, i + 1, k) <==> Differ(reprs, |reprs|, 0, k);
  }

  lemma DifferStep(reprs: seq<Term>, i: int, j: int, k: Model)
    requires 0 <= i < j < |reprs|
    ensures Differ(reprs, i, j + 1, k) <==> Differ(reprs, i, j, k) && Eval(reprs[i], k) != Eval(reprs[j], k)
  {
  }

  // ---------------------------------------------------------------- predecessor generalization

  /** A constraint of the system and whether its next-state copy was asked for as well. */
  type Constraints = seq<(Term, bool)>

  function ConstraintTerms(cs: Constraints): (r: seq<Term>)
    ensures |r| == |cs| && forall i | 0 <= i < |cs| :: r[i] == cs[i].0
  {
    seq(|cs|, i requires 0 <= i < |cs| => cs[i].0)
  }

  predicate HasNextCopy(c: (Term, bool)) {
    c.1 && IsCurrOnly(c.0)
  }

  function PrimedTerms(cs: Constraints): (r: seq<Term>)
    ensures forall t | t in r :: exists c :: c in cs && HasNextCopy(c) && c.0 == t
    ensures forall c | c in cs && HasNextCopy(c) :: c.0 in r
  {
    if cs == [] then []
    else if HasNextCopy(cs[0]) then [cs[0].0] + PrimedTerms(cs[1..]) else PrimedTerms(cs[1..])
  }

  /** m is a step of the system. */
  ghost predicate IsStep(u: Updates, cs: Constraints, m: Model) {
    StepHolds(u, ConstraintTerms(cs), PrimedTerms(cs), m)
  }

  ghost predicate AllSorted(u: Updates, cs: Constraints, m: Model) {
    && GoodUpdates(u, m)
    && forall c | c in cs :: WellSorted(c.0, m) && WellSorted(Prime(c.0), m)
  }

  /** The symbols kept justify the target and everything T demands besides the updates. */
  ghost predicate Justified(u: Updates, cs: Constraints, target: Term, m: Model, keep: set<Symbol>)
    requires AllSorted(u, cs, m) && WellSorted(Prime(target), m)
  {
    && Coi(Prime(target), u, m) <= keep
    && forall c | c in cs :: Coi(c.0, u, m) <= keep && (HasNextCopy(c) ==> Coi(Prime(c.0), u, m) <= keep)
  }

  function WithoutNext(xs: set<Symbol>): set<Symbol> {
    set x | x in xs && !x.Next?
  }

  /** From the current state and inputs of s: updated variables follow their update, the others
      go where they went in m. */
  function Follow(u: Updates, m: Model, s: Model): Model {
    Model((x: Symbol) => if !x.Next? then s.sym(x) else if x.v in u then Eval(u[x.v], s) else m.sym(x), m.fun)
  }

  lemma FollowObeys(u: Updates, m: Model, s: Model)
    requires s.fun == m.fun && forall v | v in u :: IsNoNext(u[v])
    ensures UpdatesHold(u, Follow(u, m, s))
  {
    var k := Follow(u, m, s);
    forall v | v in u ensures k.sym(Next(v)) == Eval(u[v], k) {
      EvalAgree(u[v], s, k);
    }
  }

  /** Every state that agrees with the model on the kept current-state symbols has a step to a
      state that meets the target. */
  lemma KeptSymbolsStep(u: Updates, cs: Constraints, target: Term, m: Model, keep: set<Symbol>, s: Model)
    requires AllSorted(u, cs, m) && WellSorted(Prime(target), m) && Justified(u, cs, target, m, keep)
    requires IsStep(u, cs, m) && Truth(Prime(target), m)
    requires s.fun == m.fun && forall x | x in WithoutNext(keep) :: s.sym(x) == m.sym(x)
    ensures IsStep(u, cs, Follow(u, m, s)) && Truth(Prime(target), Follow(u, m, s))
  {
    var k := Follow(u, m, s);
    FollowObeys(u, m, s);
    forall t | WellSorted(t, m) && Coi(t, u, m) <= keep ensures Eval(t, k) == Eval(t, m) {
      CoiSuffices(t, u, m, k);
    }
    hide Follow;
    hide WellSorted;
    hide Coi;
    hide Prime;
    forall t | t in ConstraintTerms(cs) ensures Truth(t, k) {
      assert exists c :: c in cs && c.0 == t;
    }
    forall t | t in PrimedTerms(cs) ensures Truth(Prime(t), k) {
      var c :| c in cs && HasNextCopy(c) && c.0 == t;
    }
  }

  class IC3SA {
    const updates: Updates
    const constraints: Constraints
    /** The predicates and, sort by sort, the terms of the abstraction. */
    var predset: set<Term>
    var termAbstraction: seq<set<Term>>
    /** Symbols of learned lemmas, always kept. */
    var projectionSet: set<Symbol>

    constructor (updates: Updates, constraints: Constraints)
      ensures this.updates == updates && this.constraints == constraints
    {
      this.updates, this.constraints := updates, constraints;
      predset, termAbstraction, projectionSet := {}, [], {};
    }

    /** What the cube says of a state: the truth of every kept predicate and, for every sort, which of
        the kept terms are equal. */
    ghost predicate SameAbstraction(keep: set<Symbol>, m: Model, k: Model)
      reads this
    {
      && (forall p | p in predset && InProjection(p, keep) :: Truth(p, k) <==> Truth(p, m))
      && forall i, t, r | 0 <= i < |termAbstraction| && t in termAbstraction[i] && r in termAbstraction[i]
                          && InProjection(t, keep) && InProjection(r, keep) :: Eval(t, k) == Eval(r, k) <==> Eval(t, m) == Eval(r, m)
    }

    /** The predecessor cube for the step m into the target, and the symbols it was projected on. */
    method PredecessorGeneralization(target: Term, m: Model) returns (cube: set<Term>, keep: set<Symbol>, ghost all: set<Symbol>)
      requires AllSorted(updates, constraints, m) && WellSorted(Prime(target), m)
      ensures keep == WithoutNext(all) && projectionSet <= all && Justified(updates, constraints, target, m, all)
      ensures forall k: Model :: Holds(cube, k) <==> SameAbstraction(keep + projectionSet, m, k)
    {
      var symbols := JustifyAll(target, m);
      all := symbols;
      keep := WithoutNext(symbols);
      cube := AbstractState(keep + projectionSet, m);
    }

    method JustifyAll(target: Term, m: Model) returns (r: set<Symbol>)
      requires AllSorted(updates, constraints, m) && WellSorted(Prime(target), m)
      ensures projectionSet <= r && Justified(updates, constraints, target, m, r)
    {
      hide Coi;
      hide WellSorted;
      hide Prime;
      r := JustifyCoi(Prime(target), projectionSet, updates, m);
      var i := 0;
      while i < |constraints|
        invariant 0 <= i <= |constraints| && projectionSet <= r && Coi(Prime(target), updates, m) <= r
        invariant Justified(updates, constraints[..i], target, m, r)
      {
        var c := constraints[i];
        r := JustifyCoi(c.0, r, updates, m);
        if HasNextCopy(c) {
          r := JustifyCoi(Prime(c.0), r, updates, m);
        }
        assert constraints[..i + 1] == constraints[..i] + [c];
        i := i + 1;
      }
      assert constraints[..i] == constraints;
    }

    /** get_model_ic3formula on the kept symbols: predicates, then partitions. */
    method AbstractState(keep: set<Symbol>, m: Model) returns (cube: set<Term>)
      ensures forall k: Model :: Holds(cube, k) <==> SameAbstraction(keep, m, k)
    {
      cube := PredicateLiterals(keep, m);
      ghost var preds := cube;
      var i := 0;
      while i < |termAbstraction|
        invariant 0 <= i <= |termAbstraction|
        invariant forall k: Model :: Holds(cube, k) <==> Holds(preds, k) && PartitionsUpTo(i, keep, m, k)
      {
        ghost var before := cube;
        var ec := GetEquivalenceClassesOfSort(termAbstraction[i], keep, m);
        cube := PartitionOfSort(ec, cube, m);
        forall k: Model ensures SamePartition(ec, k) <==> SameEqualities(termAbstraction[i], keep, m, k) {
          ClassesExact(termAbstraction[i], keep, m, ec, k);
        }
        i := i + 1;
      }
      forall k: Model ensures Holds(cube, k) <==> SameAbstraction(keep, m, k) {
        assert PartitionsUpTo(i, keep, m, k) <==> (forall j | 0 <= j < |termAbstraction| :: SameEqualities(termAbstraction[j], keep, m, k));
      }
    }

    ghost predicate PartitionsUpTo(i: nat, keep: set<Symbol>, m: Model, k: Model)
      reads this
      requires i <= |termAbstraction|
    {
      forall j | 0 <= j < i :: SameEqualities(termAbstraction[j], keep, m, k)
    }

    method PredicateLiterals(keep: set<Symbol>, m: Model) returns (cube: set<Term>)
      ensures forall k: Model :: Holds(cube, k) <==> forall p | p in predset && InProjection(p, keep) :: Truth(p, k) <==> Truth(p, m)
    {
      cube := {};
      var todo := predset;
      while todo != {}
        invariant todo <= predset
        invariant forall k: Model :: Holds(cube, k) <==>
                                     forall p | p in predset && p !in todo && InProjection(p, keep) :: Truth(p, k) <==> Truth(p, m)
        decreases todo
      {
        var p :| p in todo;
        ghost var before, left := cube, todo;
        if InProjection(p, keep) {
          var lit := if Truth(p, m) then p else MkNot(p);
          cube := cube + {lit};
          forall k: Model ensures Holds(cube, k) <==> Holds(before, k) && (Truth(p, k) <==> Truth(p, m)) {
            TruthNot(p, k);
            assert lit in cube;
          }
        }
        todo := todo - {p};
        assert forall q :: q in predset && q !in todo <==> (q in predset && q !in left) || q == p;
      }
    }
  }

  ghost predicate SameEqualities(terms: set<Term>, keep: set<Symbol>, m: Model, k: Model) {
    forall t, r | t in terms && r in terms && InProjection(t, keep) && InProjection(r, keep) ::
      Eval(t, k) == Eval(r, k) <==> Eval(t, m) == Eval(r, m)
  }

  lemma ClassesExact(terms: set<Term>, keep: set<Symbol>, m: Model, ec: Classes, k: Model)
    requires forall v, t | v in ec && t in ec[v] :: t in terms && InProjection(t, keep) && Eval(t, m) == v
    requires forall t | t in terms && InProjection(t, keep) :: Eval(t, m) in ec && t in ec[Eval(t, m)]
    ensures SamePartition(ec, k) <==> SameEqualities(terms, keep, m, k)
  {
    hide Eval;
  }
}
