/** Literals, cubes and clauses of bit-level IC3. */
module IC3Formulas {

  /** A valuation of the Boolean state variables. */
  type State = seq<bool>

  datatype Lit = Lit(v: nat, pos: bool)

  predicate Holds(l: Lit, s: State) {
    (l.v < |s| && s[l.v]) == l.pos
  }

  /** smart_not on a literal. */
  function Not(l: Lit): Lit {
    l.(pos := !l.pos)
  }

  /** A clause when disjunction is set, a cube otherwise; children are kept sorted. */
  datatype IC3Formula = IC3Formula(children: seq<Lit>, disjunction: bool)

  predicate Sat(f: IC3Formula, s: State) {
    if f.disjunction then exists l | l in f.children :: Holds(l, s)
    else forall l | l in f.children :: Holds(l, s)
  }

  // ---------------------------------------------------------------- construction

  /** The term order used for sorting; any total order serves. */
  predicate Before(a: Lit, b: Lit) {
    a.v < b.v || (a.v == b.v && (a == b || b.pos))
  }

  predicate Sorted(c: seq<Lit>) {
    forall i, j | 0 <= i < j < |c| :: Before(c[i], c[j])
  }

  function Insert(l: Lit, c: seq<Lit>): (r: seq<Lit>)
    ensures |r| == |c| + 1
    ensures forall x :: x in r <==> x == l || x in c
  {
    if c == [] then [l]
    else if Before(l, c[0]) then [l] + c
    else
      var r := [c[0]] + Insert(l, c[1..]);
      assert c == [c[0]] + c[1..];
      r
  }

  /** The children in sorted order, as the IC3Formula constructor stores them. */
  function Sort(c: seq<Lit>): (r: seq<Lit>)
    ensures |r| == |c|
    ensures forall x :: x in r <==> x in c
  {
    if c == [] then []
    else
      assert c == [c[0]] + c[1..];
      Insert(c[0], Sort(c[1..]))
  }

  lemma {:induction false} InsertContents(l: Lit, c: seq<Lit>)
    ensures multiset(Insert(l, c)) == multiset(c) + multiset{l}
  {
    if c != [] && !Before(l, c[0]) {
      InsertContents(l, c[1..]);
      assert c == [c[0]] + c[1..];
    }
  }

  lemma {:induction false} InsertSorted(l: Lit, c: seq<Lit>)
    requires Sorted(c)
    ensures Sorted(Insert(l, c))
  {
    if c == [] {
    } else if Before(l, c[0]) {
      forall j | 0 <= j < |c| ensures Before(l, c[j]) {
        assert j == 0 || Before(c[0], c[j]);
      }
    } else {
      var r := Insert(l, c[1..]);
      InsertSorted(l, c[1..]);
      forall j | 0 <= j < |r| ensures Before(c[0], r[j]) {
        assert r[j] in r;
      }
    }
  }

  /** The constructor keeps the children, as a multiset, and orders them. */
  lemma {:induction false} SortCorrect(c: seq<Lit>)
    ensures Sorted(Sort(c)) && multiset(Sort(c)) == multiset(c)
  {
    if c != [] {
      SortCorrect(c[1..]);
      InsertSorted(c[0], Sort(c[1..]));
      InsertContents(c[0], Sort(c[1..]));
      assert c == [c[0]] + c[1..];
    }
  }

  function Conjunction(c: seq<Lit>): IC3Formula {
    IC3Formula(Sort(c), false)
  }

  /** When the element at j is taken out of a sorted a, b joins and all is sorted again to t, the first
      j elements are still marked if those of a and all of b were: what is not marked stays behind. */
  lemma MarkedStayInFront(a: seq<Lit>, b: seq<Lit>, j: nat, t: seq<Lit>, marked: set<Lit>)
    requires Sorted(a) && j < |a| && forall l | l in a[..j] || l in b :: l in marked
    requires Sorted(t) && multiset(t) == multiset(a[..j]) + multiset(a[j + 1..]) + multiset(b)
    ensures j <= |t| && forall m | 0 <= m < j :: t[m] in marked
  {
    assert |multiset(t)| == |t| && |multiset(a[..j])| == j;
    forall m | 0 <= m < j ensures t[m] in marked {
      if t[m] !in marked {
        var z := t[m];
        assert z in a[j + 1..] by {
          assert z in multiset(t);
        }
        forall x | x in multiset(a[..j]) ensures x !in t[m..] {
          FrontBefore(a, j, x, z);
          assert forall p | m <= p < |t| :: t[p] == z || Before(z, t[p]);
        }
        assert multiset(t) == multiset(t[..m]) + multiset(t[m..]) by {
          assert t == t[..m] + t[m..];
        }
        forall x | x in multiset(a[..j]) ensures multiset(a[..j])[x] <= multiset(t[..m])[x] {
          assert multiset(t[m..])[x] == 0 by {
            assert x !in multiset(t[m..]);
          }
          assert multiset(t)[x] >= multiset(a[..j])[x];
        }
        MoreOf(multiset(a[..j]), multiset(t[..m]));
      }
    }
  }

  lemma FrontBefore(a: seq<Lit>, j: nat, x: Lit, z: Lit)
    requires Sorted(a) && j < |a| && x in a[..j] && z in a[j + 1..]
    ensures Before(x, z)
  {
  }

  lemma MoreOf(a: multiset<Lit>, b: multiset<Lit>)
    requires forall x | x in a :: a[x] <= b[x]
    ensures |a| <= |b|
  {
    assert a <= b;
    assert b == a + (b - a);
  }

  function NotAll(c: seq<Lit>): (r: seq<Lit>)
    ensures |r| == |c|
  {
    if c == [] then [] else [Not(c[0])] + NotAll(c[1..])
  }

  lemma {:induction false} InNotAll(c: seq<Lit>, l: Lit)
    ensures l in NotAll(c) <==> Not(l) in c
  {
    if c != [] {
      InNotAll(c[1..], l);
      assert c == [c[0]] + c[1..];
    }
  }

  function Negate(f: IC3Formula): IC3Formula {
    IC3Formula(Sort(NotAll(f.children)), !f.disjunction)
  }

  lemma NegateExact(f: IC3Formula, s: State)
    ensures Sat(Negate(f), s) <==> !Sat(f, s)
    ensures |Negate(f).children| == |f.children|
  {
    var g := Negate(f).children;
    if l :| l in f.children && Holds(l, s) == f.disjunction {
      InNotAll(f.children, Not(l));
      assert Not(l) in g && Holds(Not(l), s) != f.disjunction;
    } else {
      forall m | m in g ensures Holds(m, s) == f.disjunction {
        InNotAll(f.children, m);
        assert Holds(Not(m), s) != Holds(m, s);
      }
    }
  }

  lemma NegateBack(f: IC3Formula, s: State)
    ensures Sat(Negate(Negate(f)), s) <==> Sat(f, s)
  {
    NegateExact(f, s);
    NegateExact(Negate(f), s);
  }

  /** Dropping literals from a cube only adds states. */
  lemma CubeWeakens(f: IC3Formula, g: IC3Formula, s: State)
    requires !f.disjunction && !g.disjunction
    requires forall l | l in g.children :: l in f.children
    requires Sat(f, s)
    ensures Sat(g, s)
  {
  }

  // ---------------------------------------------------------------- subsumption

  /** std::includes: one pass over both ranges, relying on their order. */
  predicate Includes(b: seq<Lit>, a: seq<Lit>) {
    if a == [] then true
    else if b == [] then false
    else if a[0] == b[0] then Includes(b[1..], a[1..])
    else if Before(b[0], a[0]) then Includes(b[1..], a)
    else false
  }

  predicate Subsumes(a: IC3Formula, b: IC3Formula) {
    |a.children| <= |b.children| && Includes(b.children, a.children)
  }

  lemma {:induction false} IncludesSound(b: seq<Lit>, a: seq<Lit>)
    requires Includes(b, a)
    ensures multiset(a) <= multiset(b)
  {
    if a != [] {
      assert b == [b[0]] + b[1..] && a == [a[0]] + a[1..];
      if a[0] == b[0] {
        IncludesSound(b[1..], a[1..]);
      } else {
        IncludesSound(b[1..], a);
      }
    }
  }

  lemma TailsIncluded(a: seq<Lit>, b: seq<Lit>)
    requires a != [] && b != [] && a[0] == b[0] && multiset(a) <= multiset(b)
    ensures multiset(a[1..]) <= multiset(b[1..])
  {
    assert a == [a[0]] + a[1..] && b == [b[0]] + b[1..];
    assert multiset(a) == multiset{a[0]} + multiset(a[1..]);
    assert multiset(b) == multiset{a[0]} + multiset(b[1..]);
    forall x ensures multiset(a[1..])[x] <= multiset(b[1..])[x] {
      assert multiset(a)[x] <= multiset(b)[x];
    }
  }

  lemma NotHead(a: seq<Lit>, b: seq<Lit>)
    requires a != [] && b != [] && Sorted(a) && multiset(a) <= multiset(b)
    requires a[0] != b[0] && Before(b[0], a[0])
    ensures multiset(a) <= multiset(b[1..])
  {
    assert b == [b[0]] + b[1..];
    assert multiset(b) == multiset{b[0]} + multiset(b[1..]);
    assert b[0] !in a by {
      assert forall m | 0 <= m < |a| :: a[m] == a[0] || Before(a[0], a[m]);
    }
    forall x ensures multiset(a)[x] <= multiset(b[1..])[x] {
      assert multiset(a)[x] <= multiset(b)[x];
      if x == b[0] {
        assert x !in multiset(a);
      }
    }
  }

  lemma {:induction false} IncludesComplete(b: seq<Lit>, a: seq<Lit>)
    requires Sorted(a) && Sorted(b) && multiset(a) <= multiset(b)
    ensures Includes(b, a)
  {
    if a != [] {
      assert a == [a[0]] + a[1..];
      assert multiset(a)[a[0]] > 0;
      assert a[0] in multiset(b);
      assert b != [];
      assert b == [b[0]] + b[1..];
      if a[0] == b[0] {
        TailsIncluded(a, b);
        IncludesComplete(b[1..], a[1..]);
      } else {
        var k :| 0 <= k < |b| && b[k] == a[0];
        assert Before(b[0], b[k]);
        NotHead(a, b);
        IncludesComplete(b[1..], a);
      }
    }
  }

  /** On sorted children the one-pass test is exactly multiset inclusion. */
  lemma SubsumesIff(a: IC3Formula, b: IC3Formula)
    requires Sorted(a.children) && Sorted(b.children)
    ensures Subsumes(a, b) <==> multiset(a.children) <= multiset(b.children)
  {
    if Subsumes(a, b) {
      IncludesSound(b.children, a.children);
    }
    if multiset(a.children) <= multiset(b.children) {
      IncludesComplete(b.children, a.children);
      assert |multiset(a.children)| <= |multiset(b.children)| by {
        var d := multiset(b.children) - multiset(a.children);
        assert multiset(b.children) == multiset(a.children) + d;
      }
    }
  }

  /** A subsumed clause is implied. */
  lemma SubsumedImplied(a: IC3Formula, b: IC3Formula, s: State)
    requires Subsumes(a, b) && a.disjunction && b.disjunction && Sat(a, s)
    ensures Sat(b, s)
  {
    IncludesSound(b.children, a.children);
    var l :| l in a.children && Holds(l, s);
    assert l in multiset(a.children);
    assert l in multiset(b.children);
  }
}
