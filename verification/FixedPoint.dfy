/** The fixed-point test shared by dual approximated reachability and interpolation
    sequences: is some member of a reachability sequence covered by its predecessors? */
module FixedPoint {
  import opened Systems
  import opened Solver

  /** The disjunction of the members of s. */
  function Union<S>(s: seq<set<S>>): set<S> {
    if s == [] then {} else Union(s[..|s| - 1]) + s[|s| - 1]
  }

  lemma {:induction false} UnionExact<S>(s: seq<set<S>>, x: S)
    ensures x in Union(s) <==> exists i :: 0 <= i < |s| && x in s[i]
  {
    if s != [] {
      UnionExact(s[..|s| - 1], x);
      if x in Union(s[..|s| - 1]) {
        var i :| 0 <= i < |s| - 1 && x in s[..|s| - 1][i];
        assert x in s[i];
      }
      if i :| 0 <= i < |s| - 1 && x in s[i] {
        assert x in s[..|s| - 1][i];
      }
    }
  }

  /** No member after the first is covered by the union of those before it. */
  ghost predicate NoFixedPoint<S>(reach: seq<set<S>>) {
    forall i :: 1 <= i < |reach| ==> !(reach[i] <= Union(reach[..i]))
  }

  method CheckFixedPoint<S(==)>(reach: seq<set<S>>) returns (found: bool, fixedPoint: set<S>)
    requires |reach| > 0
    ensures found ==> exists i :: 1 <= i < |reach| && fixedPoint == Union(reach[..i]) && reach[i] <= fixedPoint
    ensures !found ==> NoFixedPoint(reach)
  {
    var accImg := reach[0];
    assert reach[..1][..0] == [];
    var i := 1;
    while i < |reach|
      invariant 1 <= i <= |reach|
      invariant accImg == Union(reach[..i])
      invariant forall j :: 1 <= j < i ==> !(reach[j] <= Union(reach[..j]))
    {
      var r := CheckSat(reach[i] - accImg);
      if r.None? {
        assert forall s | s in reach[i] :: s in reach[i] - accImg || s in accImg;
        return true, accImg;
      }
      assert r.value in reach[i] && r.value !in accImg;
      accImg := accImg + reach[i];
      i := i + 1;
      assert reach[..i][..i - 1] == reach[..i - 1];
    }
    return false, {};
  }

  lemma SmallerThan<S>(a: set<S>, b: set<S>)
    requires a <= b
    ensures |a| <= |b| && (|a| == |b| ==> a == b)
    decreases a
  {
    if x :| x in a {
      SmallerThan(a - {x}, b - {x});
    } else {
      assert |a| == 0;
      if |b| == 0 {
        assert b == {};
      }
    }
  }

  /** Where the test finds nothing, every member contributes at least one new state. */
  lemma {:induction false} NoFixedPointGrows<S>(reach: seq<set<S>>)
    requires |reach| > 0
    requires NoFixedPoint(reach)
    ensures |Union(reach)| >= |reach[0]| + |reach| - 1
  {
    var n := |reach| - 1;
    if n == 0 {
      assert reach[..0] == [] && Union(reach) == reach[0];
    } else {
      var pre := reach[..n];
      forall i | 1 <= i < |pre| ensures !(pre[i] <= Union(pre[..i])) {
        assert pre[..i] == reach[..i];
      }
      NoFixedPointGrows(pre);
      SmallerThan(Union(pre), Union(reach));
    }
  }

  // ---------------------------------------------------------------- what a fixed point proves

  /** A forward sequence: starts at Init, each member maps into the next, none meets Bad. */
  ghost predicate Forward<S>(ts: System<S>, f: seq<set<S>>) {
    && |f| > 0 && f[0] == ts.init
    && (forall i | 0 <= i < |f| :: f[i] <= ts.states)
    && forall i, j | 0 <= i < |f| && j == i + 1 < |f| :: Maps(ts, f[i], f[j])
  }

  ghost predicate Avoids<S>(f: seq<set<S>>, b: set<S>) {
    forall i | 0 <= i < |f| :: f[i] !! b
  }

  /** A backward sequence: starts at Bad, each member holds the predecessors of the one before. */
  ghost predicate Backward<S>(ts: System<S>, b: seq<set<S>>) {
    && |b| > 0 && b[0] == ts.bad
    && (forall i | 0 <= i < |b| :: b[i] <= ts.states)
    && forall i, j | 0 <= i < |b| && j == i + 1 < |b| :: MapsBack(ts, b[i], b[j])
  }

  lemma {:induction false} ForwardContainsRun<S>(ts: System<S>, f: seq<set<S>>, p: seq<S>, k: nat)
    requires Forward(ts, f) && IsPath(ts, p) && p[0] in ts.init && k < |p| && k < |f|
    ensures p[k] in f[k]
  {
    if k > 0 {
      ForwardContainsRun(ts, f, p, k - 1);
      assert StepAt(ts, p, k - 1);
      assert Maps(ts, f[k - 1], f[k]);
    }
  }

  /** A forward sequence that avoids Bad rules out every counterexample it is long enough for. */
  lemma ForwardRulesOut<S(!new)>(ts: System<S>, f: seq<set<S>>)
    requires Forward(ts, f) && Avoids(f, ts.bad)
    ensures NoCexUpTo(ts, |f| - 1)
  {
    forall p: seq<S> | IsCex(ts, p) ensures |p| > |f| {
      if |p| <= |f| {
        ForwardContainsRun(ts, f, p, |p| - 1);
      }
    }
  }

  lemma ForwardFixedPoint<S>(ts: System<S>, f: seq<set<S>>, i: nat)
    requires Forward(ts, f) && Avoids(f, ts.bad)
    requires 1 <= i < |f| && f[i] <= Union(f[..i])
    ensures Invariant(ts, Union(f[..i]))
  {
    var r := Union(f[..i]);
    forall s ensures s in r <==> exists j :: 0 <= j < i && s in f[j] {
      UnionExact(f[..i], s);
      if j :| 0 <= j < i && s in f[j] {
        assert s in f[..i][j];
      }
    }
    forall e | e in ts.trans && e.0 in r ensures e.1 in r {
      var j :| 0 <= j < i && e.0 in f[j];
      assert Maps(ts, f[j], f[j + 1]);
      assert e.1 in f[j + 1];
    }
  }

  lemma BackwardFixedPoint<S>(ts: System<S>, b: seq<set<S>>, i: nat)
    requires WellFormed(ts) && Backward(ts, b) && Avoids(b, ts.init)
    requires 1 <= i < |b| && b[i] <= Union(b[..i])
    ensures Invariant(ts, ts.states - Union(b[..i]))
  {
    var r := Union(b[..i]);
    forall s ensures s in r <==> exists j :: 0 <= j < i && s in b[j] {
      UnionExact(b[..i], s);
      if j :| 0 <= j < i && s in b[j] {
        assert s in b[..i][j];
      }
    }
    forall e | e in ts.trans && e.1 in r ensures e.0 in r {
      var j :| 0 <= j < i && e.1 in b[j];
      assert MapsBack(ts, b[j], b[j + 1]);
      assert e.0 in b[j + 1];
    }
  }

  /** Without a fixed point the sequence length is bounded by the states outside Init and Bad. */
  lemma NoFixedPointBound<S>(ts: System<S>, f: seq<set<S>>, first: set<S>, avoided: set<S>)
    requires |f| > 0 && f[0] == first && avoided <= ts.states
    requires forall i | 0 <= i < |f| :: f[i] <= ts.states && f[i] !! avoided
    requires forall i :: 1 <= i < |f| ==> !(f[i] <= Union(f[..i]))
    ensures |f| - 1 <= |ts.states| - |first| - |avoided|
  {
    NoFixedPointGrows(f);
    var u := Union(f);
    forall s | s in u ensures s in ts.states - avoided {
      UnionExact(f, s);
    }
    SmallerThan(u, ts.states - avoided);
  }
}
