/** The SMT solver and the interpolating solver, known only by their contracts. A
    query is given by the finite set of its models; which model, core or interpolant
    comes back is up to the solver, so an engine may rely on nothing but the
    `ensures` clauses below. */
module Solver {
  import opened Systems

  datatype Option<+T> = None | Some(value: T)

  /** check_sat: Some(model) when satisfiable, None when unsat. */
  method CheckSat<M(==)>(models: set<M>) returns (r: Option<M>)
    ensures r.None? <==> models == {}
    ensures r.Some? ==> r.value in models
  {
    if models == {} {
      r := None;
    } else {
      var m :| m in models;
      r := Some(m);
    }
  }

  /** get_interpolant(A, B). The two formulas share the variables of one state; a is
      A projected on that state and b is B projected on it. None means sat. */
  method GetInterpolant<S(==)>(universe: set<S>, a: set<S>, b: set<S>) returns (r: Option<set<S>>)
    requires a <= universe
    ensures r.None? <==> !(a !! b)
    ensures r.Some? ==> a <= r.value <= universe && r.value !! b
  {
    if a !! b {
      r := Some(a);
    } else {
      r := None;
    }
  }

  /** The chain promised by get_sequence_interpolants for the formulas
      a(0) /\ T(0,1), T(1,2), ..., T(m-1,m), b(m): its m members are inductive,
      I_j /\ T => I_{j+1}', and the last one excludes b. */
  ghost predicate InterpolationSequence<S>(ts: System<S>, a: set<S>, m: nat, b: set<S>, itp: seq<set<S>>) {
    && |itp| == m
    && (forall j | 0 <= j < m :: itp[j] <= ts.states)
    && (m > 0 ==> Maps(ts, a, itp[0]))
    && (forall j, k | 0 <= j < m && k == j + 1 < m :: Maps(ts, itp[j], itp[k]))
    && (if m == 0 then a else itp[m - 1]) !! b
  }

  method GetSequenceInterpolants<S(==)>(ts: System<S>, a: set<S>, m: nat, b: set<S>)
    returns (r: Option<seq<set<S>>>)
    requires WellFormed(ts) && a <= ts.states
    ensures r.None? <==> exists p :: IsPath(ts, p) && |p| == m + 1 && p[0] in a && p[m] in b
    ensures r.Some? ==> InterpolationSequence(ts, a, m, b, r.value)
  {
    var itp: seq<set<S>> := [];
    var last := a;
    while |itp| < m
      invariant |itp| <= m && last == ImageN(ts, a, |itp|)
      invariant last == if itp == [] then a else itp[|itp| - 1]
      invariant forall j | 0 <= j < |itp| :: itp[j] <= ts.states
      invariant |itp| > 0 ==> Maps(ts, a, itp[0])
      invariant forall j, k | 0 <= j < |itp| && k == j + 1 < |itp| :: Maps(ts, itp[j], itp[k])
    {
      last := Image(ts, last);
      ImageNWithin(ts, a, |itp| + 1);
      itp := itp + [last];
    }
    if last !! b {
      r := Some(itp);
      forall p | IsPath(ts, p) && |p| == m + 1 && p[0] in a ensures p[m] !in b {
        ImageNOfPath(ts, a, p, m);
      }
    } else {
      r := None;
      ghost var t :| t in last && t in b;
      ghost var p := PathOfImageN(ts, a, m, t);
    }
  }
}
