/** The meaning of IC3's delta-encoded frames and how each frame operation changes it. A
    clause is stored only at the highest frame where it is known to hold, so the i-th
    frame is the conjunction of the clauses stored at i and above, together with the
    property, which every frame but the first carries implicitly. */
module IC3Frames {
  import opened Systems
  import opened IC3Formulas

  type Frames = seq<seq<IC3Formula>>

  /** A bit-level system with n state variables. A transition carries its input valuation.
      deterministic means that every state variable has an update and nothing constrains T. */
  datatype BitSystem = BitSystem(
    n: nat, inputs: set<State>, init: set<State>, trans: set<(State, State, State)>, bad: set<State>,
    deterministic: bool)
  {
    /** The same system with the inputs projected away. */
    function Ts(): System<State> {
      System(States(n), init, set e | e in trans :: (e.0, e.2), bad)
    }
  }

  function States(n: nat): (r: set<State>) {
    if n == 0 then {[]} else set s, b | s in States(n - 1) && b in {false, true} :: s + [b]
  }

  lemma {:induction false} StatesExact(n: nat, s: State)
    ensures s in States(n) <==> |s| == n
  {
    if n > 0 {
      if |s| == n {
        StatesExact(n - 1, s[..n - 1]);
        assert s == s[..n - 1] + [s[n - 1]] && s[n - 1] in {false, true};
      }
      if s in States(n) {
        var t, b :| t in States(n - 1) && b in {false, true} && s == t + [b];
        StatesExact(n - 1, t);
      }
    }
  }

  ghost predicate WellFormedBits(sys: BitSystem) {
    && (forall s | s in sys.init :: |s| == sys.n)
    && (forall s | s in sys.bad :: |s| == sys.n)
    && (forall e | e in sys.trans :: |e.0| == |e.2| == sys.n && e.1 in sys.inputs)
    && (sys.deterministic ==> Deterministic(sys))
  }

  /** Every state has exactly one successor under every input. */
  ghost predicate Deterministic(sys: BitSystem) {
    && (forall e, d | e in sys.trans && d in sys.trans && e.0 == d.0 && e.1 == d.1 :: e.2 == d.2)
    && (forall s: State, x | |s| == sys.n && x in sys.inputs :: Enabled(sys, s, x))
  }

  ghost predicate Enabled(sys: BitSystem, s: State, x: State) {
    exists e :: e in sys.trans && e.0 == s && e.1 == x
  }

  lemma TsWellFormed(sys: BitSystem)
    requires WellFormedBits(sys)
    ensures WellFormed(sys.Ts())
  {
    forall s: State ensures s in States(sys.n) <==> |s| == sys.n {
      StatesExact(sys.n, s);
    }
  }

  // ---------------------------------------------------------------- meaning

  predicate AllSat(us: seq<IC3Formula>, s: State) {
    forall u | u in us :: Sat(u, s)
  }

  predicate From(frames: Frames, i: nat, s: State) {
    forall j | i <= j < |frames| :: AllSat(frames[j], s)
  }

  /** get_frame_term: the first frame is Init, any other its clauses and the property. */
  predicate InFrame(sys: BitSystem, frames: Frames, i: nat, s: State) {
    if i == 0 then s in sys.init
    else |s| == sys.n && s !in sys.bad && From(frames, i, s)
  }

  ghost predicate Clauses(frames: Frames) {
    forall j, u | 0 <= j < |frames| && u in frames[j] :: u.disjunction && u.children != []
  }

  /** The invariant of the frames: each holds Init and maps into the next under T. That each
      implies the next, and that none past the first meets Bad, is built into the encoding. */
  ghost predicate FrameInv(sys: BitSystem, frames: Frames) {
    && |frames| >= 2 && frames[0] == [] && Clauses(frames)
    && (forall s | s in sys.init :: InFrame(sys, frames, 1, s))
    && forall e, i | e in sys.trans && 0 <= i < |frames| - 1 && InFrame(sys, frames, i, e.0) ::
         InFrame(sys, frames, i + 1, e.2)
  }

  lemma FramesGrow(sys: BitSystem, frames: Frames, i: nat, j: nat, s: State)
    requires FrameInv(sys, frames) && i <= j && InFrame(sys, frames, i, s)
    ensures InFrame(sys, frames, j, s)
  {
  }

  /** Adding clause u at level k: the frames 1..k gain it, the frames above do not change. */
  ghost predicate Strengthened(sys: BitSystem, before: Frames, after: Frames, k: nat, u: IC3Formula) {
    && |after| == |before|
    && forall i: nat, s: State | i >= 1 ::
         InFrame(sys, after, i, s) <==> InFrame(sys, before, i, s) && (i <= k ==> Sat(u, s))
  }

  /** u may be added up to level k: it holds initially and is inductive relative to the
      frame below k. */
  ghost predicate Learnable(sys: BitSystem, frames: Frames, k: nat, u: IC3Formula) {
    && u.disjunction && u.children != []
    && 1 <= k < |frames|
    && (forall s | s in sys.init :: Sat(u, s))
    && forall e | e in sys.trans && InFrame(sys, frames, k - 1, e.0) && Sat(u, e.0) :: Sat(u, e.2)
  }

  lemma StrengthenKeepsInv(sys: BitSystem, before: Frames, after: Frames, k: nat, u: IC3Formula)
    requires FrameInv(sys, before) && Learnable(sys, before, k, u)
    requires Strengthened(sys, before, after, k, u)
    requires after[0] == [] && Clauses(after)
    ensures FrameInv(sys, after)
  {
    forall s | s in sys.init ensures InFrame(sys, after, 1, s) {
      assert InFrame(sys, before, 1, s);
    }
    forall e, i | e in sys.trans && 0 <= i < |after| - 1 && InFrame(sys, after, i, e.0)
      ensures InFrame(sys, after, i + 1, e.2)
    {
      assert InFrame(sys, before, i, e.0);
      assert InFrame(sys, before, i + 1, e.2);
      if i + 1 <= k {
        FramesGrow(sys, before, i, k - 1, e.0);
        assert Sat(u, e.0);
      }
    }
  }

  // ---------------------------------------------------------------- storing a clause

  /** constrain_frame_label and the push at the end of constrain_frame. */
  function Append(frames: Frames, k: nat, u: IC3Formula): Frames
    requires k < |frames|
  {
    frames[k := frames[k] + [u]]
  }

  lemma AppendStrengthens(sys: BitSystem, frames: Frames, k: nat, u: IC3Formula)
    requires k < |frames|
    ensures Strengthened(sys, frames, Append(frames, k, u), k, u)
  {
    var after := Append(frames, k, u);
    forall i: nat, s: State | i >= 1
      ensures InFrame(sys, after, i, s) <==> InFrame(sys, frames, i, s) && (i <= k ==> Sat(u, s))
    {
      if From(after, i, s) {
        forall j | i <= j < |frames| ensures AllSat(frames[j], s) {
          assert AllSat(after[j], s);
        }
        if i <= k {
          assert AllSat(after[k], s);
          assert u in after[k];
        }
      }
      if From(frames, i, s) && (i <= k ==> Sat(u, s)) {
        forall j | i <= j < |frames| ensures AllSat(after[j], s) {
          assert AllSat(frames[j], s);
        }
      }
    }
  }

  /** What dropping subsumed clauses may do to the frames up to k. */
  ghost predicate Pruned(before: Frames, after: Frames, k: nat, u: IC3Formula) {
    && |after| == |before|
    && forall j | 0 <= j < |before| ::
         && (forall c | c in after[j] :: c in before[j])
         && (forall c | c in before[j] :: c in after[j] || (j <= k && c.disjunction && Subsumes(u, c)))
  }

  /** Storing u at level k: exactly the clauses it subsumes go from the frames up to k, if it is new. */
  ghost predicate Stored(before: Frames, after: Frames, k: nat, u: IC3Formula, isNew: bool) {
    && |after| == |before|
    && forall j, c | 0 <= j < |before| ::
         c in after[j] <==> (j == k && c == u) || (c in before[j] && !(isNew && 1 <= j <= k && Subsumes(u, c)))
  }

  lemma PruneThenAppend(sys: BitSystem, before: Frames, after: Frames, k: nat, u: IC3Formula)
    requires k < |before| && Pruned(before, after, k, u) && u.disjunction
    ensures Strengthened(sys, before, Append(after, k, u), k, u)
  {
    var final := Append(after, k, u);
    AppendStrengthens(sys, after, k, u);
    forall i: nat, s: State | i >= 1
      ensures InFrame(sys, final, i, s) <==> InFrame(sys, before, i, s) && (i <= k ==> Sat(u, s))
    {
      if From(before, i, s) {
        forall j | i <= j < |after| ensures AllSat(after[j], s) {
          assert AllSat(before[j], s);
        }
      }
      if From(after, i, s) && (i <= k ==> Sat(u, s)) {
        forall j | i <= j < |before| ensures AllSat(before[j], s) {
          assert AllSat(after[j], s);
          forall c | c in before[j] ensures Sat(c, s) {
            if c !in after[j] {
              SubsumedImplied(u, c, s);
            }
          }
        }
      }
    }
  }

  // ---------------------------------------------------------------- stored frames and solver labels

  /** Stored clauses and label-activated solver frames denote the same sets above level 0. */
  ghost predicate Agree(sys: BitSystem, frames: Frames, asserted: Frames) {
    && |frames| == |asserted|
    && forall i: nat, s: State | i >= 1 :: InFrame(sys, frames, i, s) <==> InFrame(sys, asserted, i, s)
  }

  /** The states assert_frame_labels(i) leaves: level 0 activates every frame besides Init. */
  predicate InLabels(sys: BitSystem, asserted: Frames, i: nat, s: State) {
    if i == 0 then s in sys.init && InFrame(sys, asserted, 1, s) else InFrame(sys, asserted, i, s)
  }

  lemma LabelsExact(sys: BitSystem, frames: Frames, asserted: Frames, i: nat, s: State)
    requires FrameInv(sys, frames) && Agree(sys, frames, asserted)
    ensures InLabels(sys, asserted, i, s) <==> InFrame(sys, frames, i, s)
  {
  }

  // ---------------------------------------------------------------- changes that keep the meaning

  ghost predicate SameMeaning(sys: BitSystem, before: Frames, after: Frames) {
    forall i: nat, s: State | i >= 1 :: InFrame(sys, before, i, s) <==> InFrame(sys, after, i, s)
  }

  lemma SameMeaningKeepsInv(sys: BitSystem, before: Frames, after: Frames, asserted: Frames)
    requires FrameInv(sys, before) && Agree(sys, before, asserted)
    requires SameMeaning(sys, before, after) && |after| == |before| && after[0] == [] && Clauses(after)
    ensures FrameInv(sys, after) && Agree(sys, after, asserted)
  {
    forall e, i | e in sys.trans && 0 <= i < |after| - 1 && InFrame(sys, after, i, e.0)
      ensures InFrame(sys, after, i + 1, e.2)
    {
      assert InFrame(sys, before, i, e.0);
      assert InFrame(sys, before, i + 1, e.2);
    }
    hide Clauses;
    hide InFrame;
  }

  /** Some clause of us implies c. */
  ghost predicate Implied(us: seq<IC3Formula>, c: IC3Formula) {
    exists u :: u in us && forall s | Sat(u, s) :: Sat(c, s)
  }

  /** Clauses of frame i that frame i + 1 implies may go. */
  lemma DropImplied(sys: BitSystem, before: Frames, after: Frames, i: nat)
    requires |after| == |before| && i + 1 < |before|
    requires forall m | 0 <= m < |before| && m != i :: after[m] == before[m]
    requires forall c | c in after[i] :: c in before[i]
    requires forall c | c in before[i] :: c in after[i] || Implied(before[i + 1], c)
    ensures SameMeaning(sys, before, after)
  {
  }

  /** push_frame: the new frame carries the property only. It may be opened once no state
      of the frontier steps into Bad. */
  lemma PushFrameKeepsInv(sys: BitSystem, frames: Frames, asserted: Frames)
    requires WellFormedBits(sys) && FrameInv(sys, frames) && Agree(sys, frames, asserted)
    requires forall e | e in sys.trans && InFrame(sys, frames, |frames| - 1, e.0) :: e.2 !in sys.bad
    ensures SameMeaning(sys, frames, frames + [[]])
    ensures FrameInv(sys, frames + [[]]) && Agree(sys, frames + [[]], asserted + [[]])
  {
    PushedSame(sys, frames);
    PushedSame(sys, asserted);
    var after := frames + [[]];
    forall e, i | e in sys.trans && 0 <= i < |after| - 1 && InFrame(sys, after, i, e.0)
      ensures InFrame(sys, after, i + 1, e.2)
    {
      assert InFrame(sys, frames, i, e.0);
      if i < |frames| - 1 {
        assert InFrame(sys, frames, i + 1, e.2);
      }
    }
    forall s | s in sys.init ensures InFrame(sys, after, 1, s) {
      assert InFrame(sys, frames, 1, s);
    }
  }

  lemma PushedSame(sys: BitSystem, frames: Frames)
    ensures SameMeaning(sys, frames, frames + [[]])
  {
    var after := frames + [[]];
    forall i: nat, s: State | i >= 1 ensures InFrame(sys, frames, i, s) <==> InFrame(sys, after, i, s) {
      if From(frames, i, s) {
        forall j | i <= j < |after| ensures AllSat(after[j], s) {
        }
      }
      if From(after, i, s) {
        forall j | i <= j < |frames| ensures AllSat(frames[j], s) {
          assert AllSat(after[j], s);
        }
      }
    }
  }

  // ---------------------------------------------------------------- comparing frames over a phase

  /** Every frame of after is contained in that of before. */
  ghost predicate Within(sys: BitSystem, after: Frames, before: Frames) {
    forall i: nat, s: State | i >= 1 && InFrame(sys, after, i, s) :: InFrame(sys, before, i, s)
  }

  /** Propagation from frame i only adds to the next one and leaves the others alone. */
  ghost predicate TouchesPair(before: Frames, after: Frames, i: nat) {
    && |after| == |before|
    && (forall m | 0 <= m < |before| && m != i && m != i + 1 :: after[m] == before[m])
    && (i + 1 < |before| ==> before[i + 1] <= after[i + 1])
  }

  /** Every frame below the frontier stores a clause. */
  ghost predicate NoneEmptied(frames: Frames) {
    forall m | 1 <= m < |frames| - 1 :: frames[m] != []
  }

  ghost predicate EqualFrames(sys: BitSystem, frames: Frames, i: nat) {
    forall s: State | InFrame(sys, frames, i + 1, s) :: InFrame(sys, frames, i, s)
  }

  ghost predicate LostState(sys: BitSystem, before: Frames, after: Frames, i: nat) {
    exists s :: InFrame(sys, before, i, s) && !InFrame(sys, after, i, s)
  }

  lemma StaysLost(sys: BitSystem, before: Frames, mid: Frames, after: Frames, i: nat)
    requires Within(sys, after, mid) && i >= 1
    ensures LostState(sys, before, mid, i) ==> LostState(sys, before, after, i)
  {
  }

  // ---------------------------------------------------------------- frames as sets

  function FrameSet(sys: BitSystem, frames: Frames, i: nat): set<State> {
    if i == 0 then sys.init else set s | s in States(sys.n) && InFrame(sys, frames, i, s)
  }

  lemma FrameSetExact(sys: BitSystem, frames: Frames, i: nat, s: State)
    ensures s in FrameSet(sys, frames, i) <==> InFrame(sys, frames, i, s)
  {
    StatesExact(sys.n, s);
  }

  /** An emptied frame: j stores nothing, so the frames j and j + 1 coincide. */
  lemma EmptyFrameProves(sys: BitSystem, frames: Frames, j: nat)
    requires WellFormedBits(sys) && FrameInv(sys, frames) && 1 <= j < |frames| - 1 && frames[j] == []
    ensures Invariant(sys.Ts(), FrameSet(sys, frames, j + 1))
  {
    var r := FrameSet(sys, frames, j + 1);
    forall s: State ensures s in r <==> InFrame(sys, frames, j + 1, s) {
      FrameSetExact(sys, frames, j + 1, s);
    }
    forall s: State | InFrame(sys, frames, j + 1, s) ensures InFrame(sys, frames, j, s) {
      forall k | j <= k < |frames| ensures AllSat(frames[k], s) {
      }
    }
    forall s | s in sys.init ensures s in r {
      FramesGrow(sys, frames, 0, j + 1, s);
    }
    forall e | e in sys.Ts().trans && e.0 in r ensures e.1 in r {
      var d :| d in sys.trans && e == (d.0, d.2);
      assert InFrame(sys, frames, j, d.0);
    }
  }
}
