/**
 * The search of the solver: propagation of forced placements and
 * backtracking on a constraint with exactly two candidates left.
 *
 * Its state is the stack w0s of placements to commit, the array q2nw of
 * per-constraint counts, the set takens of placements that are committed or
 * eliminated, and the set ws of committed placements.  A placement is live
 * while it is not in takens.  The search reads the tables w2q, q2w and w2q2w
 * as globals; here they are one parameter whose validity is stated in terms
 * of incidence alone.
 */
module Search {

  import opened Ordering
  import opened Tables

  /** How a call of search ends: the Completed exception, a KeyError, or a ValueError. */
  datatype Outcome = Completed(ws: set<int>) | DeadEnd | NoBranchPoint

  /** Where list.index finds a value, if it does. */
  datatype Position = At(index: nat) | Absent

  /** The three lookup tables. */
  datatype Index = Index(w2q: seq<seq<int>>, q2w: seq<set<int>>, w2q2w: seq<set<int>>)

  predicate Placements(s: set<int>)
  {
    forall w :: w in s ==> IsPlacement(w)
  }

  predicate StackOk(w0s: seq<int>)
  {
    forall i :: 0 <= i < |w0s| ==> IsPlacement(w0s[i])
  }

  /**
   * What the search needs of the tables: each placement has four distinct
   * constraints, each constraint nine placements, q2w is the inverse of w2q,
   * and w2q2w[w] gathers the placements of the constraints of w.
   */
  predicate IndexOk(x: Index)
  {
    |x.w2q| == 729 && |x.q2w| == 324 && |x.w2q2w| == 729 &&
    (forall w :: 0 <= w < 729 ==> |x.w2q[w]| == 4) &&
    (forall w, i :: 0 <= w < 729 && 0 <= i < |x.w2q[w]| ==> IsConstraint(x.w2q[w][i])) &&
    (forall w, i, j :: 0 <= w < 729 && 0 <= i < j < |x.w2q[w]| ==> x.w2q[w][i] != x.w2q[w][j]) &&
    (forall q :: 0 <= q < 324 ==> |x.q2w[q]| == 9 && Placements(x.q2w[q])) &&
    (forall q, w :: 0 <= q < 324 && 0 <= w < 729 ==> (w in x.q2w[q] <==> q in x.w2q[w])) &&
    (forall w :: 0 <= w < 729 ==>
      x.w2q2w[w] == x.q2w[x.w2q[w][0]] + x.q2w[x.w2q[w][1]] + x.q2w[x.w2q[w][2]] + x.q2w[x.w2q[w][3]])
  }

  /** The live placements that cover q. */
  function Live(x: Index, q: int, takens: set<int>): set<int>
    requires IndexOk(x) && IsConstraint(q)
  {
    x.q2w[q] - takens
  }

  /** Some committed placement covers q. */
  predicate Covered(x: Index, ws: set<int>, q: int)
    requires IndexOk(x) && IsConstraint(q)
  {
    ws * x.q2w[q] != {}
  }

  /** An uncovered constraint without live placements: the search cannot go on. */
  predicate Blocked(x: Index, q: int, takens: set<int>, ws: set<int>)
    requires IndexOk(x) && IsConstraint(q)
  {
    !Covered(x, ws, q) && Live(x, q, takens) == {}
  }

  /**
   * The count of a constraint: its number of live placements, plus at least
   * 100 once a committed placement covers it.
   */
  predicate CountOk(n: int, live: int, covered: bool)
  {
    if covered then n >= 100 + live else n == live
  }

  predicate CountAt(x: Index, c: seq<int>, q: int, takens: set<int>, ws: set<int>, pending: set<int>)
    requires IndexOk(x) && |c| == 324 && IsConstraint(q)
  {
    CountOk(c[q], |Live(x, q, takens)| + (if q in pending then 1 else 0), Covered(x, ws, q))
  }

  /**
   * The count invariant of q2nw.  Constraints in pending have lost a live
   * placement whose decrement is still to come.
   */
  predicate Counts(x: Index, c: seq<int>, takens: set<int>, ws: set<int>, pending: set<int>)
    requires IndexOk(x)
  {
    |c| == 324 && forall q :: 0 <= q < 324 ==> CountAt(x, c, q, takens, ws, pending)
  }

  /**
   * Every taken placement is ruled out by the committed ones: it is one of
   * them or shares a constraint with one of them.
   */
  predicate RuledOut(x: Index, takens: set<int>, ws: set<int>)
    requires IndexOk(x)
  {
    forall v {:trigger Ruled(x, v, ws)} :: v in takens ==> Ruled(x, v, ws)
  }

  /** Placement v is committed or shares a constraint with a committed placement. */
  predicate Ruled(x: Index, v: int, ws: set<int>)
    requires IndexOk(x)
  {
    exists w :: w in ws && IsPlacement(w) && v in x.w2q2w[w]
  }

  /**
   * The invariant of the search state: committed placements are taken, every
   * placement in conflict with a committed one is taken and nothing else is,
   * and the counts match.
   */
  predicate Consistent(x: Index, c: seq<int>, takens: set<int>, ws: set<int>)
    requires IndexOk(x)
  {
    Placements(takens) && ws <= takens &&
    (forall w :: w in ws ==> IsPlacement(w) && x.w2q2w[w] <= takens) &&
    RuledOut(x, takens, ws) && Counts(x, c, takens, ws, {})
  }

  /** f is the last live placement of an uncovered constraint: a forced move. */
  predicate ForcedMove(x: Index, f: int, takens: set<int>, ws: set<int>)
    requires IndexOk(x)
  {
    exists q :: 0 <= q < 324 && !Covered(x, ws, q) && Live(x, q, takens) == {f}
  }

  /** A complete solution: 81 placements that cover every constraint exactly once. */
  ghost predicate ExactCover(x: Index, G: set<int>)
    requires IndexOk(x)
  {
    Placements(G) && |G| == 81 &&
    forall q :: 0 <= q < 324 ==> |G * x.q2w[q]| == 1
  }

  /**
   * The state can still be completed to the solution G: what is committed and
   * what is stacked belongs to G, and no placement of G was eliminated.
   */
  ghost predicate Extends(x: Index, G: set<int>, w0s: seq<int>, takens: set<int>, ws: set<int>)
    requires IndexOk(x)
  {
    ExactCover(x, G) && ws <= G &&
    (forall i :: 0 <= i < |w0s| ==> w0s[i] in G) &&
    G * takens <= ws
  }

  /** Every placement of G not yet committed is on the stack. */
  ghost predicate Pending(G: set<int>, w0s: seq<int>, ws: set<int>)
  {
    forall g :: g in G && g !in ws ==> g in w0s
  }

  /**
   * The second half of the termination measure: 0 when the top of the stack
   * is live, 2 otherwise; a branch sits at 1 in between.
   */
  function Rank(w0s: seq<int>, takens: set<int>): int
  {
    if w0s != [] && w0s[|w0s| - 1] !in takens then 0 else 2
  }

  /** No two committed placements share a constraint. */
  predicate Disjoint(x: Index, ws: set<int>)
    requires IndexOk(x)
  {
    forall w, v :: w in ws && v in ws && w != v && 0 <= w < 729 ==> v !in x.w2q2w[w]
  }

  /** Every placement on the stack is committed already or is a forced move. */
  predicate Justified(x: Index, s: seq<int>, takens: set<int>, ws: set<int>)
    requires IndexOk(x)
  {
    forall i :: 0 <= i < |s| ==> s[i] in ws || ForcedMove(x, s[i], takens, ws)
  }

  /**
   * The stack below its top is justified, and the top is committed already
   * or live: what a branch or a fallback push leaves on the stack.
   */
  predicate Sound(x: Index, s: seq<int>, takens: set<int>, ws: set<int>)
    requires IndexOk(x)
  {
    s == [] || (Justified(x, s[..|s| - 1], takens, ws) && (s[|s| - 1] in ws || s[|s| - 1] !in takens))
  }

  /**
   * A state from which every commit keeps the committed placements
   * disjoint: a sound stack, or a stack on its way to a solution.
   */
  ghost predicate Safe(x: Index, G: set<int>, s: seq<int>, takens: set<int>, ws: set<int>)
    requires IndexOk(x)
  {
    Disjoint(x, ws) && (Sound(x, s, takens, ws) || Extends(x, G, s, takens, ws))
  }

  /** Some uncovered constraint has no live placement left: the pop of a forced move fails. */
  predicate Stuck(x: Index, takens: set<int>, ws: set<int>)
    requires IndexOk(x)
  {
    exists q :: 0 <= q < 324 && Blocked(x, q, takens, ws)
  }

  /** Every uncovered constraint has at least two live placements: nothing is forced and nothing is blocked. */
  predicate Fixpoint(x: Index, takens: set<int>, ws: set<int>)
    requires IndexOk(x)
  {
    forall q :: 0 <= q < 324 && !Covered(x, ws, q) ==> |Live(x, q, takens)| >= 2
  }

  /** When q is uncovered with fewer than two live placements, one of them waits on the stack s. */
  predicate ForcedOn(x: Index, q: int, s: seq<int>, takens: set<int>, ws: set<int>)
    requires IndexOk(x) && IsConstraint(q)
  {
    !Covered(x, ws, q) && |Live(x, q, takens)| < 2 ==> Live(x, q, takens) * Elems(s) != {}
  }

  /**
   * The forcing invariant of the inner loop: every constraint that a
   * decrement brought below two has its last live placement on the stack.
   */
  predicate Forcing(x: Index, s: seq<int>, takens: set<int>, ws: set<int>)
    requires IndexOk(x)
  {
    forall q :: 0 <= q < 324 ==> ForcedOn(x, q, s, takens, ws)
  }

  /**
   * A consistent fixpoint of propagation with at most 80 committed
   * placements and no count at 2: the search for a branch point fails.
   */
  predicate Stalled(x: Index, c: seq<int>, takens: set<int>, ws: set<int>)
    requires IndexOk(x)
  {
    Consistent(x, c, takens, ws) && Fixpoint(x, takens, ws) && |ws| <= 80 && forall q :: 0 <= q < 324 ==> c[q] != 2
  }

  /**
   * The state (c, t, d) where a search from (takens, ws) stopped, with more
   * taken and committed, bears out its failure: for a dead end, stuck with
   * every taken placement ruled out by the committed ones; for a missing
   * branch point, stalled.
   */
  ghost predicate Evidence(x: Index, takens: set<int>, ws: set<int>, o: Outcome, c: seq<int>, t: set<int>, d: set<int>)
  {
    IndexOk(x) && takens <= t && ws <= d &&
    (o.DeadEnd? ==> Stuck(x, t, d) && RuledOut(x, t, d)) && (o.NoBranchPoint? ==> Stalled(x, c, t, d))
  }

  /**
   * A dead end refutes what is committed: when every taken placement is ruled
   * out by the committed ones and some uncovered constraint has no live
   * placement, no solution contains the committed placements.
   */
  lemma {:induction false} DeadEndRefutes(x: Index, G: set<int>, t: set<int>, d: set<int>)
    requires IndexOk(x) && Stuck(x, t, d) && RuledOut(x, t, d)
    ensures !(ExactCover(x, G) && d <= G)
  {
    if ExactCover(x, G) && d <= G {
      forall g | g in G * t ensures g in d {
        assert Ruled(x, g, d);
        var w :| w in d && IsPlacement(w) && g in x.w2q2w[w];
        if g != w {
          ConflictOutside(x, G, w, g);
        }
      }
      var q :| 0 <= q < 324 && Blocked(x, q, t, d);
      NotBlocked(x, G, d, t, q);
    }
  }

  /**
   * A stalled state has no constraint to branch on: every uncovered
   * constraint keeps at least three live placements.
   */
  lemma {:induction false} StalledWide(x: Index, c: seq<int>, t: set<int>, d: set<int>)
    requires IndexOk(x) && Stalled(x, c, t, d)
    ensures forall q :: 0 <= q < 324 && !Covered(x, d, q) ==> |Live(x, q, t)| >= 3
  {
    forall q | 0 <= q < 324 && !Covered(x, d, q) ensures |Live(x, q, t)| >= 3 {
      assert CountAt(x, c, q, t, d, {});
    }
  }

  /** Committing w0 and taking some of its conflicts keeps the taken placements ruled out. */
  lemma {:induction false} RuledOutCommit(x: Index, takens: set<int>, ws: set<int>, w0: int, takens': set<int>)
    requires IndexOk(x) && IsPlacement(w0) && RuledOut(x, takens, ws) && takens' <= takens + x.w2q2w[w0]
    ensures RuledOut(x, takens', ws + {w0})
  {
    forall v | v in takens' ensures Ruled(x, v, ws + {w0}) {
      if v !in x.w2q2w[w0] {
        assert Ruled(x, v, ws);
        var w :| w in ws && IsPlacement(w) && v in x.w2q2w[w];
        assert w in ws + {w0};
      }
    }
  }

  /** A fixpoint is exactly a state without a blocked constraint or a forced move. */
  lemma {:induction false} FixpointMeaning(x: Index, takens: set<int>, ws: set<int>)
    requires IndexOk(x)
    ensures Fixpoint(x, takens, ws) <==> !Stuck(x, takens, ws) && forall f :: !ForcedMove(x, f, takens, ws)
  {
    if !Stuck(x, takens, ws) && forall f :: !ForcedMove(x, f, takens, ws) {
      forall q | 0 <= q < 324 && !Covered(x, ws, q) ensures |Live(x, q, takens)| >= 2 {
        var live := Live(x, q, takens);
        assert !Blocked(x, q, takens, ws);
        Pick(live);
        var f :| f in live;
        assert live != {f} by {
          assert !ForcedMove(x, f, takens, ws);
        }
        assert live == (live - {f}) + {f};
        RemoveOne(live, f);
      }
    }
    if Fixpoint(x, takens, ws) {
      forall q | 0 <= q < 324 && !Covered(x, ws, q)
        ensures Live(x, q, takens) != {} && forall f :: Live(x, q, takens) != {f}
      {
        assert |Live(x, q, takens)| >= 2;
      }
    }
  }

  /** With nothing left on the stack, the forcing invariant is the fixpoint; a fixpoint meets it for any stack. */
  lemma {:induction false} ForcingEmpty(x: Index, s: seq<int>, takens: set<int>, ws: set<int>)
    requires IndexOk(x)
    ensures Forcing(x, [], takens, ws) <==> Fixpoint(x, takens, ws)
    ensures Fixpoint(x, takens, ws) ==> Forcing(x, s, takens, ws)
  {
    assert Elems([]) == {};
    if Forcing(x, [], takens, ws) {
      forall q | 0 <= q < 324 && !Covered(x, ws, q) ensures |Live(x, q, takens)| >= 2 {
        assert ForcedOn(x, q, [], takens, ws);
      }
    }
  }

  /** Pushing onto the stack keeps what waits on it. */
  lemma {:induction false} ForcedOnGrow(x: Index, q: int, s: seq<int>, s': seq<int>, takens: set<int>, ws: set<int>)
    requires IndexOk(x) && IsConstraint(q) && |s| <= |s'| && s'[..|s|] == s
    requires ForcedOn(x, q, s, takens, ws)
    ensures ForcedOn(x, q, s', takens, ws)
  {
    forall v | v in Elems(s) ensures v in Elems(s') {
      var i :| 0 <= i < |s| && s[i] == v;
      assert s'[i] == s'[..|s|][i];
    }
    assert Live(x, q, takens) * Elems(s) <= Live(x, q, takens) * Elems(s');
  }

  /** A failed elimination leaves a blocked constraint. */
  lemma {:induction false} BlockedStuck(x: Index, w: int, takens: set<int>, ws: set<int>)
    requires IndexOk(x) && IsPlacement(w)
    requires !(forall i :: 0 <= i < 4 ==> !Blocked(x, x.w2q[w][i], takens, ws))
    ensures Stuck(x, takens, ws)
  {
    var i :| 0 <= i < 4 && Blocked(x, x.w2q[w][i], takens, ws);
    assert 0 <= x.w2q[w][i] < 324;
  }

  lemma {:induction false} RemoveOne(s: set<int>, v: int)
    ensures v in s ==> |s - {v}| == |s| - 1
    ensures v !in s ==> s - {v} == s
  {
    if v in s {
      assert s == (s - {v}) + {v};
    }
  }

  lemma {:induction false} SingletonMember(s: set<int>, a: int, b: int)
    requires |s| <= 1 && a in s && b in s
    ensures a == b
  {
    RemoveOne(s, a);
    assert s - {a} == {};
  }

  /** A non-empty set of placements has an element to pick. */
  lemma {:induction false} Pick(s: set<int>)
    requires s != {} && Placements(s)
    ensures exists v :: v in s
  {
    assert |s| != 0;
    var r := Sorted(s, 729);
    assert r[0] in Elems(r);
  }

  /** Taking a live placement w leaves each of its constraints one decrement behind. */
  lemma {:induction false} CountsTake(x: Index, c: seq<int>, takens: set<int>, ws: set<int>, w: int)
    requires IndexOk(x) && Counts(x, c, takens, ws, {}) && IsPlacement(w) && w !in takens
    ensures Counts(x, c, takens + {w}, ws, Elems(x.w2q[w]))
  {
    forall q | 0 <= q < 324
      ensures CountAt(x, c, q, takens + {w}, ws, Elems(x.w2q[w]))
    {
      assert CountAt(x, c, q, takens, ws, {});
      assert Live(x, q, takens + {w}) == Live(x, q, takens) - {w};
      RemoveOne(Live(x, q, takens), w);
      assert q in Elems(x.w2q[w]) <==> w in x.q2w[q];
    }
  }

  /** Decrementing a pending constraint brings its count back in line. */
  lemma {:induction false} CountsDecrement(x: Index, c: seq<int>, takens: set<int>, ws: set<int>, pending: set<int>, q: int)
    requires IndexOk(x) && Counts(x, c, takens, ws, pending) && q in pending && IsConstraint(q)
    ensures Counts(x, c[q := c[q] - 1], takens, ws, pending - {q})
  {
    var c' := c[q := c[q] - 1];
    forall p | 0 <= p < 324
      ensures CountAt(x, c', p, takens, ws, pending - {q})
    {
      assert CountAt(x, c, p, takens, ws, pending);
    }
  }

  /** Committing w0: its four constraints become covered and gain 100. */
  lemma {:induction false} CountsCommit(x: Index, c: seq<int>, c': seq<int>, takens: set<int>, ws: set<int>, w0: int)
    requires IndexOk(x) && Counts(x, c, takens, ws, {}) && IsPlacement(w0) && |c'| == 324
    requires forall q :: 0 <= q < 324 ==> c'[q] == c[q] + (if q in x.w2q[w0] then 100 else 0)
    ensures Counts(x, c', takens + {w0}, ws + {w0}, {})
  {
    forall q | 0 <= q < 324
      ensures CountAt(x, c', q, takens + {w0}, ws + {w0}, {})
    {
      assert CountAt(x, c, q, takens, ws, {});
      assert Live(x, q, takens + {w0}) == Live(x, q, takens) - {w0};
      RemoveOne(Live(x, q, takens), w0);
      if q in x.w2q[w0] {
        assert w0 in (ws + {w0}) * x.q2w[q];
      } else {
        assert (ws + {w0}) * x.q2w[q] == ws * x.q2w[q];
      }
    }
  }

  /** The constraints of a placement are distinct, so each is pending once. */
  lemma {:induction false} IndexTail(x: Index, w: int, i: int)
    requires IndexOk(x) && IsPlacement(w) && 0 <= i < 4
    ensures Elems(x.w2q[w][i + 1..]) == Elems(x.w2q[w][i..]) - {x.w2q[w][i]}
  {
    var qs := x.w2q[w];
    assert forall j :: i < j < 4 ==> qs[j] != qs[i];
  }

  /** An uncovered constraint still has a live placement of the solution G. */
  lemma {:induction false} CoverWitness(x: Index, G: set<int>, ws: set<int>, takens: set<int>, q: int)
    requires IndexOk(x) && ExactCover(x, G) && ws <= G && G * takens <= ws
    requires IsConstraint(q) && !Covered(x, ws, q)
    ensures exists g :: g in G && g in Live(x, q, takens)
  {
    assert |G * x.q2w[q]| == 1;
    assert G * x.q2w[q] != {};
    Pick(G * x.q2w[q]);
    var g :| g in G * x.q2w[q];
    assert g !in ws * x.q2w[q];
    assert g !in ws;
  }

  /** On the way to a solution, no constraint is blocked. */
  lemma {:induction false} NotBlocked(x: Index, G: set<int>, ws: set<int>, takens: set<int>, q: int)
    requires IndexOk(x) && ExactCover(x, G) && ws <= G && G * takens <= ws && IsConstraint(q)
    ensures !Blocked(x, q, takens, ws)
  {
    if !Covered(x, ws, q) {
      CoverWitness(x, G, ws, takens, q);
    }
  }

  /** On the way to a solution, every forced move belongs to it. */
  lemma {:induction false} ForcedInSolution(x: Index, G: set<int>, ws: set<int>, takens: set<int>, f: int)
    requires IndexOk(x) && ExactCover(x, G) && ws <= G && G * takens <= ws
    requires ForcedMove(x, f, takens, ws)
    ensures f in G
  {
    var q :| 0 <= q < 324 && !Covered(x, ws, q) && Live(x, q, takens) == {f};
    CoverWitness(x, G, ws, takens, q);
  }

  /** A placement in conflict with a placement of a solution is not part of it. */
  lemma {:induction false} ConflictOutside(x: Index, G: set<int>, w0: int, w: int)
    requires IndexOk(x) && ExactCover(x, G) && IsPlacement(w0) && w0 in G
    requires w in x.w2q2w[w0] && w != w0
    ensures w !in G
  {
    var qs := x.w2q[w0];
    var k :| 0 <= k < 4 && w in x.q2w[qs[k]];
    assert qs[k] in qs;
    assert w0 in x.q2w[qs[k]];
    if w in G {
      SingletonMember(G * x.q2w[qs[k]], w0, w);
    }
  }

  /** Sharing a constraint is symmetric. */
  lemma {:induction false} ConflictSymmetric(x: Index, w: int, v: int)
    requires IndexOk(x) && IsPlacement(w) && IsPlacement(v) && v in x.w2q2w[w]
    ensures w in x.w2q2w[v]
  {
    var i :| 0 <= i < 4 && v in x.q2w[x.w2q[w][i]];
    var q := x.w2q[w][i];
    assert q in x.w2q[v];
    var j :| 0 <= j < 4 && x.w2q[v][j] == q;
    assert w in x.q2w[x.w2q[v][j]];
  }

  /** Committing a live placement keeps the committed placements disjoint. */
  lemma {:induction false} CommitDisjoint(x: Index, takens: set<int>, ws: set<int>, w0: int)
    requires IndexOk(x) && Disjoint(x, ws) && IsPlacement(w0) && (w0 in ws || w0 !in takens)
    requires forall w :: w in ws ==> IsPlacement(w) && x.w2q2w[w] <= takens
    ensures Disjoint(x, ws + {w0})
  {
    if w0 !in ws {
      forall w | w in ws ensures w !in x.w2q2w[w0] && w0 !in x.w2q2w[w] {
        if w in x.w2q2w[w0] {
          ConflictSymmetric(x, w0, w);
        }
      }
    }
  }

  /** A forced move stays forced when another live placement is committed. */
  lemma {:induction false} ForcedAfterCommit(x: Index, f: int, takens: set<int>, ws: set<int>, w0: int)
    requires IndexOk(x) && ForcedMove(x, f, takens, ws) && f != w0 && (w0 in ws || w0 !in takens)
    ensures ForcedMove(x, f, takens + {w0}, ws + {w0})
  {
    var q :| 0 <= q < 324 && !Covered(x, ws, q) && Live(x, q, takens) == {f};
    var cover, live := x.q2w[q], Live(x, q, takens);
    assert w0 in cover ==> w0 in ws * cover || w0 in live;
    assert Live(x, q, takens + {w0}) == {f};
    assert !Covered(x, ws + {w0}, q);
  }

  /** Committing the top of a sound stack leaves the rest justified. */
  lemma {:induction false} JustifiedCommit(x: Index, s: seq<int>, takens: set<int>, ws: set<int>, w0: int)
    requires IndexOk(x) && Justified(x, s, takens, ws) && (w0 in ws || w0 !in takens)
    ensures Justified(x, s, takens + {w0}, ws + {w0})
  {
    forall i | 0 <= i < |s| ensures s[i] in ws + {w0} || ForcedMove(x, s[i], takens + {w0}, ws + {w0}) {
      if s[i] !in ws + {w0} {
        ForcedAfterCommit(x, s[i], takens, ws, w0);
      }
    }
  }

  /**
   * A forced move stays forced when a placement is taken without blocking
   * any of its constraints: taking the forced move itself would block the
   * constraint that forced it.
   */
  lemma {:induction false} ForcedAfterTake(x: Index, f: int, takens: set<int>, ws: set<int>, w: int)
    requires IndexOk(x) && IsPlacement(w) && ForcedMove(x, f, takens, ws)
    requires forall i :: 0 <= i < 4 ==> !Blocked(x, x.w2q[w][i], takens + {w}, ws)
    ensures ForcedMove(x, f, takens + {w}, ws)
  {
    var q :| 0 <= q < 324 && !Covered(x, ws, q) && Live(x, q, takens) == {f};
    assert f in x.q2w[q];
    var i :| 0 <= i < 4 && x.w2q[f][i] == q;
    assert Live(x, q, takens + {w}) == {f} - {w};
  }

  /** Taking a placement without blocking keeps a justified stack justified. */
  lemma {:induction false} JustifiedTake(x: Index, before: seq<int>, after: seq<int>, takens: set<int>, ws: set<int>, w: int)
    requires IndexOk(x) && IsPlacement(w) && Justified(x, before, takens, ws)
    requires forall i :: 0 <= i < 4 ==> !Blocked(x, x.w2q[w][i], takens + {w}, ws)
    requires |before| <= |after| && after[..|before|] == before
    requires forall k :: |before| <= k < |after| ==> ForcedMove(x, after[k], takens + {w}, ws)
    ensures Justified(x, after, takens + {w}, ws)
  {
    forall k | 0 <= k < |after| ensures after[k] in ws || ForcedMove(x, after[k], takens + {w}, ws) {
      if k < |before| {
        assert after[k] == before[k];
        if after[k] !in ws {
          ForcedAfterTake(x, after[k], takens, ws, w);
        }
      }
    }
  }

  /** A justified stack is sound: a forced move is live. */
  lemma {:induction false} JustifiedSound(x: Index, s: seq<int>, takens: set<int>, ws: set<int>)
    requires IndexOk(x) && Justified(x, s, takens, ws)
    ensures Sound(x, s, takens, ws)
  {
    if s != [] {
      var top := s[|s| - 1];
      if top !in ws {
        var q :| 0 <= q < 324 && !Covered(x, ws, q) && Live(x, q, takens) == {top};
        assert top in Live(x, q, takens);
      }
    }
  }

  /** Pushing a placement of the solution on an empty stack keeps the state on its way to it. */
  lemma {:induction false} ExtendsSingle(x: Index, G: set<int>, w: int, takens: set<int>, ws: set<int>)
    requires IndexOk(x) && Extends(x, G, [], takens, ws) && w in G
    ensures Extends(x, G, [w], takens, ws)
  {
  }

  /** A single live placement on the stack is sound. */
  lemma {:induction false} SafeSingle(x: Index, G: set<int>, w: int, takens: set<int>, ws: set<int>)
    requires IndexOk(x) && Disjoint(x, ws) && w !in takens
    ensures Safe(x, G, [w], takens, ws)
  {
    assert [w][..0] == [];
  }

  /** Taking more placements shrinks the set of placements not yet taken. */
  lemma {:induction false} TakeMore(takens: set<int>, takens': set<int>)
    requires takens <= takens' && takens != takens' && Placements(takens')
    ensures AllPlacements() - takens' < AllPlacements() - takens
  {
    var d := takens' - takens;
    assert takens' == takens + d;
    assert d != {};
    Pick(d);
    var w :| w in d;
    assert IsPlacement(w) && 0 <= w < 729;
    assert w in AllPlacements() - takens;
  }

  /**
   * Committing the top of the stack and pushing forced moves above the rest
   * keeps every placement of the original stack committed or still in place.
   */
  lemma {:induction false} StackStep(w0s: seq<int>, stack: seq<int>, rest: seq<int>, w0: int, stack': seq<int>,
                                     ws: set<int>, ws': set<int>)
    requires stack == rest + [w0] && ws' == ws + {w0}
    requires |rest| <= |stack'| && stack'[..|rest|] == rest
    requires forall i :: 0 <= i < |w0s| ==> w0s[i] in ws || (i < |stack| && stack[i] == w0s[i])
    ensures forall i :: 0 <= i < |w0s| ==> w0s[i] in ws' || (i < |stack'| && stack'[i] == w0s[i])
  {
    forall i | 0 <= i < |w0s| && w0s[i] !in ws'
      ensures i < |stack'| && stack'[i] == w0s[i]
    {
      assert i < |stack| && stack[i] == w0s[i];
      assert i != |rest|;
      assert stack'[i] == stack'[..|rest|][i] == rest[i];
    }
  }

  /**
   * One commit from a safe state: the committed placements stay disjoint,
   * and the new stack stays sound (when the rest was justified) or on its
   * way to the solution.
   */
  lemma {:induction false} SafeStep(x: Index, G: set<int>, rest: seq<int>, w0: int, takens: set<int>, ws: set<int>,
                                    s': seq<int>, takens': set<int>, ws': set<int>)
    requires IndexOk(x) && Safe(x, G, rest + [w0], takens, ws) && IsPlacement(w0)
    requires forall w :: w in ws ==> IsPlacement(w) && x.w2q2w[w] <= takens
    requires ws' == ws + {w0}
    requires Extends(x, G, rest + [w0], takens, ws) ==> Extends(x, G, s', takens', ws')
    requires Justified(x, rest, takens + {w0}, ws') ==> Justified(x, s', takens', ws')
    ensures Safe(x, G, s', takens', ws')
  {
    var s := rest + [w0];
    assert s[|s| - 1] == w0 && s[..|s| - 1] == rest;
    if Extends(x, G, s, takens, ws) {
      assert w0 in G;
    } else {
      JustifiedCommit(x, rest, takens, ws, w0);
      JustifiedSound(x, s', takens', ws');
    }
    CommitDisjoint(x, takens, ws, w0);
  }

  /**
   * Taking w keeps the forcing invariant when each constraint of w that drops
   * below two live placements has its last one pushed; the other
   * constraints keep their live placements.
   */
  lemma {:induction false} ForcingTake(x: Index, w: int, before: seq<int>, after: seq<int>, takens: set<int>, ws: set<int>)
    requires IndexOk(x) && IsPlacement(w) && Forcing(x, before, takens, ws)
    requires |before| <= |after| && after[..|before|] == before
    requires forall i :: 0 <= i < 4 ==> ForcedOn(x, x.w2q[w][i], after, takens + {w}, ws)
    ensures Forcing(x, after, takens + {w}, ws)
  {
    forall q | 0 <= q < 324 ensures ForcedOn(x, q, after, takens + {w}, ws) {
      if q in x.w2q[w] {
        var i :| 0 <= i < 4 && x.w2q[w][i] == q;
      } else {
        assert w !in x.q2w[q];
        assert Live(x, q, takens + {w}) == Live(x, q, takens);
        assert ForcedOn(x, q, before, takens, ws);
        ForcedOnGrow(x, q, before, after, takens, ws);
      }
    }
  }

  /**
   * Committing the top w0 of the stack keeps the forcing invariant for the
   * rest: the constraints of w0 become covered, and no other constraint
   * was waiting on w0.
   */
  lemma {:induction false} ForcingCommit(x: Index, rest: seq<int>, w0: int, takens: set<int>, ws: set<int>)
    requires IndexOk(x) && IsPlacement(w0) && Forcing(x, rest + [w0], takens, ws)
    ensures Forcing(x, rest, takens + {w0}, ws + {w0})
  {
    forall q | 0 <= q < 324 ensures ForcedOn(x, q, rest, takens + {w0}, ws + {w0}) {
      if !Covered(x, ws + {w0}, q) && |Live(x, q, takens + {w0})| < 2 {
        assert w0 in ws + {w0} && (ws + {w0}) * x.q2w[q] == {};
        assert ws * x.q2w[q] <= (ws + {w0}) * x.q2w[q];
        assert Live(x, q, takens + {w0}) == Live(x, q, takens);
        assert ForcedOn(x, q, rest + [w0], takens, ws);
        assert Elems(rest + [w0]) == Elems(rest) + {w0};
        assert Live(x, q, takens) * Elems(rest + [w0]) == Live(x, q, takens) * Elems(rest);
      }
    }
  }

  /**
   * After a decrement: a constraint whose new count n is below two pushes
   * its last live placement, or fails (popping from an empty set raises
   * KeyError) when none is left.
   */
  method PushForced(x: Index, q: int, n: int, w0s: seq<int>, takens: set<int>, ws: set<int>)
    returns (ok: bool, w0s': seq<int>)
    requires IndexOk(x) && IsConstraint(q) && StackOk(w0s)
    requires CountOk(n, |Live(x, q, takens)|, Covered(x, ws, q))
    ensures ok <==> !Blocked(x, q, takens, ws)
    ensures StackOk(w0s') && |w0s| <= |w0s'| <= |w0s| + 1 && w0s'[..|w0s|] == w0s
    ensures !ok ==> w0s' == w0s
    ensures |w0s'| > |w0s| ==> ForcedMove(x, w0s'[|w0s|], takens, ws)
    ensures ok && n < 2 ==> |w0s'| == |w0s| + 1 && Live(x, q, takens) == {w0s'[|w0s|]}
    ensures n >= 2 ==> w0s' == w0s
  {
    w0s' := w0s;
    ok := true;
    if n < 2 {
      var live := x.q2w[q] - takens;
      if live == {} {
        ok := false;
        return;
      }
      Pick(live);
      var f :| f in live;
      SingletonMember(live, f, f);
      RemoveOne(live, f);
      assert live == {f};
      assert Live(x, q, takens) == {f};
      w0s' := w0s' + [f];
    }
  }

  /** Decrement the count of one constraint q of an eliminated placement, and push its forced move if any. */
  method Decrement(x: Index, q: int, q2nw: array<int>, w0s: seq<int>, takens: set<int>, ws: set<int>, pending: set<int>)
    returns (ok: bool, w0s': seq<int>)
    requires IndexOk(x) && q2nw.Length == 324 && IsConstraint(q) && q in pending && StackOk(w0s)
    requires Counts(x, q2nw[..], takens, ws, pending)
    modifies q2nw
    ensures q2nw[..] == old(q2nw[..])[q := old(q2nw[q]) - 1]
    ensures Counts(x, q2nw[..], takens, ws, pending - {q})
    ensures ok <==> !Blocked(x, q, takens, ws)
    ensures StackOk(w0s') && |w0s| <= |w0s'| <= |w0s| + 1 && w0s'[..|w0s|] == w0s
    ensures !ok ==> w0s' == w0s
    ensures |w0s'| > |w0s| ==> ForcedMove(x, w0s'[|w0s|], takens, ws)
    ensures ok && q2nw[q] < 2 ==> |w0s'| == |w0s| + 1 && Live(x, q, takens) == {w0s'[|w0s|]}
    ensures q2nw[q] >= 2 ==> w0s' == w0s
    ensures ok ==> ForcedOn(x, q, w0s', takens, ws)
  {
    ghost var c := q2nw[..];
    q2nw[q] := q2nw[q] - 1;
    assert q2nw[..] == c[q := c[q] - 1];
    CountsDecrement(x, c, takens, ws, pending, q);
    var n := q2nw[q];
    assert CountAt(x, q2nw[..], q, takens, ws, pending - {q});
    ok, w0s' := PushForced(x, q, n, w0s, takens, ws);
    if ok && !Covered(x, ws, q) && |Live(x, q, takens)| < 2 {
      assert w0s'[|w0s|] in Live(x, q, takens) * Elems(w0s');
    }
  }

  /**
   * After a conflicting placement w is taken: decrement each of its four
   * constraints in order, pushing the forced moves.
   */
  method Eliminate(x: Index, w: int, q2nw: array<int>, w0s: seq<int>, takens: set<int>, ws: set<int>)
    returns (ok: bool, w0s': seq<int>)
    requires IndexOk(x) && q2nw.Length == 324 && IsPlacement(w) && StackOk(w0s)
    requires Counts(x, q2nw[..], takens, ws, Elems(x.w2q[w]))
    modifies q2nw
    ensures ok <==> forall i :: 0 <= i < 4 ==> !Blocked(x, x.w2q[w][i], takens, ws)
    ensures ok ==> Counts(x, q2nw[..], takens, ws, {})
    ensures StackOk(w0s') && |w0s| <= |w0s'| && w0s'[..|w0s|] == w0s
    ensures forall k :: |w0s| <= k < |w0s'| ==> ForcedMove(x, w0s'[k], takens, ws)
    ensures ok ==> forall i :: 0 <= i < 4 ==> ForcedOn(x, x.w2q[w][i], w0s', takens, ws)
  {
    var qs := x.w2q[w];
    w0s' := w0s;
    for i := 0 to 4
      invariant Counts(x, q2nw[..], takens, ws, Elems(qs[i..]))
      invariant StackOk(w0s') && |w0s| <= |w0s'| && w0s'[..|w0s|] == w0s
      invariant forall k :: |w0s| <= k < |w0s'| ==> ForcedMove(x, w0s'[k], takens, ws)
      invariant forall j :: 0 <= j < i ==> !Blocked(x, qs[j], takens, ws)
      invariant forall j :: 0 <= j < i ==> ForcedOn(x, qs[j], w0s', takens, ws)
    {
      IndexTail(x, w, i);
      ghost var before := w0s';
      ok, w0s' := Decrement(x, qs[i], q2nw, w0s', takens, ws, Elems(qs[i..]));
      if !ok {
        return;
      }
      forall j | 0 <= j < i ensures ForcedOn(x, qs[j], w0s', takens, ws) {
        ForcedOnGrow(x, qs[j], before, w0s', takens, ws);
      }
    }
    assert Elems(qs[4..]) == {};
    ok := true;
  }

  /** w2q2w[w] holds placements only, w itself among them. */
  lemma {:induction false} ConflictsOk(x: Index, w: int)
    requires IndexOk(x) && IsPlacement(w)
    ensures Placements(x.w2q2w[w]) && w in x.w2q2w[w]
  {
    var qs := x.w2q[w];
    assert qs[0] in qs;
    forall v | v in x.w2q2w[w] ensures IsPlacement(v) {
      var k :| 0 <= k < 4 && v in x.q2w[qs[k]];
    }
  }

  /**
   * Taking a placement in conflict with a committed placement of a solution,
   * and pushing forced moves, keeps the state on its way to that solution.
   */
  lemma {:induction false} EliminatedOnTrack(x: Index, G: set<int>, w0: int, w: int,
                                             before: seq<int>, after: seq<int>, takens: set<int>, ws: set<int>)
    requires IndexOk(x) && Extends(x, G, before, takens, ws)
    requires IsPlacement(w0) && w0 in ws && w in x.w2q2w[w0] && w != w0
    requires |before| <= |after| && after[..|before|] == before
    requires forall k :: |before| <= k < |after| ==> ForcedMove(x, after[k], takens + {w}, ws)
    ensures forall i :: 0 <= i < 4 ==> !Blocked(x, x.w2q[w][i], takens + {w}, ws)
    ensures Extends(x, G, after, takens + {w}, ws)
  {
    ConflictOutside(x, G, w0, w);
    ConflictsOk(x, w0);
    forall i | 0 <= i < 4 ensures !Blocked(x, x.w2q[w][i], takens + {w}, ws) {
      NotBlocked(x, G, ws, takens + {w}, x.w2q[w][i]);
    }
    forall k | 0 <= k < |after| ensures after[k] in G {
      if k < |before| {
        assert after[k] == before[k];
      } else {
        ForcedInSolution(x, G, ws, takens + {w}, after[k]);
      }
    }
  }

  /** Mark the four constraints of a committed placement w0 as covered by adding 100 to their counts. */
  method Mark(x: Index, w0: int, q2nw: array<int>)
    requires IndexOk(x) && IsPlacement(w0) && q2nw.Length == 324
    modifies q2nw
    ensures forall q :: 0 <= q < 324 ==> q2nw[q] == old(q2nw[q]) + (if q in x.w2q[w0] then 100 else 0)
  {
    var qs := x.w2q[w0];
    for i := 0 to 4
      invariant forall q :: 0 <= q < 324 ==> q2nw[q] == old(q2nw[q]) + (if q in qs[..i] then 100 else 0)
    {
      assert forall j :: 0 <= j < i ==> qs[j] != qs[i];
      q2nw[qs[i]] := q2nw[qs[i]] + 100;
    }
    assert qs[..4] == qs;
  }

  /**
   * Take the live placement w in conflict with the committed w0, and
   * decrement its four constraints, pushing the forced moves.
   */
  method TakeConflict(x: Index, w0: int, w: int, q2nw: array<int>, w0s: seq<int>, takens: set<int>, ws: set<int>,
                      ghost G: set<int>)
    returns (ok: bool, w0s': seq<int>)
    requires IndexOk(x) && IsPlacement(w0) && w0 in ws && w in x.w2q2w[w0] && w !in takens
    requires q2nw.Length == 324 && StackOk(w0s) && Placements(takens) && ws <= takens
    requires Counts(x, q2nw[..], takens, ws, {}) && Forcing(x, w0s, takens, ws)
    modifies q2nw
    ensures ok <==> forall i :: 0 <= i < 4 ==> !Blocked(x, x.w2q[w][i], takens + {w}, ws)
    ensures ok ==> Counts(x, q2nw[..], takens + {w}, ws, {})
    ensures StackOk(w0s') && |w0s| <= |w0s'| && w0s'[..|w0s|] == w0s
    ensures Extends(x, G, w0s, takens, ws) ==> ok && Extends(x, G, w0s', takens + {w}, ws)
    ensures ok && Justified(x, w0s, takens, ws) ==> Justified(x, w0s', takens + {w}, ws)
    ensures ok ==> Forcing(x, w0s', takens + {w}, ws)
  {
    ConflictsOk(x, w0);
    CountsTake(x, q2nw[..], takens, ws, w);
    ok, w0s' := Eliminate(x, w, q2nw, w0s, takens + {w}, ws);
    if Extends(x, G, w0s, takens, ws) {
      EliminatedOnTrack(x, G, w0, w, w0s, w0s', takens, ws);
    }
    if ok && Justified(x, w0s, takens, ws) {
      JustifiedTake(x, w0s, w0s', takens, ws, w);
    }
    if ok {
      ForcingTake(x, w, w0s, w0s', takens, ws);
    }
  }

  /**
   * Take and eliminate, one at a time in an arbitrary order, the placements
   * in conflict with w0 (its w2q2w entry) that were live when w0 was
   * committed.
   */
  method EliminateConflicts(x: Index, w0: int, q2nw: array<int>, w0s: seq<int>, takens: set<int>, ws: set<int>,
                            ghost G: set<int>)
    returns (ok: bool, w0s': seq<int>, takens': set<int>)
    requires IndexOk(x) && IsPlacement(w0) && w0 in ws && q2nw.Length == 324 && StackOk(w0s)
    requires Placements(takens) && ws <= takens && Counts(x, q2nw[..], takens, ws, {}) && Forcing(x, w0s, takens, ws)
    modifies q2nw
    ensures takens <= takens' <= takens + x.w2q2w[w0]
    ensures ok ==> takens' == takens + x.w2q2w[w0] && Counts(x, q2nw[..], takens', ws, {})
    ensures takens' == takens ==> w0s' == w0s
    ensures StackOk(w0s') && |w0s| <= |w0s'| && w0s'[..|w0s|] == w0s
    ensures Extends(x, G, w0s, takens, ws) ==> ok && Extends(x, G, w0s', takens', ws)
    ensures ok && Justified(x, w0s, takens, ws) ==> Justified(x, w0s', takens', ws)
    ensures ok ==> Forcing(x, w0s', takens', ws)
    ensures !ok ==> Stuck(x, takens', ws)
  {
    ghost var track := Extends(x, G, w0s, takens, ws);
    ghost var just := Justified(x, w0s, takens, ws);
    ConflictsOk(x, w0);
    var rest := x.w2q2w[w0] - takens;
    ghost var conflicts := rest;
    takens' := takens;
    w0s' := w0s;
    while rest != {}
      invariant rest <= conflicts
      invariant takens' == takens + (conflicts - rest)
      invariant StackOk(w0s') && |w0s| <= |w0s'| && w0s'[..|w0s|] == w0s
      invariant rest == conflicts ==> w0s' == w0s
      invariant Counts(x, q2nw[..], takens', ws, {})
      invariant track ==> Extends(x, G, w0s', takens', ws)
      invariant just ==> Justified(x, w0s', takens', ws)
      invariant Forcing(x, w0s', takens', ws)
      decreases rest
    {
      Pick(rest);
      var w :| w in rest;
      var ok1;
      ok1, w0s' := TakeConflict(x, w0, w, q2nw, w0s', takens', ws, G);
      takens' := takens' + {w};
      if !ok1 {
        BlockedStuck(x, w, takens', ws);
        ok := false;
        return;
      }
      rest := rest - {w};
    }
    ok := true;
  }

  /**
   * One placement w0 popped from the stack: commit it, add 100 to its
   * constraints, then take and eliminate every live placement in conflict
   * with it.
   */
  method Commit(x: Index, w0: int, q2nw: array<int>, w0s: seq<int>, takens: set<int>, ws: set<int>, ghost G: set<int>)
    returns (ok: bool, w0s': seq<int>, takens': set<int>, ws': set<int>)
    requires IndexOk(x) && IsPlacement(w0) && q2nw.Length == 324 && StackOk(w0s)
    requires Consistent(x, q2nw[..], takens, ws) && Forcing(x, w0s + [w0], takens, ws)
    modifies q2nw
    ensures ws' == ws + {w0}
    ensures takens + {w0} <= takens' <= takens + x.w2q2w[w0] && Placements(takens')
    ensures ok ==> takens' == takens + x.w2q2w[w0] && Consistent(x, q2nw[..], takens', ws')
    ensures takens' == takens ==> w0s' == w0s
    ensures StackOk(w0s') && |w0s| <= |w0s'| && w0s'[..|w0s|] == w0s
    ensures Extends(x, G, w0s + [w0], takens, ws) ==> ok && Extends(x, G, w0s', takens', ws')
    ensures ok && Justified(x, w0s, takens + {w0}, ws') ==> Justified(x, w0s', takens', ws')
    ensures ok ==> Forcing(x, w0s', takens', ws')
    ensures RuledOut(x, takens', ws')
    ensures !ok ==> Stuck(x, takens', ws')
  {
    ghost var track := Extends(x, G, w0s + [w0], takens, ws);
    ForcingCommit(x, w0s, w0, takens, ws);
    ConflictsOk(x, w0);
    ghost var c := q2nw[..];
    Mark(x, w0, q2nw);
    CountsCommit(x, c, q2nw[..], takens, ws, w0);
    ws' := ws + {w0};
    if track {
      assert (w0s + [w0])[|w0s|] == w0;
      assert forall i :: 0 <= i < |w0s| ==> (w0s + [w0])[i] == w0s[i];
      assert Extends(x, G, w0s, takens + {w0}, ws');
    }
    ok, w0s', takens' := EliminateConflicts(x, w0, q2nw, w0s, takens + {w0}, ws', G);
    RuledOutCommit(x, takens, ws, w0, takens');
  }

  /**
   * The inner loop of search: commit placements from the top of the stack
   * until it is empty; false when a constraint is left without candidates
   * (the KeyError).
   */
  method Propagate(x: Index, q2nw: array<int>, w0s: seq<int>, takens: set<int>, ws: set<int>, ghost G: set<int>)
    returns (ok: bool, takens': set<int>, ws': set<int>)
    requires IndexOk(x) && q2nw.Length == 324 && StackOk(w0s) && Consistent(x, q2nw[..], takens, ws)
    requires Forcing(x, w0s, takens, ws)
    modifies q2nw
    ensures takens <= takens' && ws <= ws' && Placements(takens')
    ensures ok ==> Consistent(x, q2nw[..], takens', ws')
    ensures !ok ==> Stuck(x, takens', ws') && RuledOut(x, takens', ws')
    ensures ok ==> forall i :: 0 <= i < |w0s| ==> w0s[i] in ws'
    ensures ok ==> Fixpoint(x, takens', ws')
    ensures ok && takens' == takens ==> Rank(w0s, takens) == 2
    ensures w0s == [] ==> ok && takens' == takens && ws' == ws && q2nw[..] == old(q2nw[..])
    ensures Extends(x, G, w0s, takens, ws) ==> ok && Extends(x, G, [], takens', ws')
    ensures Extends(x, G, w0s, takens, ws) && Pending(G, w0s, ws) ==> G <= ws'
    ensures ok && Safe(x, G, w0s, takens, ws) ==> Disjoint(x, ws')
  {
    ghost var track := Extends(x, G, w0s, takens, ws);
    ghost var full := track && Pending(G, w0s, ws);
    ghost var safe := Safe(x, G, w0s, takens, ws);
    var stack := w0s;
    takens', ws' := takens, ws;
    while stack != []
      invariant StackOk(stack) && Consistent(x, q2nw[..], takens', ws')
      invariant takens <= takens' && ws <= ws'
      invariant forall i :: 0 <= i < |w0s| ==> w0s[i] in ws' || (i < |stack| && stack[i] == w0s[i])
      invariant takens' == takens ==> Rank(w0s, takens) == 2 || stack == w0s
      invariant w0s == [] ==> stack == [] && q2nw[..] == old(q2nw[..]) && takens' == takens && ws' == ws
      invariant track ==> Extends(x, G, stack, takens', ws')
      invariant safe ==> Safe(x, G, stack, takens', ws')
      invariant Forcing(x, stack, takens', ws')
      decreases AllPlacements() - takens', |stack|
    {
      var w0 := stack[|stack| - 1];
      var rest := stack[..|stack| - 1];
      assert stack == rest + [w0];
      ghost var takens0, ws0, stack0 := takens', ws', stack;
      var ok1;
      ok1, stack, takens', ws' := Commit(x, w0, q2nw, rest, takens', ws', G);
      if !ok1 {
        return false, takens', ws';
      }
      StackStep(w0s, stack0, rest, w0, stack, ws0, ws');
      if takens' != takens0 {
        TakeMore(takens0, takens');
      }
      if safe {
        SafeStep(x, G, rest, w0, takens0, ws0, stack, takens', ws');
      }
    }
    if full {
      assert forall g :: g in G ==> g in ws';
    }
    ForcingEmpty(x, [], takens', ws');
    ok := true;
  }

  /** The first position of the array holding v, or none (where Python's list search raises ValueError). */
  method FirstIndex(a: array<int>, v: int) returns (r: Position)
    ensures r.At? ==> r.index < a.Length && a[r.index] == v && forall j :: 0 <= j < r.index ==> a[j] != v
    ensures r.Absent? ==> forall j :: 0 <= j < a.Length ==> a[j] != v
  {
    for i := 0 to a.Length
      invariant forall j :: 0 <= j < i ==> a[j] != v
    {
      if a[i] == v {
        return At(i);
      }
    }
    return Absent;
  }

  /** A set of two holds the two elements picked from it and nothing else. */
  lemma {:induction false} OneOfTwo(s: set<int>, a: int, b: int, g: int)
    requires |s| == 2 && a in s && b in s - {a} && g in s
    ensures g == a || g == b
  {
    RemoveOne(s, a);
    if g != a {
      SingletonMember(s - {a}, b, g);
    }
  }

  /**
   * The two live placements of an uncovered constraint with two left, in
   * either order.  On the way to a solution, one of them is in it.
   */
  method Candidates(x: Index, q: int, takens: set<int>, ws: set<int>, ghost G: set<int>)
    returns (w1: int, w0: int)
    requires IndexOk(x) && IsConstraint(q) && !Covered(x, ws, q) && |Live(x, q, takens)| == 2
    ensures w1 != w0 && Live(x, q, takens) == {w1, w0}
    ensures IsPlacement(w1) && IsPlacement(w0) && w1 !in takens && w0 !in takens
    ensures ExactCover(x, G) && ws <= G && G * takens <= ws ==> w1 in G || w0 in G
  {
    var live := x.q2w[q] - takens;
    Pick(live);
    w1 :| w1 in live;
    RemoveOne(live, w1);
    Pick(live - {w1});
    w0 :| w0 in live - {w1};
    forall g | g in live ensures g == w1 || g == w0 {
      OneOfTwo(live, w1, w0, g);
    }
    if ExactCover(x, G) && ws <= G && G * takens <= ws {
      CoverWitness(x, G, ws, takens, q);
    }
  }

  /** The copy of the counts handed to the branch: a fresh array with the same contents. */
  method Copy(a: array<int>) returns (b: array<int>)
    ensures fresh(b) && b[..] == a[..]
  {
    b := new int[a.Length](i requires 0 <= i < a.Length reads a => a[i]);
    assert b[..] == a[..];
  }

  /** Where a pass of the outer loop stands before it branches: finished with an outcome, or at a branch point. */
  datatype Settled = Finished(outcome: Outcome) | BranchOn(q: int, w1: int, w0: int)

  /**
   * Constraint q is where the search branches: the first constraint whose
   * count is 2, not yet covered, with exactly the live placements w1 and w0.
   */
  predicate BranchPoint(x: Index, c: seq<int>, takens: set<int>, ws: set<int>, q: int, w1: int, w0: int)
    requires IndexOk(x) && |c| == 324
  {
    0 <= q < 324 && c[q] == 2 && (forall p :: 0 <= p < q ==> c[p] != 2) &&
    !Covered(x, ws, q) && Live(x, q, takens) == {w1, w0}
  }

  /**
   * A pass of the outer loop up to its branch: propagate the stack, then,
   * unless propagation failed, choose how to go on.
   */
  method Settle(x: Index, q2nw: array<int>, w0s: seq<int>, takens: set<int>, ws: set<int>, ghost G: set<int>,
                ghost safe: bool)
    returns (r: Settled, takens': set<int>, ws': set<int>)
    requires IndexOk(x) && q2nw.Length == 324 && StackOk(w0s) && Consistent(x, q2nw[..], takens, ws)
    requires Forcing(x, w0s, takens, ws)
    requires safe ==> Safe(x, G, w0s, takens, ws)
    modifies q2nw
    ensures takens <= takens' && ws <= ws' && Placements(takens')
    ensures r.Finished? && r.outcome.Completed? ==>
      Placements(r.outcome.ws) && |r.outcome.ws| > 80 && ws <= r.outcome.ws &&
      forall i :: 0 <= i < |w0s| ==> w0s[i] in r.outcome.ws
    ensures r.BranchOn? ==>
      Consistent(x, q2nw[..], takens', ws') && r.w1 != r.w0 &&
      IsPlacement(r.w1) && IsPlacement(r.w0) && r.w1 !in takens' && r.w0 !in takens' &&
      forall i :: 0 <= i < |w0s| ==> w0s[i] in ws'
    ensures r.BranchOn? && takens' == takens ==> Rank(w0s, takens) == 2
    ensures r.BranchOn? ==> BranchPoint(x, q2nw[..], takens', ws', r.q, r.w1, r.w0) && Fixpoint(x, takens', ws')
    ensures r == Finished(DeadEnd) ==> Stuck(x, takens', ws') && RuledOut(x, takens', ws')
    ensures r == Finished(NoBranchPoint) ==>
      Stalled(x, q2nw[..], takens', ws') && forall i :: 0 <= i < |w0s| ==> w0s[i] in ws'
    ensures Extends(x, G, w0s, takens, ws) ==>
      r != Finished(DeadEnd) &&
      (r.BranchOn? ==> Extends(x, G, [r.w1], takens', ws') || Extends(x, G, [r.w0], takens', ws'))
    ensures Extends(x, G, w0s, takens, ws) && Pending(G, w0s, ws) ==> r == Finished(Completed(G))
    ensures w0s == [] && |ws| <= 80 && 2 !in old(q2nw[..]) ==>
      r == Finished(NoBranchPoint)
    ensures safe && r.BranchOn? ==> Disjoint(x, ws')
    ensures safe && r.Finished? && r.outcome.Completed? ==> Disjoint(x, r.outcome.ws)
  {
    ghost var track := Extends(x, G, w0s, takens, ws);
    ghost var full := track && Pending(G, w0s, ws);
    var ok;
    ok, takens', ws' := Propagate(x, q2nw, w0s, takens, ws, G);
    if !ok {
      return Finished(DeadEnd), takens', ws';
    }
    if full {
      assert ws' == G;
    }
    r := Choose(x, q2nw, takens', ws', G);
    if r.BranchOn? && track {
      ExtendsSingle(x, G, if r.w1 in G then r.w1 else r.w0, takens', ws');
    }
  }

  /**
   * The end of a pass before it branches: Completed once more than 80
   * placements are committed; otherwise the first constraint whose count is
   * 2 with its two live placements, or NoBranchPoint when no count is 2.
   */
  method Choose(x: Index, q2nw: array<int>, takens: set<int>, ws: set<int>, ghost G: set<int>) returns (r: Settled)
    requires IndexOk(x) && q2nw.Length == 324 && Consistent(x, q2nw[..], takens, ws)
    ensures r == Finished(Completed(ws)) <==> |ws| > 80
    ensures r.Finished? ==> r == Finished(Completed(ws)) || r == Finished(NoBranchPoint)
    ensures r == Finished(NoBranchPoint) ==> |ws| <= 80 && forall q :: 0 <= q < 324 ==> q2nw[q] != 2
    ensures |ws| <= 80 && 2 !in q2nw[..] ==> r == Finished(NoBranchPoint)
    ensures r.BranchOn? ==>
      BranchPoint(x, q2nw[..], takens, ws, r.q, r.w1, r.w0) && r.w1 != r.w0 &&
      IsPlacement(r.w1) && IsPlacement(r.w0) && r.w1 !in takens && r.w0 !in takens
    ensures r.BranchOn? && ExactCover(x, G) && ws <= G && G * takens <= ws ==> r.w1 in G || r.w0 in G
  {
    if |ws| > 80 {
      return Finished(Completed(ws));
    }
    ghost var c := q2nw[..];
    var pos := FirstIndex(q2nw, 2);
    if pos.Absent? {
      assert forall p :: 0 <= p < 324 ==> c[p] != 2;
      return Finished(NoBranchPoint);
    }
    var q := pos.index;
    assert CountAt(x, c, q, takens, ws, {});
    var w1, w0 := Candidates(x, q, takens, ws, G);
    assert BranchPoint(x, c, takens, ws, q, w1, w0);
    r := BranchOn(q, w1, w0);
  }

  /** One pass of the loop of search: the outcome it returns, or the placement it falls back on. */
  datatype Step = Done(outcome: Outcome) | Retry(w0: int)

  /**
   * One pass of the loop: settle; at a branch point, search on with w1 on a
   * copy of the state, and when that search dead-ends, fall back on w0.  The
   * ghost results (c, t, d) are the state at which the pass stopped, or at
   * which the search on w1 stopped: a pass that returns a failure bears it
   * out there, and a pass that falls back does so only from a stuck state.
   */
  method Round(x: Index, q2nw: array<int>, w0s: seq<int>, takens: set<int>, ws: set<int>, ghost G: set<int>,
               ghost safe: bool)
    returns (r: Step, takens': set<int>, ws': set<int>, ghost c: seq<int>, ghost t: set<int>, ghost d: set<int>)
    requires IndexOk(x) && q2nw.Length == 324 && StackOk(w0s) && Consistent(x, q2nw[..], takens, ws)
    requires Forcing(x, w0s, takens, ws)
    requires safe ==> Safe(x, G, w0s, takens, ws)
    modifies q2nw
    decreases AllPlacements() - takens, Rank(w0s, takens), 0
    ensures takens <= takens' && ws <= ws' && Placements(takens')
    ensures r.Done? ==> Evidence(x, takens, ws, r.outcome, c, t, d)
    ensures r.Retry? ==> Evidence(x, takens', ws', DeadEnd, c, t, d)
    ensures r.Done? && r.outcome.NoBranchPoint? ==> forall i :: 0 <= i < |w0s| ==> w0s[i] in d
    ensures r.Done? && r.outcome.Completed? ==>
      Placements(r.outcome.ws) && |r.outcome.ws| > 80 && ws <= r.outcome.ws &&
      forall i :: 0 <= i < |w0s| ==> w0s[i] in r.outcome.ws
    ensures r.Retry? ==>
      Consistent(x, q2nw[..], takens', ws') && Fixpoint(x, takens', ws') && IsPlacement(r.w0) && r.w0 !in takens' &&
      forall i :: 0 <= i < |w0s| ==> w0s[i] in ws'
    ensures r.Retry? && takens' == takens ==> Rank(w0s, takens) == 2
    ensures r.Retry? ==> Forcing(x, [r.w0], takens', ws')
    ensures Extends(x, G, w0s, takens, ws) ==>
      r != Done(DeadEnd) && (r.Retry? ==> Extends(x, G, [r.w0], takens', ws'))
    ensures Extends(x, G, w0s, takens, ws) && Pending(G, w0s, ws) ==> r == Done(Completed(G))
    ensures w0s == [] && |ws| <= 80 && 2 !in old(q2nw[..]) ==>
      r == Done(NoBranchPoint)
    ensures safe && r.Done? && r.outcome.Completed? ==> Disjoint(x, r.outcome.ws)
    ensures safe && r.Retry? ==> Safe(x, G, [r.w0], takens', ws')
  {
    var settled;
    settled, takens', ws' := Settle(x, q2nw, w0s, takens, ws, G, safe);
    if settled.Finished? {
      c, t, d := q2nw[..], takens', ws';
      return Done(settled.outcome), takens', ws', c, t, d;
    }
    if takens' != takens {
      TakeMore(takens, takens');
    }
    var branch;
    branch, c, t, d := Branch(x, settled.w1, q2nw, takens', ws', G);
    if !branch.DeadEnd? {
      return Done(branch), takens', ws', c, t, d;
    }
    if safe {
      SafeSingle(x, G, settled.w0, takens', ws');
    }
    ForcingEmpty(x, [settled.w0], takens', ws');
    r := Retry(settled.w0);
  }

  /**
   * The branch: search on with w1 on copies of the counts and sets; the
   * KeyError of that search shows up as DeadEnd.
   */
  method Branch(x: Index, w1: int, q2nw: array<int>, takens: set<int>, ws: set<int>, ghost G: set<int>)
    returns (sub: Outcome, ghost c: seq<int>, ghost t: set<int>, ghost d: set<int>)
    requires IndexOk(x) && q2nw.Length == 324 && Consistent(x, q2nw[..], takens, ws) && Fixpoint(x, takens, ws)
    requires IsPlacement(w1) && w1 !in takens
    decreases AllPlacements() - takens, 1, 1
    ensures sub.Completed? ==> Placements(sub.ws) && |sub.ws| > 80 && ws <= sub.ws
    ensures Extends(x, G, [w1], takens, ws) ==> !sub.DeadEnd?
    ensures sub.Completed? && Disjoint(x, ws) ==> Disjoint(x, sub.ws)
    ensures Evidence(x, takens, ws, sub, c, t, d)
  {
    if Disjoint(x, ws) {
      SafeSingle(x, G, w1, takens, ws);
    }
    ForcingEmpty(x, [w1], takens, ws);
    var copy := Copy(q2nw);
    sub, c, t, d := Search(x, [w1], copy, takens, ws, G);
  }

  /**
   * The outer loop of search: run passes until one finishes; after a failed
   * branch, the stack holds only the fallback placement.  The ghost results
   * are the state at which the search stopped.
   */
  method Search(x: Index, w0s: seq<int>, q2nw: array<int>, takens: set<int>, ws: set<int>, ghost G: set<int>)
    returns (outcome: Outcome, ghost c: seq<int>, ghost t: set<int>, ghost d: set<int>)
    requires IndexOk(x) && q2nw.Length == 324 && StackOk(w0s) && Consistent(x, q2nw[..], takens, ws)
    requires Forcing(x, w0s, takens, ws)
    modifies q2nw
    decreases AllPlacements() - takens, Rank(w0s, takens), 1
    ensures outcome.Completed? ==>
      Placements(outcome.ws) && |outcome.ws| > 80 && ws <= outcome.ws &&
      forall i :: 0 <= i < |w0s| ==> w0s[i] in outcome.ws
    ensures Extends(x, G, w0s, takens, ws) ==> !outcome.DeadEnd?
    ensures Extends(x, G, w0s, takens, ws) && Pending(G, w0s, ws) ==> outcome == Completed(G)
    ensures w0s == [] && |ws| <= 80 && 2 !in old(q2nw[..]) ==>
      outcome == NoBranchPoint
    ensures outcome.Completed? && Safe(x, G, w0s, takens, ws) ==> Disjoint(x, outcome.ws)
    ensures Evidence(x, takens, ws, outcome, c, t, d)
    ensures outcome.NoBranchPoint? ==> forall i :: 0 <= i < |w0s| ==> w0s[i] in d
  {
    ghost var safe := Safe(x, G, w0s, takens, ws);
    ghost var track := Extends(x, G, w0s, takens, ws);
    ghost var first := true;
    var stack, taken, done := w0s, takens, ws;
    while true
      invariant StackOk(stack) && Consistent(x, q2nw[..], taken, done)
      invariant takens <= taken && ws <= done
      invariant first ==> stack == w0s && taken == takens && done == ws && q2nw[..] == old(q2nw[..])
      invariant !first ==> |stack| == 1 && stack[0] !in taken
      invariant Forcing(x, stack, taken, done)
      invariant !first ==> forall i :: 0 <= i < |w0s| ==> w0s[i] in done
      invariant taken != takens ==> AllPlacements() - taken < AllPlacements() - takens
      invariant track ==> Extends(x, G, stack, taken, done)
      invariant safe ==> Safe(x, G, stack, taken, done)
      invariant track && Pending(G, w0s, ws) ==> first
      invariant w0s == [] && |ws| <= 80 && 2 !in old(q2nw[..]) ==> first
      decreases AllPlacements() - taken, Rank(stack, taken)
    {
      var r, taken', done';
      r, taken', done', c, t, d := Round(x, q2nw, stack, taken, done, G, safe);
      if r.Done? {
        return r.outcome, c, t, d;
      }
      if taken' != taken {
        TakeMore(taken, taken');
      }
      stack, taken, done := [r.w0], taken', done';
      first := false;
    }
  }
}
