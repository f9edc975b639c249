/**
 * Counting constraints: placements no two of which share a constraint cover
 * four constraints each, so more than 80 of them cover all 324 constraints,
 * each exactly once.
 */
module Counting {

  import opened Ordering
  import opened Tables

  /** Placements no two of which share a constraint. */
  predicate NoClash(ws: set<int>)
  {
    (forall w :: w in ws ==> IsPlacement(w)) &&
    forall w, v :: w in ws && v in ws && w != v ==> !Share(w, v)
  }

  /** The constraints covered by some placement of ws. */
  ghost function Covers(ws: set<int>): set<int>
    requires forall w :: w in ws ==> IsPlacement(w)
  {
    set q | 0 <= q < 324 && IsConstraint(q) && exists w :: w in ws && q in W2Q(w)
  }

  /** The four constraints of a placement are distinct. */
  lemma {:induction false} FourConstraints(w: int)
    requires IsPlacement(w)
    ensures StrictlyIncreasing(W2Q(w)) && |Elems(W2Q(w))| == 4
    ensures forall q :: q in Elems(W2Q(w)) ==> IsConstraint(q)
  {
    var qs := W2Q(w);
    assert StrictlyIncreasing(qs);
    IncreasingCard(qs);
  }

  /** Removing one placement from ws removes exactly its four constraints from the cover. */
  lemma {:induction false} CoversSplit(ws: set<int>, w: int)
    requires NoClash(ws) && w in ws
    ensures NoClash(ws - {w})
    ensures Covers(ws) == Covers(ws - {w}) + Elems(W2Q(w))
    ensures Covers(ws - {w}) * Elems(W2Q(w)) == {}
  {
    var rest := ws - {w};
    var qs := Elems(W2Q(w));
    FourConstraints(w);
    forall q | q in Covers(ws) ensures q in Covers(rest) + qs {
      var v :| v in ws && q in W2Q(v);
      if v != w {
        assert v in rest;
      }
    }
    forall q | q in qs ensures q in Covers(ws) && q !in Covers(rest) {
      assert q in W2Q(w);
      forall v | v in rest ensures q !in W2Q(v) {
        assert !Share(w, v);
      }
    }
  }

  /** Placements that share no constraint cover four constraints each. */
  lemma {:induction false} CoverCount(ws: set<int>)
    requires NoClash(ws)
    ensures |Covers(ws)| == 4 * |ws|
    decreases |ws|
  {
    if ws == {} {
      assert Covers(ws) == {};
    } else {
      var s := Sorted(ws, 729);
      var w := s[0];
      assert w in Elems(s);
      CoversSplit(ws, w);
      CoverCount(ws - {w});
      FourConstraints(w);
    }
  }

  predicate Below(q: int, n: int) { 0 <= q < n }

  /** The integers 0 .. n - 1. */
  function Range(n: nat): set<int>
  {
    set q | 0 <= q < n && Below(q, n)
  }

  lemma {:induction false} RangeCard(n: nat)
    ensures |Range(n)| == n
  {
    if n > 0 {
      RangeCard(n - 1);
      assert Range(n) == Range(n - 1) + {n - 1};
    }
  }

  /** A subset of 0 .. n - 1 with at least n elements is all of it. */
  lemma {:induction false} FillsRange(s: set<int>, n: nat)
    requires s <= Range(n) && |s| >= n
    ensures s == Range(n) && |s| == n
  {
    RangeCard(n);
    var rest := Range(n) - s;
    assert Range(n) == s + rest;
    assert s * rest == {};
    assert |rest| == 0;
  }

  /**
   * More than 80 placements no two of which share a constraint are exactly
   * 81 placements meeting every constraint once.
   */
  lemma {:induction false} AllCovered(ws: set<int>)
    requires NoClash(ws) && |ws| > 80
    ensures |ws| == 81
    ensures forall q :: IsConstraint(q) ==> |ws * Q2W(q)| == 1
  {
    CoverCount(ws);
    assert Covers(ws) <= Range(324);
    FillsRange(Covers(ws), 324);
    forall q | IsConstraint(q) ensures |ws * Q2W(q)| == 1 {
      CoveredOnce(ws, q);
    }
  }

  lemma {:induction false} ShareWitness(w: int, v: int, q: int)
    requires IsPlacement(w) && IsPlacement(v) && q in W2Q(w) && q in W2Q(v)
    ensures Share(w, v)
  {
  }

  /** A constraint that ws covers is met by exactly one of its placements. */
  lemma {:induction false} CoveredOnce(ws: set<int>, q: int)
    requires NoClash(ws) && IsConstraint(q) && q in Covers(ws)
    ensures |ws * Q2W(q)| == 1
  {
    var w :| w in ws && q in W2Q(w);
    Q2WMember(q, w);
    forall g | g in ws * Q2W(q) ensures g == w {
      Q2WMember(q, g);
      ShareWitness(w, g, q);
    }
    assert ws * Q2W(q) == {w};
  }

  /** Each element of an ascending sequence is at least as far above an earlier one as its distance. */
  lemma {:induction false} Spread(s: seq<int>, i: int, j: int)
    requires StrictlyIncreasing(s) && 0 <= i <= j < |s|
    ensures s[j] - s[i] >= j - i
    decreases j - i
  {
    if i < j {
      Spread(s, i, j - 1);
      assert s[j - 1] < s[j];
    }
  }

  /** An ascending sequence of n values in 0 .. n - 1 is 0, 1, ..., n - 1. */
  lemma {:induction false} Identity(s: seq<int>)
    requires StrictlyIncreasing(s)
    requires forall i :: 0 <= i < |s| ==> 0 <= s[i] < |s|
    ensures forall i :: 0 <= i < |s| ==> s[i] == i
  {
    forall i | 0 <= i < |s| ensures s[i] == i {
      Spread(s, 0, i);
      Spread(s, i, |s| - 1);
    }
  }
}
