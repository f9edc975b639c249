/**
 * Ascending sequences of integers: what Python's sorted() yields for a set of
 * distinct integers, and the fact that it is the only ascending sequence with
 * those elements.
 */
module Ordering {

  predicate StrictlyIncreasing(s: seq<int>)
  {
    forall i, j :: 0 <= i < j < |s| ==> s[i] < s[j]
  }

  function Elems(s: seq<int>): set<int>
  {
    set x | x in s
  }

  /** A sequence without repetitions has as many distinct elements as it is long. */
  lemma {:induction false} IncreasingCard(s: seq<int>)
    requires StrictlyIncreasing(s)
    ensures |Elems(s)| == |s|
  {
    if s != [] {
      IncreasingCard(s[1..]);
      assert Elems(s) == {s[0]} + Elems(s[1..]);
      assert s[0] !in Elems(s[1..]);
    }
  }

  /** Appending an element above every element keeps a sequence ascending. */
  lemma {:induction false} AppendIncreasing(p: seq<int>, x: int)
    requires StrictlyIncreasing(p)
    requires forall i :: 0 <= i < |p| ==> p[i] < x
    ensures StrictlyIncreasing(p + [x])
    ensures Elems(p + [x]) == Elems(p) + {x}
  {
    var r := p + [x];
    forall i, j | 0 <= i < j < |r| ensures r[i] < r[j] {
      if j < |p| {
        assert r[i] == p[i] && r[j] == p[j];
      } else {
        assert r[i] == p[i];
      }
    }
  }

  /** One step of Sorted: the ascending elements of s below x, followed by x when x is in s. */
  lemma {:induction false} SortedStep(s: set<int>, x: int, prefix: seq<int>)
    requires forall y :: y in s ==> 0 <= y <= x
    requires StrictlyIncreasing(prefix) && Elems(prefix) == s - {x}
    requires forall i :: 0 <= i < |prefix| ==> 0 <= prefix[i] < x
    ensures var r := if x in s then prefix + [x] else prefix;
      StrictlyIncreasing(r) && Elems(r) == s && |r| == |s| &&
      forall i :: 0 <= i < |r| ==> 0 <= r[i] <= x
  {
    AppendIncreasing(prefix, x);
    var r := if x in s then prefix + [x] else prefix;
    assert Elems(r) == s;
    IncreasingCard(r);
  }

  lemma {:induction false} NoneBelowZero(s: set<int>)
    requires forall x :: x in s ==> 0 <= x < 0
    ensures s == {}
  {
    assert forall x :: x !in s;
  }

  /**
   * A set s of integers in [0, bound) sorted: its elements in ascending
   * order.
   */
  function Sorted(s: set<int>, bound: nat): (r: seq<int>)
    requires forall x :: x in s ==> 0 <= x < bound
    ensures StrictlyIncreasing(r) && Elems(r) == s && |r| == |s|
    ensures forall i :: 0 <= i < |r| ==> 0 <= r[i] < bound
  {
    if bound == 0 then
      NoneBelowZero(s);
      []
    else
      var x := bound - 1;
      var prefix := Sorted(s - {x}, x);
      SortedStep(s, x, prefix);
      if x in s then prefix + [x] else prefix
  }

  /** An ascending sequence is determined by its set of elements. */
  lemma {:induction false} IncreasingUnique(a: seq<int>, b: seq<int>)
    requires StrictlyIncreasing(a) && StrictlyIncreasing(b)
    requires Elems(a) == Elems(b)
    ensures a == b
  {
    IncreasingCard(a);
    IncreasingCard(b);
    if a != [] {
      assert a[0] in Elems(b) && b[0] in Elems(a);
      assert a[0] == b[0];
      assert Elems(a[1..]) == Elems(a) - {a[0]};
      assert Elems(b[1..]) == Elems(b) - {b[0]};
      IncreasingUnique(a[1..], b[1..]);
      assert a == [a[0]] + a[1..];
      assert b == [b[0]] + b[1..];
    }
  }
}
