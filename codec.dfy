/**
 * The two ends of sudoku99: reading the givens of an 81-character puzzle as
 * placements, and writing a set of placements back as a string of digits.
 */
module Codec {

  import opened Ordering
  import opened Tables

  /** The givens as placements, or the first position whose character fails the conversion to a digit. */
  datatype Encoded = Givens(ws: seq<int>) | NotADigit(pos: nat)

  /** Only the first 81 characters are read. */
  function Limit(problem: string): nat
  {
    if |problem| < 81 then |problem| else 81
  }

  function DigitValue(c: char): int
  {
    c as int - '0' as int
  }

  /** Character j is a given: some character above '0' (anything else is a blank). */
  predicate IsGiven(problem: string, j: int)
  {
    0 <= j < Limit(problem) && '0' < problem[j]
  }

  /** The placement a digit character at position j stands for: digit k in cell j. */
  function GivenPlacement(j: int, c: char): int
  {
    9 * j + DigitValue(c) - 1
  }

  /**
   * The givens at positions j and later, in position order.  A character at
   * most '0' is skipped; one above '9' is not a digit and fails the conversion.
   */
  function GivensFrom(problem: string, j: nat): (r: Encoded)
    requires j <= Limit(problem)
    decreases Limit(problem) - j
    ensures r.Givens? <==> forall i :: j <= i < Limit(problem) ==> problem[i] <= '9'
    ensures r.NotADigit? ==>
      j <= r.pos < Limit(problem) && problem[r.pos] > '9' &&
      forall i :: j <= i < r.pos ==> problem[i] <= '9'
    ensures r.Givens? ==> StrictlyIncreasing(r.ws) && |r.ws| <= Limit(problem) - j
    ensures r.Givens? ==> forall k :: 0 <= k < |r.ws| ==> 9 * j <= r.ws[k] < 729
    ensures r.Givens? ==> forall w :: w in r.ws <==>
      exists i :: j <= i < Limit(problem) && IsGiven(problem, i) && w == GivenPlacement(i, problem[i])
  {
    if j == Limit(problem) then
      Givens([])
    else
      var k := problem[j];
      if k <= '0' then
        GivensFrom(problem, j + 1)
      else if k <= '9' then
        match GivensFrom(problem, j + 1)
        case Givens(rest) =>
          assert forall m :: 0 <= m < |rest| ==> 9 * (j + 1) <= rest[m];
          Givens([GivenPlacement(j, k)] + rest)
        case NotADigit(pos) => NotADigit(pos)
      else
        NotADigit(j)
  }

  /**
   * The givens of a puzzle: scanning its first 81 characters in order, each
   * character above '0' at position j is the placement of that digit in
   * cell j; the first such character that is not a digit ends the scan.
   */
  function Encode(problem: string): (r: Encoded)
    ensures r.Givens? ==> |r.ws| <= 81
  {
    GivensFrom(problem, 0)
  }

  function DigitChar(d: int): char
    requires 0 <= d < 9
  {
    ('1' as int + d) as char
  }

  /**
   * The answer string: the placements taken in ascending order, each written
   * as the digit it places ('1' to '9').
   */
  function Decode(ws: set<int>): (s: string)
    requires forall w :: w in ws ==> IsPlacement(w)
    ensures |s| == |ws|
    ensures forall i :: 0 <= i < |s| ==> '1' <= s[i] <= '9'
  {
    forall w | w in ws ensures 0 <= w < 729 {
      assert IsPlacement(w);
    }
    var sorted := Sorted(ws, 729);
    seq(|sorted|, i requires 0 <= i < |sorted| => DigitChar(sorted[i] % 9))
  }

  /** Decoding the elements of an ascending sequence of placements reads the sequence in order. */
  lemma {:induction false} DecodeAscending(gs: seq<int>, k: int)
    requires StrictlyIncreasing(gs) && 0 <= k < |gs|
    requires forall i :: 0 <= i < |gs| ==> IsPlacement(gs[i])
    ensures forall w :: w in Elems(gs) ==> IsPlacement(w)
    ensures |Decode(Elems(gs))| == |gs|
    ensures Decode(Elems(gs))[k] == DigitChar(gs[k] % 9)
  {
    var ws := Elems(gs);
    forall w | w in ws ensures 0 <= w < 729 {
      var i :| 0 <= i < |gs| && gs[i] == w;
      assert IsPlacement(gs[i]);
    }
    var sorted := Sorted(ws, 729);
    IncreasingUnique(sorted, gs);
    IncreasingCard(gs);
  }

  /** The first 81 characters are all digits '1'..'9': a completely filled grid. */
  predicate Complete(problem: string)
  {
    |problem| >= 81 && forall j :: 0 <= j < 81 ==> '1' <= problem[j] <= '9'
  }

  /** On a filled grid, the k-th given is the placement of the k-th character. */
  lemma {:induction false} CompleteGivens(problem: string, j: nat)
    requires Complete(problem) && j <= 81
    decreases 81 - j
    ensures GivensFrom(problem, j).Givens?
    ensures |GivensFrom(problem, j).ws| == 81 - j
    ensures forall k :: 0 <= k < 81 - j ==>
      GivensFrom(problem, j).ws[k] == GivenPlacement(j + k, problem[j + k])
  {
    if j < 81 {
      CompleteGivens(problem, j + 1);
      var rest := GivensFrom(problem, j + 1).ws;
      assert GivensFrom(problem, j).ws == [GivenPlacement(j, problem[j])] + rest;
    }
  }

  lemma {:induction false} CellDigit(j: int, d: int)
    requires 0 <= d < 9
    ensures (9 * j + d) % 9 == d && (9 * j + d) / 9 == j
  {
  }

  /** Encoding a filled grid and decoding the placements gives back its first 81 characters. */
  lemma {:induction false} RoundTrip(problem: string)
    requires Complete(problem)
    ensures Encode(problem).Givens? && |Encode(problem).ws| == 81
    ensures forall w :: w in Encode(problem).ws ==> IsPlacement(w)
    ensures Decode(Elems(Encode(problem).ws)) == problem[..81]
  {
    CompleteGivens(problem, 0);
    var gs := GivensFrom(problem, 0).ws;
    assert forall k :: 0 <= k < |gs| ==> IsPlacement(gs[k]);
    DecodeComplete(problem, gs);
  }

  lemma {:induction false} DecodeComplete(problem: string, gs: seq<int>)
    requires Complete(problem)
    requires |gs| == 81 && StrictlyIncreasing(gs)
    requires forall i :: 0 <= i < 81 ==> IsPlacement(gs[i])
    requires forall i :: 0 <= i < 81 ==> gs[i] == GivenPlacement(i, problem[i])
    ensures forall w :: w in Elems(gs) ==> IsPlacement(w)
    ensures Decode(Elems(gs)) == problem[..81]
  {
    DecodeAscending(gs, 0);
    var s := Decode(Elems(gs));
    forall k | 0 <= k < 81 ensures s[k] == problem[k] {
      DecodeGivenAt(problem, gs, k);
    }
  }

  lemma {:induction false} DecodeGivenAt(problem: string, gs: seq<int>, k: int)
    requires Complete(problem) && 0 <= k < 81
    requires |gs| == 81 && StrictlyIncreasing(gs)
    requires forall i :: 0 <= i < 81 ==> IsPlacement(gs[i])
    requires gs[k] == GivenPlacement(k, problem[k])
    ensures forall w :: w in Elems(gs) ==> IsPlacement(w)
    ensures |Decode(Elems(gs))| == 81 && Decode(Elems(gs))[k] == problem[k]
  {
    DecodeAscending(gs, k);
    GivenDigit(k, problem[k]);
  }

  /** The digit written back for the placement of a digit character is that character. */
  lemma {:induction false} GivenDigit(j: int, c: char)
    requires '1' <= c <= '9'
    ensures 0 <= GivenPlacement(j, c) % 9 < 9 && DigitChar(GivenPlacement(j, c) % 9) == c
  {
    var v := DigitValue(c);
    CellDigit(j, v - 1);
    assert ('1' as int + (v - 1)) == c as int;
  }
}
