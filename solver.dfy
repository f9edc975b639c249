/**
 * sudoku99: encode the givens, run the search from the initial state, and
 * decode the committed placements; together with what a solved grid is in
 * Sudoku terms, and why it is an exact cover of the tables.
 */
module Solver {

  import opened Ordering
  import opened Tables
  import opened Codec
  import opened Search
  import opened Counting

  /**
   * The k-th cell (k in [0, 9)) of unit u: units 0-8 are the rows, 9-17 the
   * columns and 18-26 the boxes, each read row-major.
   */
  function UnitCell(u: int, k: int): (j: int)
    requires 0 <= u < 27 && 0 <= k < 9
    ensures 0 <= j < 81
  {
    if u < 9 then 9 * u + k
    else if u < 18 then 9 * k + (u - 9)
    else
      var b := u - 18;
      BoxParts(b, k);
      (b / 3 * 3 + k / 3) * 9 + b % 3 * 3 + k % 3
  }

  /** The digit index (0 for '1' up to 8 for '9') written in cell j. */
  function DigitAt(grid: string, j: int): int
    requires 0 <= j < |grid|
  {
    DigitValue(grid[j]) - 1
  }

  /** Unit u of the grid holds digit d somewhere. */
  predicate UnitHas(grid: string, u: int, d: int)
    requires |grid| >= 81 && 0 <= u < 27
  {
    exists k :: 0 <= k < 9 && DigitAt(grid, UnitCell(u, k)) == d
  }

  /**
   * A solved grid: 81 digits '1'..'9' such that every row, every column and
   * every box holds each digit exactly once.
   */
  predicate SolvedGrid(grid: string)
  {
    Complete(grid) &&
    (forall u, d :: 0 <= u < 27 && 0 <= d < 9 ==> UnitHas(grid, u, d)) &&
    (forall u, k1, k2 :: 0 <= u < 27 && 0 <= k1 < 9 && 0 <= k2 < 9 && k1 != k2 ==>
      grid[UnitCell(u, k1)] != grid[UnitCell(u, k2)])
  }

  /** The placements of a filled grid: digit grid[j] in cell j, for every cell. */
  function GridPlacements(grid: string): set<int>
    requires Complete(grid)
  {
    set j | 0 <= j < 81 :: GivenPlacement(j, grid[j])
  }

  /** The placement of digit index d in cell j lies in row j / 9, column j % 9. */
  lemma {:induction false} CellPlacement(j: int, d: int)
    requires 0 <= j < 81 && 0 <= d < 9
    ensures IsPlacement(9 * j + d) && Cell(9 * j + d) == j && Digit(9 * j + d) == d
    ensures Row(9 * j + d) == j / 9 && Col(9 * j + d) == j % 9
  {
    var w := 9 * j + d;
    assert w / 9 == j && w % 9 == d;
    assert w / 81 == j / 9;
  }

  /**
   * The cell of placement w is cell Col(w) of its row, cell Row(w) of its
   * column, and cell Row(w) % 3 * 3 + Col(w) % 3 of its box.
   */
  lemma {:induction false} UnitsOfPlacement(w: int)
    requires IsPlacement(w)
    ensures 0 <= Row(w) < 9 && 0 <= Col(w) < 9 && 0 <= Box(w) < 9
    ensures UnitCell(Row(w), Col(w)) == Cell(w)
    ensures UnitCell(9 + Col(w), Row(w)) == Cell(w)
    ensures UnitCell(18 + Box(w), Row(w) % 3 * 3 + Col(w) % 3) == Cell(w)
  {
    Decompose(w);
    var r, c := Row(w), Col(w);
    var b, k := Box(w), r % 3 * 3 + c % 3;
    BoxParts(b, k);
    assert b / 3 == r / 3 && b % 3 == c / 3;
    assert b / 3 * 3 + k / 3 == r && b % 3 * 3 + k % 3 == c;
  }

  /** The placement of cell j of a filled grid, with its row, column and digit. */
  lemma {:induction false} GridCell(grid: string, j: int)
    requires Complete(grid) && 0 <= j < 81
    ensures 0 <= DigitAt(grid, j) < 9
    ensures GivenPlacement(j, grid[j]) == 9 * j + DigitAt(grid, j)
    ensures var w := GivenPlacement(j, grid[j]);
      IsPlacement(w) && Cell(w) == j && Digit(w) == DigitAt(grid, j) && Row(w) == j / 9 && Col(w) == j % 9
  {
    CellPlacement(j, DigitAt(grid, j));
  }

  lemma {:induction false} Split9(j: int, r: int, c: int)
    requires 0 <= c < 9 && j == 9 * r + c
    ensures j / 9 == r && j % 9 == c
  {
  }

  lemma {:induction false} RowCover(grid: string, r: int, d: int) returns (j: int)
    requires SolvedGrid(grid) && 0 <= r < 9 && 0 <= d < 9
    ensures 0 <= j < 81 && W2Q(GivenPlacement(j, grid[j]))[1] == 81 + r * 9 + d
  {
    assert UnitHas(grid, r, d);
    var k :| 0 <= k < 9 && DigitAt(grid, UnitCell(r, k)) == d;
    j := UnitCell(r, k);
    Split9(j, r, k);
    GridCell(grid, j);
    W2QBands(GivenPlacement(j, grid[j]));
  }

  lemma {:induction false} ColCover(grid: string, c: int, d: int) returns (j: int)
    requires SolvedGrid(grid) && 0 <= c < 9 && 0 <= d < 9
    ensures 0 <= j < 81 && W2Q(GivenPlacement(j, grid[j]))[2] == 162 + c * 9 + d
  {
    assert UnitHas(grid, 9 + c, d);
    var k :| 0 <= k < 9 && DigitAt(grid, UnitCell(9 + c, k)) == d;
    j := UnitCell(9 + c, k);
    Split9(j, k, c);
    GridCell(grid, j);
    W2QBands(GivenPlacement(j, grid[j]));
  }

  /** The k-th cell of box b lies in box b. */
  lemma {:induction false} BoxCellBox(b: int, k: int)
    requires 0 <= b < 9 && 0 <= k < 9
    ensures var j := UnitCell(18 + b, k); j / 9 / 3 * 3 + j % 9 / 3 == b
  {
    BoxParts(b, k);
    Split9(UnitCell(18 + b, k), b / 3 * 3 + k / 3, b % 3 * 3 + k % 3);
  }

  lemma {:induction false} BoxCover(grid: string, d: int, b: int) returns (j: int)
    requires SolvedGrid(grid) && 0 <= d < 9 && 0 <= b < 9
    ensures 0 <= j < 81 && W2Q(GivenPlacement(j, grid[j]))[3] == 243 + d * 9 + b
  {
    assert UnitHas(grid, 18 + b, d);
    var k :| 0 <= k < 9 && DigitAt(grid, UnitCell(18 + b, k)) == d;
    j := UnitCell(18 + b, k);
    BoxCellBox(b, k);
    GridCell(grid, j);
    W2QBands(GivenPlacement(j, grid[j]));
  }

  /** Every constraint is covered by the placement of some cell of a solved grid. */
  lemma {:induction false} CoverOf(grid: string, q: int) returns (j: int)
    requires SolvedGrid(grid) && IsConstraint(q)
    ensures 0 <= j < 81 && q in W2Q(GivenPlacement(j, grid[j]))
  {
    BandParts(q);
    var band, a, b := q / 81, q % 81 / 9, q % 81 % 9;
    if band == 0 {
      j := q;
      GridCell(grid, j);
      W2QBands(GivenPlacement(j, grid[j]));
      assert W2Q(GivenPlacement(j, grid[j]))[0] == q;
    } else if band == 1 {
      j := RowCover(grid, a, b);
      assert W2Q(GivenPlacement(j, grid[j]))[1] == q;
    } else if band == 2 {
      j := ColCover(grid, a, b);
      assert W2Q(GivenPlacement(j, grid[j]))[2] == q;
    } else {
      j := BoxCover(grid, a, b);
      assert W2Q(GivenPlacement(j, grid[j]))[3] == q;
    }
  }

  /** Two cells of one unit of a solved grid that hold the same digit are one cell. */
  lemma {:induction false} SameUnit(grid: string, u: int, k1: int, k2: int, j1: int, j2: int)
    requires SolvedGrid(grid) && 0 <= u < 27 && 0 <= k1 < 9 && 0 <= k2 < 9
    requires UnitCell(u, k1) == j1 && UnitCell(u, k2) == j2 && DigitAt(grid, j1) == DigitAt(grid, j2)
    ensures j1 == j2
  {
    assert grid[j1] == grid[j2];
  }

  lemma {:induction false} RowUnique(grid: string, j1: int, j2: int)
    requires SolvedGrid(grid) && 0 <= j1 < 81 && 0 <= j2 < 81
    requires W2Q(GivenPlacement(j1, grid[j1]))[1] == W2Q(GivenPlacement(j2, grid[j2]))[1]
    ensures j1 == j2
  {
    var w1, w2 := GivenPlacement(j1, grid[j1]), GivenPlacement(j2, grid[j2]);
    GridCell(grid, j1);
    GridCell(grid, j2);
    BandClash(w1, w2, 1);
    UnitsOfPlacement(w1);
    UnitsOfPlacement(w2);
    SameUnit(grid, Row(w1), Col(w1), Col(w2), j1, j2);
  }

  lemma {:induction false} ColUnique(grid: string, j1: int, j2: int)
    requires SolvedGrid(grid) && 0 <= j1 < 81 && 0 <= j2 < 81
    requires W2Q(GivenPlacement(j1, grid[j1]))[2] == W2Q(GivenPlacement(j2, grid[j2]))[2]
    ensures j1 == j2
  {
    var w1, w2 := GivenPlacement(j1, grid[j1]), GivenPlacement(j2, grid[j2]);
    GridCell(grid, j1);
    GridCell(grid, j2);
    BandClash(w1, w2, 2);
    UnitsOfPlacement(w1);
    UnitsOfPlacement(w2);
    SameUnit(grid, 9 + Col(w1), Row(w1), Row(w2), j1, j2);
  }

  lemma {:induction false} BoxUnique(grid: string, j1: int, j2: int)
    requires SolvedGrid(grid) && 0 <= j1 < 81 && 0 <= j2 < 81
    requires W2Q(GivenPlacement(j1, grid[j1]))[3] == W2Q(GivenPlacement(j2, grid[j2]))[3]
    ensures j1 == j2
  {
    var w1, w2 := GivenPlacement(j1, grid[j1]), GivenPlacement(j2, grid[j2]);
    GridCell(grid, j1);
    GridCell(grid, j2);
    BandClash(w1, w2, 3);
    UnitsOfPlacement(w1);
    UnitsOfPlacement(w2);
    SameUnit(grid, 18 + Box(w1), Row(w1) % 3 * 3 + Col(w1) % 3, Row(w2) % 3 * 3 + Col(w2) % 3, j1, j2);
  }

  /** Two cells of a solved grid whose placements cover the same constraint are one cell. */
  lemma {:induction false} CoverUnique(grid: string, q: int, j1: int, j2: int)
    requires SolvedGrid(grid) && IsConstraint(q) && 0 <= j1 < 81 && 0 <= j2 < 81
    requires q in W2Q(GivenPlacement(j1, grid[j1])) && q in W2Q(GivenPlacement(j2, grid[j2]))
    ensures j1 == j2
  {
    GridCell(grid, j1);
    GridCell(grid, j2);
    var w1, w2 := GivenPlacement(j1, grid[j1]), GivenPlacement(j2, grid[j2]);
    var i := q / 81;
    assert W2Q(w1)[i] == q && W2Q(w2)[i] == q;
    if i == 0 {
      W2QBands(w1);
      W2QBands(w2);
    } else if i == 1 {
      RowUnique(grid, j1, j2);
    } else if i == 2 {
      ColUnique(grid, j1, j2);
    } else {
      BoxUnique(grid, j1, j2);
    }
  }

  /** Exactly one placement of a solved grid covers constraint q. */
  lemma {:induction false} GridCoveredOnce(grid: string, q: int)
    requires SolvedGrid(grid) && IsConstraint(q)
    ensures |GridPlacements(grid) * Q2W(q)| == 1
  {
    var G := GridPlacements(grid);
    var j := CoverOf(grid, q);
    var w := GivenPlacement(j, grid[j]);
    GridCell(grid, j);
    Q2WMember(q, w);
    forall g | g in G * Q2W(q) ensures g == w {
      var j' :| 0 <= j' < 81 && g == GivenPlacement(j', grid[j']);
      Q2WMember(q, g);
      CoverUnique(grid, q, j, j');
    }
    assert G * Q2W(q) == {w};
  }

  /** The placements of a solved grid cover every constraint exactly once. */
  lemma {:induction false} GridExactCover(grid: string)
    requires SolvedGrid(grid)
    ensures IndexOk(TableIndex())
    ensures ExactCover(TableIndex(), GridPlacements(grid))
  {
    TableIndexOk();
    var x, G := TableIndex(), GridPlacements(grid);
    forall g | g in G ensures IsPlacement(g) {
      var j :| 0 <= j < 81 && g == GivenPlacement(j, grid[j]);
      GridCell(grid, j);
    }
    GridCount(grid);
    forall q | 0 <= q < 324 ensures |G * x.q2w[q]| == 1 {
      GridCoveredOnce(grid, q);
    }
  }

  /** A filled grid has 81 placements, one per cell. */
  lemma {:induction false} GridCount(grid: string)
    requires Complete(grid)
    ensures |GridPlacements(grid)| == 81
    ensures Encode(grid).Givens? && Elems(Encode(grid).ws) == GridPlacements(grid)
  {
    CompleteGivens(grid, 0);
    var gs := Encode(grid).ws;
    var G := GridPlacements(grid);
    IncreasingCard(gs);
    forall g | g in G ensures g in Elems(gs) {
      var j :| 0 <= j < 81 && g == GivenPlacement(j, grid[j]);
      assert gs[j] == g;
    }
    forall g | g in Elems(gs) ensures g in G {
      var j :| 0 <= j < 81 && gs[j] == g;
      assert g == GivenPlacement(j, grid[j]);
    }
    assert Elems(gs) == G;
  }

  /** The tables of the solver, as the search reads them. */
  function TableIndex(): Index
  {
    Index(seq(729, w requires 0 <= w < 729 => W2Q(w)),
          seq(324, q requires 0 <= q < 324 => Q2W(q)),
          seq(729, w requires 0 <= w < 729 => W2Q2W(w)))
  }

  /** Four values, one in each band of 81, are four distinct constraints. */
  lemma {:induction false} OnePerBand(qs: seq<int>)
    requires |qs| == 4 && forall i :: 0 <= i < 4 ==> 81 * i <= qs[i] < 81 * (i + 1)
    ensures forall i :: 0 <= i < 4 ==> IsConstraint(qs[i])
    ensures forall i, j :: 0 <= i < j < 4 ==> qs[i] != qs[j]
  {
    forall i, j | 0 <= i < j < 4 ensures qs[i] != qs[j] {
      assert qs[i] < 81 * (i + 1) <= 81 * j <= qs[j];
    }
  }

  /** Each placement has four distinct constraints, one in each band. */
  lemma {:induction false} TableShape()
    ensures var x := TableIndex();
      (forall w :: 0 <= w < 729 ==> |x.w2q[w]| == 4) &&
      (forall w, i :: 0 <= w < 729 && 0 <= i < |x.w2q[w]| ==> IsConstraint(x.w2q[w][i])) &&
      (forall w, i, j :: 0 <= w < 729 && 0 <= i < j < |x.w2q[w]| ==> x.w2q[w][i] != x.w2q[w][j])
  {
    var x := TableIndex();
    forall w | 0 <= w < 729
      ensures |x.w2q[w]| == 4
      ensures forall i :: 0 <= i < 4 ==> IsConstraint(x.w2q[w][i])
      ensures forall i, j :: 0 <= i < j < 4 ==> x.w2q[w][i] != x.w2q[w][j]
    {
      OnePerBand(W2Q(w));
    }
  }

  /** q2w lists, for each constraint, the placements whose w2q entry names it. */
  lemma {:induction false} TableIncidence()
    ensures var x := TableIndex();
      forall q, w :: 0 <= q < 324 && 0 <= w < 729 ==> (w in x.q2w[q] <==> q in x.w2q[w])
  {
    var x := TableIndex();
    forall q, w | 0 <= q < 324 && 0 <= w < 729 ensures w in x.q2w[q] <==> q in x.w2q[w] {
      Q2WMember(q, w);
    }
  }

  /** Entry w of w2q2w is the union of q2w over the four constraints of w. */
  lemma {:induction false} UnionAt(w: int)
    requires 0 <= w < 729
    ensures var x := TableIndex();
      x.w2q2w[w] == x.q2w[x.w2q[w][0]] + x.q2w[x.w2q[w][1]] + x.q2w[x.w2q[w][2]] + x.q2w[x.w2q[w][3]]
  {
    var qs := W2Q(w);
    OnePerBand(qs);
    var a, b, c, d := TableIndex().q2w[qs[0]], TableIndex().q2w[qs[1]], TableIndex().q2w[qs[2]], TableIndex().q2w[qs[3]];
    assert TableIndex().w2q[w] == qs;
    assert TableIndex().w2q2w[w] == W2Q2W(w) == a + b + c + d;
  }

  /** w2q2w[w] is the union of q2w over the four constraints of w. */
  lemma {:induction false} TableUnion()
    ensures var x := TableIndex();
      forall w :: 0 <= w < 729 ==>
        x.w2q2w[w] == x.q2w[x.w2q[w][0]] + x.q2w[x.w2q[w][1]] + x.q2w[x.w2q[w][2]] + x.q2w[x.w2q[w][3]]
  {
    forall w | 0 <= w < 729 {
      UnionAt(w);
    }
  }

  /** The tables satisfy everything the search relies on. */
  lemma {:induction false} TableIndexOk()
    ensures IndexOk(TableIndex())
  {
    TableShape();
    TableIncidence();
    TableUnion();
  }

  /** The initial state: nothing taken or committed, every count at 9. */
  lemma {:induction false} InitialConsistent(x: Index, c: seq<int>)
    requires IndexOk(x) && |c| == 324 && forall q :: 0 <= q < 324 ==> c[q] == 9
    ensures Consistent(x, c, {}, {}) && Fixpoint(x, {}, {})
  {
    forall q | 0 <= q < 324 ensures CountAt(x, c, q, {}, {}, {}) {
      assert Live(x, q, {}) == x.q2w[q];
    }
  }

  /** How sudoku99 ends: a grid, or the exception that escapes it. */
  datatype Answer = Solved(grid: string) | BadCharacter(pos: nat) | Contradiction | NoBranch

  /** The solved grid S agrees with every given of the puzzle. */
  predicate Fits(problem: string, S: string)
    requires Complete(S)
  {
    forall j :: 0 <= j < Limit(problem) && IsGiven(problem, j) ==> S[j] == problem[j]
  }

  /** The givens of a puzzle that a solved grid fits belong to that grid's placements. */
  lemma {:induction false} GivensInGrid(problem: string, S: string, ws: seq<int>)
    requires SolvedGrid(S) && Fits(problem, S) && Encode(problem) == Givens(ws)
    ensures forall i :: 0 <= i < |ws| ==> ws[i] in GridPlacements(S)
  {
    forall i | 0 <= i < |ws| ensures ws[i] in GridPlacements(S) {
      assert ws[i] in ws;
      var j :| 0 <= j < Limit(problem) && IsGiven(problem, j) && ws[i] == GivenPlacement(j, problem[j]);
      assert S[j] == problem[j];
    }
  }

  /** On a filled puzzle every placement of the grid is a given. */
  lemma {:induction false} CompleteAllGiven(problem: string, ws: seq<int>)
    requires Complete(problem) && Encode(problem) == Givens(ws)
    ensures forall g :: g in GridPlacements(problem) ==> g in ws
  {
    GridCount(problem);
  }

  /** Decoding the placements of a filled grid gives back the grid. */
  lemma {:induction false} DecodeGrid(grid: string)
    requires Complete(grid)
    ensures Placements(GridPlacements(grid))
    ensures Decode(GridPlacements(grid)) == grid[..81]
  {
    GridCount(grid);
    RoundTrip(grid);
  }

  /** Which unit the k-th cell of unit u lies in: its row, its column or its box. */
  lemma {:induction false} CellUnit(u: int, k: int)
    requires 0 <= u < 27 && 0 <= k < 9
    ensures var j := UnitCell(u, k);
      (u < 9 ==> j / 9 == u) &&
      (9 <= u < 18 ==> j % 9 == u - 9) &&
      (18 <= u ==> j / 9 / 3 * 3 + j % 9 / 3 == u - 18)
  {
    if u < 9 {
      Split9(UnitCell(u, k), u, k);
    } else if u < 18 {
      Split9(UnitCell(u, k), k, u - 9);
    } else {
      BoxCellBox(u - 18, k);
    }
  }

  /** Different positions in a unit are different cells. */
  lemma {:induction false} UnitCellInjective(u: int, k1: int, k2: int)
    requires 0 <= u < 27 && 0 <= k1 < 9 && 0 <= k2 < 9 && k1 != k2
    ensures UnitCell(u, k1) != UnitCell(u, k2)
  {
    if 18 <= u {
      var b := u - 18;
      BoxParts(b, k1);
      BoxParts(b, k2);
      Split9(UnitCell(u, k1), b / 3 * 3 + k1 / 3, b % 3 * 3 + k1 % 3);
      Split9(UnitCell(u, k2), b / 3 * 3 + k2 / 3, b % 3 * 3 + k2 % 3);
    }
  }

  /** Placements that are disjoint in the solver's tables share no constraint. */
  lemma {:induction false} DisjointNoClash(ws: set<int>)
    requires Placements(ws) && IndexOk(TableIndex()) && Disjoint(TableIndex(), ws)
    ensures NoClash(ws)
  {
    forall w, v | w in ws && v in ws && w != v ensures !Share(w, v) {
      assert TableIndex().w2q2w[w] == W2Q2W(w);
      W2Q2WMember(w, v);
    }
  }

  /** More than 80 disjoint placements are an exact cover of the solver's tables. */
  lemma {:induction false} DisjointExact(ws: set<int>)
    requires Placements(ws) && |ws| > 80 && IndexOk(TableIndex()) && Disjoint(TableIndex(), ws)
    ensures NoClash(ws) && |ws| == 81
    ensures forall q :: IsConstraint(q) ==> |ws * Q2W(q)| == 1
    ensures ExactCover(TableIndex(), ws)
  {
    DisjointNoClash(ws);
    AllCovered(ws);
    forall q | 0 <= q < 324 ensures |ws * TableIndex().q2w[q]| == 1 {
      assert TableIndex().q2w[q] == Q2W(q);
      assert IsConstraint(q);
    }
  }

  /** Two placements of ws that share no constraint lie in different cells. */
  lemma {:induction false} CellsDiffer(ws: set<int>, w: int, v: int)
    requires NoClash(ws) && w in ws && v in ws && w != v
    ensures Cell(w) != Cell(v)
  {
    ShareMeaning(w, v);
  }

  lemma {:induction false} CellOrder(w: int, v: int)
    requires 0 <= w < v && w / 9 != v / 9
    ensures w / 9 < v / 9
  {
  }

  /** In ascending order, 81 placements that share no constraint fill cell i at position i. */
  lemma {:induction false} CoverCells(ws: set<int>)
    requires NoClash(ws) && |ws| == 81
    ensures forall w :: w in ws ==> 0 <= w < 729
    ensures var s := Sorted(ws, 729); |s| == 81 && forall i :: 0 <= i < 81 ==> s[i] / 9 == i
  {
    assert forall w :: w in ws ==> IsPlacement(w);
    var s := Sorted(ws, 729);
    var cells := seq(81, i requires 0 <= i < 81 => s[i] / 9);
    forall i, j | 0 <= i < j < 81 ensures cells[i] < cells[j] {
      assert s[i] in Elems(s) && s[j] in Elems(s);
      CellsDiffer(ws, s[i], s[j]);
      CellOrder(s[i], s[j]);
    }
    Identity(cells);
    forall i | 0 <= i < 81 ensures s[i] / 9 == i {
      assert cells[i] == s[i] / 9;
    }
  }

  /** The digit character written back for placement w stands for w itself in cell w / 9. */
  lemma {:induction false} WrittenBack(j: int, w: int)
    requires 0 <= w && w / 9 == j
    ensures GivenPlacement(j, DigitChar(w % 9)) == w
  {
    assert DigitValue(DigitChar(w % 9)) == w % 9 + 1;
  }

  lemma {:induction false} DecodeAt(ws: set<int>, j: int)
    requires forall w :: w in ws ==> 0 <= w < 729
    requires 0 <= j < |ws|
    ensures Decode(ws)[j] == DigitChar(Sorted(ws, 729)[j] % 9)
  {
  }

  lemma {:induction false} DecodeEntry(ws: set<int>, j: int)
    requires forall w :: w in ws ==> 0 <= w < 729
    requires |ws| == 81 && 0 <= j < 81 && Sorted(ws, 729)[j] / 9 == j
    ensures GivenPlacement(j, Decode(ws)[j]) == Sorted(ws, 729)[j]
  {
    DecodeAt(ws, j);
    WrittenBack(j, Sorted(ws, 729)[j]);
  }

  /** Character j of the decoded cover is the placement in cell j. */
  lemma {:induction false} DecodeEntries(ws: set<int>)
    requires NoClash(ws) && |ws| == 81
    ensures Complete(Decode(ws))
    ensures forall j :: 0 <= j < 81 ==> GivenPlacement(j, Decode(ws)[j]) == Sorted(ws, 729)[j]
  {
    CoverCells(ws);
    forall j | 0 <= j < 81 ensures GivenPlacement(j, Decode(ws)[j]) == Sorted(ws, 729)[j] {
      DecodeEntry(ws, j);
    }
  }

  /** Decoding 81 placements that share no constraint gives a filled grid whose placements they are. */
  lemma {:induction false} DecodeCover(ws: set<int>)
    requires NoClash(ws) && |ws| == 81
    ensures Placements(ws)
    ensures Complete(Decode(ws)) && GridPlacements(Decode(ws)) == ws
  {
    DecodeEntries(ws);
    var s := Sorted(ws, 729);
    var S := Decode(ws);
    forall g | g in GridPlacements(S) ensures g in ws {
      var j :| 0 <= j < 81 && g == GivenPlacement(j, S[j]);
      assert s[j] in Elems(s);
    }
    forall g | g in ws ensures g in GridPlacements(S) {
      assert g in Elems(s);
      var j :| 0 <= j < |s| && s[j] == g;
      assert GivenPlacement(j, S[j]) == g;
    }
  }

  /** The placement of a filled grid that meets constraint q, with the cell it fills. */
  lemma {:induction false} MeetOf(grid: string, q: int) returns (w: int, j: int)
    requires Complete(grid) && IsConstraint(q) && |GridPlacements(grid) * Q2W(q)| == 1
    ensures IsPlacement(w) && q in W2Q(w)
    ensures 0 <= j < 81 && w == GivenPlacement(j, grid[j]) && Cell(w) == j && Digit(w) == DigitAt(grid, j)
  {
    var A := GridPlacements(grid) * Q2W(q);
    assert A != {};
    w :| w in A;
    Q2WMember(q, w);
    j :| 0 <= j < 81 && w == GivenPlacement(j, grid[j]);
    GridCell(grid, j);
  }

  /** A filled grid whose placements meet every constraint holds digit d in row r. */
  lemma {:induction false} RowHas(grid: string, r: int, d: int)
    requires Complete(grid) && forall q :: IsConstraint(q) ==> |GridPlacements(grid) * Q2W(q)| == 1
    requires 0 <= r < 9 && 0 <= d < 9
    ensures UnitHas(grid, r, d)
  {
    var v := r * 81 + 0 * 9 + d;
    Compose(r, 0, d);
    var w, j := MeetOf(grid, W2Q(v)[1]);
    assert W2Q(w)[1] == W2Q(v)[1];
    BandClash(w, v, 1);
    UnitsOfPlacement(w);
    assert DigitAt(grid, UnitCell(r, Col(w))) == d;
  }

  lemma {:induction false} ColHas(grid: string, c: int, d: int)
    requires Complete(grid) && forall q :: IsConstraint(q) ==> |GridPlacements(grid) * Q2W(q)| == 1
    requires 0 <= c < 9 && 0 <= d < 9
    ensures UnitHas(grid, 9 + c, d)
  {
    var v := 0 * 81 + c * 9 + d;
    Compose(0, c, d);
    var w, j := MeetOf(grid, W2Q(v)[2]);
    assert W2Q(w)[2] == W2Q(v)[2];
    BandClash(w, v, 2);
    UnitsOfPlacement(w);
    assert DigitAt(grid, UnitCell(9 + c, Row(w))) == d;
  }

  /** A placement of digit d in box b. */
  lemma {:induction false} BoxPlacement(b: int, d: int) returns (v: int)
    requires 0 <= b < 9 && 0 <= d < 9
    ensures IsPlacement(v) && Box(v) == b && Digit(v) == d
  {
    var r, c := b / 3 * 3, b % 3 * 3;
    v := r * 81 + c * 9 + d;
    Compose(r, c, d);
    assert r / 3 == b / 3 && c / 3 == b % 3;
  }

  /** The position of a placement's cell within its box. */
  lemma {:induction false} BoxSlot(w: int) returns (k: int)
    requires IsPlacement(w)
    ensures 0 <= Box(w) < 9 && 0 <= k < 9 && UnitCell(18 + Box(w), k) == Cell(w)
  {
    UnitsOfPlacement(w);
    k := Row(w) % 3 * 3 + Col(w) % 3;
  }

  lemma {:induction false} BoxHas(grid: string, b: int, d: int)
    requires Complete(grid) && forall q :: IsConstraint(q) ==> |GridPlacements(grid) * Q2W(q)| == 1
    requires 0 <= b < 9 && 0 <= d < 9
    ensures UnitHas(grid, 18 + b, d)
  {
    var v := BoxPlacement(b, d);
    var w, j := MeetOf(grid, W2Q(v)[3]);
    assert W2Q(w)[3] == W2Q(v)[3];
    BandClash(w, v, 3);
    var k := BoxSlot(w);
    assert DigitAt(grid, UnitCell(18 + b, k)) == d;
  }

  /** Two cells of one unit of a filled grid whose placements share no constraint hold different digits. */
  lemma {:induction false} UnitDistinct(grid: string, u: int, k1: int, k2: int)
    requires Complete(grid) && NoClash(GridPlacements(grid))
    requires 0 <= u < 27 && 0 <= k1 < 9 && 0 <= k2 < 9 && k1 != k2
    ensures grid[UnitCell(u, k1)] != grid[UnitCell(u, k2)]
  {
    var j1, j2 := UnitCell(u, k1), UnitCell(u, k2);
    UnitCellInjective(u, k1, k2);
    CellUnit(u, k1);
    CellUnit(u, k2);
    GridCell(grid, j1);
    GridCell(grid, j2);
    var w1, w2 := GivenPlacement(j1, grid[j1]), GivenPlacement(j2, grid[j2]);
    assert w1 in GridPlacements(grid) && w2 in GridPlacements(grid);
    ShareMeaning(w1, w2);
  }

  /**
   * A filled grid whose placements meet every constraint exactly once is
   * solved: the converse of GridExactCover.
   */
  lemma {:induction false} CoverSolved(grid: string)
    requires Complete(grid) && NoClash(GridPlacements(grid))
    requires forall q :: IsConstraint(q) ==> |GridPlacements(grid) * Q2W(q)| == 1
    ensures SolvedGrid(grid)
  {
    forall u, d | 0 <= u < 27 && 0 <= d < 9 ensures UnitHas(grid, u, d) {
      if u < 9 {
        RowHas(grid, u, d);
      } else if u < 18 {
        ColHas(grid, u - 9, d);
      } else {
        BoxHas(grid, u - 18, d);
      }
    }
    forall u, k1, k2 | 0 <= u < 27 && 0 <= k1 < 9 && 0 <= k2 < 9 && k1 != k2
      ensures grid[UnitCell(u, k1)] != grid[UnitCell(u, k2)]
    {
      UnitDistinct(grid, u, k1, k2);
    }
  }

  /** A filled grid whose placements include every given agrees with the puzzle on its givens. */
  lemma {:induction false} CoverFits(problem: string, givens: seq<int>, grid: string)
    requires Encode(problem) == Givens(givens) && Complete(grid)
    requires forall i :: 0 <= i < |givens| ==> givens[i] in GridPlacements(grid)
    ensures Fits(problem, grid)
  {
    forall j | 0 <= j < Limit(problem) && IsGiven(problem, j) ensures grid[j] == problem[j] {
      var g := GivenPlacement(j, problem[j]);
      assert g in givens;
      var i :| 0 <= i < |givens| && givens[i] == g;
      var j' :| 0 <= j' < 81 && g == GivenPlacement(j', grid[j']);
      GridCell(grid, j');
      CellDigit(j, DigitValue(problem[j]) - 1);
    }
  }

  /**
   * More than 80 disjoint placements that include the givens decode to a
   * solved grid that fits the puzzle.
   */
  lemma {:induction false} SolvedFromCover(problem: string, givens: seq<int>, ws: set<int>)
    requires Encode(problem) == Givens(givens)
    requires Placements(ws) && |ws| > 80 && IndexOk(TableIndex()) && Disjoint(TableIndex(), ws)
    requires forall i :: 0 <= i < |givens| ==> givens[i] in ws
    ensures SolvedGrid(Decode(ws)) && Fits(problem, Decode(ws))
  {
    DisjointExact(ws);
    DecodeCover(ws);
    CoverSolved(Decode(ws));
    CoverFits(problem, givens, Decode(ws));
  }

  /**
   * The solution the search is measured against: the placements of a solved
   * grid that fits the givens (the puzzle itself when it is solved already).
   */
  lemma {:induction false} Target(problem: string, givens: seq<int>) returns (G: set<int>)
    requires Encode(problem) == Givens(givens)
    ensures IndexOk(TableIndex())
    ensures (exists S :: SolvedGrid(S) && Fits(problem, S)) ==>
      Extends(TableIndex(), G, givens, {}, {}) && Safe(TableIndex(), G, givens, {}, {})
    ensures SolvedGrid(problem) ==>
      G == GridPlacements(problem) && Extends(TableIndex(), G, givens, {}, {}) && Pending(G, givens, {})
  {
    TableIndexOk();
    G := {};
    if SolvedGrid(problem) {
      G := GridPlacements(problem);
      GridExactCover(problem);
      GivensInGrid(problem, problem, givens);
      CompleteAllGiven(problem, givens);
    } else if S :| SolvedGrid(S) && Fits(problem, S) {
      GridExactCover(S);
      GivensInGrid(problem, S, givens);
      G := GridPlacements(S);
    }
  }

  /**
   * Encode the givens, and when every character is a digit, search and decode
   * the placements the search completes with.
   */
  method Sudoku99(problem: string) returns (r: Answer, ghost c: seq<int>, ghost t: set<int>, ghost d: set<int>)
    ensures r.BadCharacter? <==> Encode(problem).NotADigit?
    ensures r.BadCharacter? ==> r.pos == Encode(problem).pos
    ensures r.Solved? ==> |r.grid| > 80 && forall i :: 0 <= i < |r.grid| ==> '1' <= r.grid[i] <= '9'
    ensures Encode(problem) == Givens([]) ==> r == NoBranch
    ensures (exists S :: SolvedGrid(S) && Fits(problem, S)) ==>
      !r.Contradiction? && (r.Solved? ==> SolvedGrid(r.grid) && Fits(problem, r.grid))
    ensures SolvedGrid(problem) ==> r == Solved(problem[..81])
    ensures r.Contradiction? ==> Evidence(TableIndex(), {}, {}, DeadEnd, c, t, d)
    ensures r.NoBranch? ==>
      Evidence(TableIndex(), {}, {}, NoBranchPoint, c, t, d) && Encode(problem).Givens? &&
      forall i :: 0 <= i < |Encode(problem).ws| ==> Encode(problem).ws[i] in d
  {
    var e := Encode(problem);
    if e.NotADigit? {
      return BadCharacter(e.pos), [], {}, {};
    }
    r, c, t, d := SolveGivens(problem, e.ws);
  }

  /**
   * The guarded part of sudoku99: search from nothing taken and every count
   * at 9, and decode the placements of the Completed exception; a dead end
   * or a missing branch point escapes as Contradiction or NoBranch.
   */
  method SolveGivens(problem: string, givens: seq<int>)
    returns (r: Answer, ghost c: seq<int>, ghost t: set<int>, ghost d: set<int>)
    requires Encode(problem) == Givens(givens)
    ensures !r.BadCharacter?
    ensures r.Solved? ==> |r.grid| > 80 && forall i :: 0 <= i < |r.grid| ==> '1' <= r.grid[i] <= '9'
    ensures givens == [] ==> r == NoBranch
    ensures (exists S :: SolvedGrid(S) && Fits(problem, S)) ==>
      !r.Contradiction? && (r.Solved? ==> SolvedGrid(r.grid) && Fits(problem, r.grid))
    ensures SolvedGrid(problem) ==> r == Solved(problem[..81])
    ensures r.Contradiction? ==> Evidence(TableIndex(), {}, {}, DeadEnd, c, t, d)
    ensures r.NoBranch? ==>
      Evidence(TableIndex(), {}, {}, NoBranchPoint, c, t, d) && forall i :: 0 <= i < |givens| ==> givens[i] in d
  {
    var x := TableIndex();
    ghost var G := Target(problem, givens);
    var q2nw := new int[324](_ => 9);
    InitialConsistent(x, q2nw[..]);
    ForcingEmpty(x, givens, {}, {});
    var outcome;
    outcome, c, t, d := Search.Search(x, givens, q2nw, {}, {}, G);
    assert SolvedGrid(problem) ==> outcome == Completed(GridPlacements(problem));
    match outcome
    case Completed(ws) =>
      r := Solved(Decode(ws));
      if SolvedGrid(problem) {
        DecodeGrid(problem);
      }
      if exists S :: SolvedGrid(S) && Fits(problem, S) {
        SolvedFromCover(problem, givens, ws);
      }
    case DeadEnd =>
      r := Contradiction;
    case NoBranchPoint =>
      r := NoBranch;
  }
}
