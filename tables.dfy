/**
 * The static exact-cover tables of the solver.
 *
 * A placement w in [0, 729) puts digit w % 9 + 1 into cell w / 9 (cells are
 * numbered row-major).  A constraint q in [0, 324) is one of four bands of 81:
 *   [0, 81)    the cell holds some digit,
 *   [81, 162)  a row holds some digit,
 *   [162, 243) a column holds some digit,
 *   [243, 324) a 3x3 box holds some digit.
 * W2Q, Q2W and W2Q2W are the tables w2q, q2w and w2q2w of the solver; they are
 * computed once and only read afterwards, so here they are functions.
 */
module Tables {

  import opened Ordering

  predicate IsPlacement(w: int) { 0 <= w < 729 }

  predicate IsConstraint(q: int) { 0 <= q < 324 }

  /** The set of all placements. */
  function AllPlacements(): set<int> { set w | 0 <= w < 729 && IsPlacement(w) }

  function Cell(w: int): int { w / 9 }
  function Row(w: int): int { w / 81 }
  function Col(w: int): int { w / 9 % 9 }
  function Digit(w: int): int { w % 9 }
  function Box(w: int): int { Row(w) / 3 * 3 + Col(w) / 3 }

  /** w2q: the four constraints placement n covers, in the solver's own arithmetic. */
  function W2Q(n: int): (qs: seq<int>)
    requires IsPlacement(n)
    ensures |qs| == 4
    ensures forall i :: 0 <= i < 4 ==> 81 * i <= qs[i] < 81 * (i + 1)
  {
    [n / 9, n / 81 * 9 + n % 9 + 81, n % 81 + 162, n % 9 * 9 + n / 243 * 3 + n / 27 % 3 + 243]
  }

  /** A placement is determined by its row, column and digit. */
  lemma {:induction false} Decompose(w: int)
    requires IsPlacement(w)
    ensures 0 <= Row(w) < 9 && 0 <= Col(w) < 9 && 0 <= Digit(w) < 9 && 0 <= Box(w) < 9
    ensures w == Row(w) * 81 + Col(w) * 9 + Digit(w)
    ensures Cell(w) == Row(w) * 9 + Col(w)
  {
  }

  lemma {:induction false} Compose(r: int, c: int, d: int)
    requires 0 <= r < 9 && 0 <= c < 9 && 0 <= d < 9
    ensures IsPlacement(r * 81 + c * 9 + d)
    ensures Row(r * 81 + c * 9 + d) == r
    ensures Col(r * 81 + c * 9 + d) == c
    ensures Digit(r * 81 + c * 9 + d) == d
  {
    var w := r * 81 + c * 9 + d;
    assert w / 9 == r * 9 + c;
    assert w % 9 == d;
    assert w / 81 == r;
  }

  /** Band by band, W2Q names the cell, the row and digit, the column and digit, the box and digit. */
  lemma {:induction false} W2QBands(n: int)
    requires IsPlacement(n)
    ensures W2Q(n)[0] == Cell(n)
    ensures W2Q(n)[1] == 81 + Row(n) * 9 + Digit(n)
    ensures W2Q(n)[2] == 162 + Col(n) * 9 + Digit(n)
    ensures W2Q(n)[3] == 243 + Digit(n) * 9 + Box(n)
  {
    Decompose(n);
    var r, c, d := Row(n), Col(n), Digit(n);
    assert n % 81 == c * 9 + d;
    assert n / 243 == r / 3;
    assert n / 27 == r * 3 + c / 3;
    assert n / 27 % 3 == c / 3;
  }

  /** The placement of digit d + 1 at row r, column c. */
  function Place(r: int, c: int, d: int): int { r * 81 + c * 9 + d }

  /**
   * The k-th placement (k in [0, 9)) that covers constraint q, in ascending
   * order: the nine digits of a cell, or the nine cells of a row, a column or
   * a box (row-major inside the box) holding one digit.
   */
  function Member(q: int, k: int): int
    requires IsConstraint(q) && 0 <= k < 9
  {
    var p := q % 81;
    if q < 81 then Place(q / 9, q % 9, k)
    else if q < 162 then Place(p / 9, k, p % 9)
    else if q < 243 then Place(k, p / 9, p % 9)
    else Place(p % 9 / 3 * 3 + k / 3, p % 9 % 3 * 3 + k % 3, p / 9)
  }

  /** A constraint index splits into its band, and the two coordinates inside the band. */
  lemma {:induction false} BandParts(q: int)
    requires IsConstraint(q)
    ensures 0 <= q / 81 < 4 && 0 <= q % 81 / 9 < 9 && 0 <= q % 81 % 9 < 9
    ensures q == q / 81 * 81 + q % 81 / 9 * 9 + q % 81 % 9
  {
  }

  /** Inside box b, the k-th cell lies on row b / 3 * 3 + k / 3 and column b % 3 * 3 + k % 3. */
  lemma {:induction false} BoxParts(b: int, k: int)
    requires 0 <= b < 9 && 0 <= k < 9
    ensures (b / 3 * 3 + k / 3) / 3 == b / 3 && (b / 3 * 3 + k / 3) % 3 == k / 3
    ensures (b % 3 * 3 + k % 3) / 3 == b % 3 && (b % 3 * 3 + k % 3) % 3 == k % 3
  {
  }

  /** The band and the two coordinates of band * 81 + a * 9 + b. */
  lemma {:induction false} BandOf(q: int, band: int, a: int, b: int)
    requires 0 <= a < 9 && 0 <= b < 9 && q == band * 81 + a * 9 + b
    ensures q / 81 == band && q % 81 == a * 9 + b && q % 81 / 9 == a && q % 81 % 9 == b
  {
    assert 0 <= a * 9 + b < 81;
  }

  lemma {:induction false} MemberCovers(q: int, k: int)
    requires IsConstraint(q) && 0 <= k < 9
    ensures IsPlacement(Member(q, k)) && W2Q(Member(q, k))[q / 81] == q
  {
    BandParts(q);
    var band, a, b := q / 81, q % 81 / 9, q % 81 % 9;
    if band == 0 {
      CellMemberCovers(a, b, k);
    } else if band == 1 {
      RowMemberCovers(a, b, k);
    } else if band == 2 {
      ColMemberCovers(a, b, k);
    } else {
      BoxMemberCovers(a, b, k);
    }
  }

  lemma {:induction false} CellMemberCovers(a: int, b: int, k: int)
    requires 0 <= a < 9 && 0 <= b < 9 && 0 <= k < 9
    ensures IsPlacement(Member(a * 9 + b, k)) && W2Q(Member(a * 9 + b, k))[0] == a * 9 + b
  {
    var q := a * 9 + b;
    assert q / 9 == a && q % 9 == b;
    Compose(a, b, k);
    W2QBands(Member(q, k));
  }

  lemma {:induction false} RowMemberCovers(a: int, b: int, k: int)
    requires 0 <= a < 9 && 0 <= b < 9 && 0 <= k < 9
    ensures var q := 81 + a * 9 + b;
      IsPlacement(Member(q, k)) && W2Q(Member(q, k))[1] == q
  {
    var q := 81 + a * 9 + b;
    BandOf(q, 1, a, b);
    Compose(a, k, b);
    W2QBands(Member(q, k));
  }

  lemma {:induction false} ColMemberCovers(a: int, b: int, k: int)
    requires 0 <= a < 9 && 0 <= b < 9 && 0 <= k < 9
    ensures var q := 162 + a * 9 + b;
      IsPlacement(Member(q, k)) && W2Q(Member(q, k))[2] == q
  {
    var q := 162 + a * 9 + b;
    BandOf(q, 2, a, b);
    Compose(k, a, b);
    W2QBands(Member(q, k));
  }

  lemma {:induction false} BoxMemberCovers(d: int, b: int, k: int)
    requires 0 <= d < 9 && 0 <= b < 9 && 0 <= k < 9
    ensures var q := 243 + d * 9 + b;
      IsPlacement(Member(q, k)) && W2Q(Member(q, k))[3] == q
  {
    var q := 243 + d * 9 + b;
    BandOf(q, 3, d, b);
    BoxParts(b, k);
    var r, c := b / 3 * 3 + k / 3, b % 3 * 3 + k % 3;
    Compose(r, c, d);
    var w := Member(q, k);
    assert w == Place(r, c, d);
    assert Box(w) == r / 3 * 3 + c / 3 == b;
    W2QBands(w);
  }

  lemma {:induction false} CoveredIsMember(w: int, i: int)
    requires IsPlacement(w) && 0 <= i < 4
    ensures exists k :: 0 <= k < 9 && Member(W2Q(w)[i], k) == w
  {
    Decompose(w);
    W2QBands(w);
    if i == 0 {
      CellCoveredIsMember(w);
    } else if i == 1 {
      RowCoveredIsMember(w);
    } else if i == 2 {
      ColCoveredIsMember(w);
    } else {
      BoxCoveredIsMember(w);
    }
  }

  lemma {:induction false} CellCoveredIsMember(w: int)
    requires IsPlacement(w)
    ensures Member(W2Q(w)[0], Digit(w)) == w
  {
    Decompose(w);
    W2QBands(w);
    var q := W2Q(w)[0];
    assert q / 9 == Row(w) && q % 9 == Col(w);
  }

  lemma {:induction false} RowCoveredIsMember(w: int)
    requires IsPlacement(w)
    ensures Member(W2Q(w)[1], Col(w)) == w
  {
    Decompose(w);
    W2QBands(w);
    var q := W2Q(w)[1];
    assert q % 81 == Row(w) * 9 + Digit(w);
    assert q % 81 / 9 == Row(w) && q % 81 % 9 == Digit(w);
  }

  lemma {:induction false} ColCoveredIsMember(w: int)
    requires IsPlacement(w)
    ensures Member(W2Q(w)[2], Row(w)) == w
  {
    Decompose(w);
    W2QBands(w);
    var q := W2Q(w)[2];
    assert q % 81 == Col(w) * 9 + Digit(w);
    assert q % 81 / 9 == Col(w) && q % 81 % 9 == Digit(w);
  }

  lemma {:induction false} BoxCoveredIsMember(w: int)
    requires IsPlacement(w)
    ensures Member(W2Q(w)[3], Row(w) % 3 * 3 + Col(w) % 3) == w
  {
    Decompose(w);
    W2QBands(w);
    var r, c, d, b := Row(w), Col(w), Digit(w), Box(w);
    var q := W2Q(w)[3];
    var k := r % 3 * 3 + c % 3;
    assert q % 81 == d * 9 + b;
    assert q % 81 / 9 == d && q % 81 % 9 == b;
    BoxParts(b, k);
    assert b / 3 == r / 3 && b % 3 == c / 3;
    assert b / 3 * 3 + k / 3 == r;
    assert b % 3 * 3 + k % 3 == c;
  }

  /** Within one constraint, the placements Member(q, 0), ..., Member(q, 8) ascend. */
  lemma {:induction false} MemberIncreasing(q: int, k1: int, k2: int)
    requires IsConstraint(q) && 0 <= k1 < k2 < 9
    ensures Member(q, k1) < Member(q, k2)
  {
    var p := q % 81;
    if q >= 243 {
      BoxParts(p % 9, k1);
      BoxParts(p % 9, k2);
      assert k1 / 3 < k2 / 3 || (k1 / 3 == k2 / 3 && k1 % 3 < k2 % 3);
    }
  }

  /** The k-th placement covering q, for each k, covers q; and every placement covering q is one of them. */
  lemma {:induction false} MembersAreCover(q: int, w: int)
    requires IsConstraint(q)
    ensures (exists k :: 0 <= k < 9 && Member(q, k) == w) <==> IsPlacement(w) && q in W2Q(w)
  {
    if k :| 0 <= k < 9 && Member(q, k) == w {
      MemberCovers(q, k);
    }
    if IsPlacement(w) && q in W2Q(w) {
      var i :| 0 <= i < 4 && W2Q(w)[i] == q;
      CoveredIsMember(w, i);
    }
  }

  /** The nine placements covering q, ascending. */
  function Q2WSeq(q: int): (s: seq<int>)
    requires IsConstraint(q)
    ensures |s| == 9 && StrictlyIncreasing(s)
    ensures forall w :: w in s <==> IsPlacement(w) && q in W2Q(w)
  {
    var s := seq(9, k requires 0 <= k < 9 => Member(q, k));
    forall i, j | 0 <= i < j < 9 ensures s[i] < s[j] {
      MemberIncreasing(q, i, j);
    }
    forall w ensures w in s <==> IsPlacement(w) && q in W2Q(w) {
      MembersAreCover(q, w);
      if k :| 0 <= k < 9 && Member(q, k) == w {
        assert s[k] == w;
      }
    }
    s
  }

  /** Python's order on pairs: first components, then second components. */
  predicate PairLess(a: (int, int), b: (int, int))
  {
    a.0 < b.0 || (a.0 == b.0 && a.1 < b.1)
  }

  predicate PairsAscending(ps: seq<(int, int)>)
  {
    forall i, j :: 0 <= i < j < |ps| ==> PairLess(ps[i], ps[j])
  }

  /** The pairs (x, y) of a constraint x and a placement y that covers it. */
  predicate CoverPair(p: (int, int))
  {
    IsPlacement(p.1) && p.0 in W2Q(p.1)
  }

  /** Pair i of the sorted cover pairs, in closed form: constraint i / 9 and the (i % 9)-th placement covering it. */
  function PairTable(): (ps: seq<(int, int)>)
    ensures |ps| == 2916
  {
    seq(2916, i requires 0 <= i < 2916 => (i / 9, Q2WSeq(i / 9)[i % 9]))
  }

  lemma {:induction false} PairTableAscending()
    ensures PairsAscending(PairTable())
  {
    var ps := PairTable();
    forall i, j | 0 <= i < j < |ps| ensures PairLess(ps[i], ps[j]) {
      var q := i / 9;
      if q == j / 9 {
        assert i % 9 < j % 9;
        assert Q2WSeq(q)[i % 9] < Q2WSeq(q)[j % 9];
      }
    }
  }

  lemma {:induction false} PairTableHoldsCoverPairs()
    ensures forall i :: 0 <= i < |PairTable()| ==> CoverPair(PairTable()[i])
  {
    var ps := PairTable();
    forall i | 0 <= i < |ps| ensures CoverPair(ps[i]) {
      var q := i / 9;
      assert ps[i].1 in Q2WSeq(q);
    }
  }

  lemma {:induction false} CoverPairsInPairTable()
    ensures forall p :: CoverPair(p) ==> p in PairTable()
  {
    var ps := PairTable();
    forall p | CoverPair(p) ensures p in ps {
      var x, y := p.0, p.1;
      var i :| 0 <= i < 4 && W2Q(y)[i] == x;
      assert IsConstraint(x);
      assert y in Q2WSeq(x);
      var k :| 0 <= k < 9 && Q2WSeq(x)[k] == y;
      assert (9 * x + k) / 9 == x && (9 * x + k) % 9 == k;
      assert ps[9 * x + k] == (x, y);
    }
  }

  /**
   * The pairs of a constraint and a placement covering it, sorted the way
   * the table code sorts them: each cover pair exactly once, in ascending
   * order.
   */
  function SortedPairs(): (ps: seq<(int, int)>)
    ensures |ps| == 2916
    ensures PairsAscending(ps)
    ensures forall p :: p in ps <==> CoverPair(p)
  {
    PairTableAscending();
    PairTableHoldsCoverPairs();
    CoverPairsInPairTable();
    PairTable()
  }

  /** Any ascending sequence of exactly the cover pairs is SortedPairs: it is what sorting the pairs returns. */
  lemma {:induction false} SortedPairsUnique(ps: seq<(int, int)>)
    requires PairsAscending(ps)
    requires forall p :: p in ps <==> CoverPair(p)
    ensures ps == SortedPairs()
  {
    PairsUnique(ps, SortedPairs());
  }

  /** Dropping the least pair of an ascending sequence drops exactly that pair. */
  lemma {:induction false} PairsTail(a: seq<(int, int)>, p: (int, int))
    requires PairsAscending(a) && a != []
    ensures p in a[1..] <==> p in a && p != a[0]
  {
    if p in a[1..] {
      var j :| 0 <= j < |a| - 1 && a[1..][j] == p;
      assert a[j + 1] == p && PairLess(a[0], a[j + 1]);
    }
    if p in a && p != a[0] {
      var j :| 0 <= j < |a| && a[j] == p;
      assert a[1..][j - 1] == p;
    }
  }

  lemma {:induction false} PairsUnique(a: seq<(int, int)>, b: seq<(int, int)>)
    requires PairsAscending(a) && PairsAscending(b)
    requires forall p :: p in a <==> p in b
    ensures a == b
  {
    assert a != [] ==> a[0] in b;
    assert b != [] ==> b[0] in a;
    if a != [] && b != [] {
      assert a[0] in b && b[0] in a;
      var i :| 0 <= i < |b| && b[i] == a[0];
      var j :| 0 <= j < |a| && a[j] == b[0];
      forall p ensures p in a[1..] <==> p in b[1..] {
        PairsTail(a, p);
        PairsTail(b, p);
      }
      PairsUnique(a[1..], b[1..]);
      assert a == [a[0]] + a[1..];
      assert b == [b[0]] + b[1..];
    }
  }

  /** Group q of the sorted pairs (PairTable, which SortedPairs returns) holds the pairs of constraint q, one per placement covering it. */
  lemma {:induction false} GroupOfNine(q: int)
    requires IsConstraint(q)
    ensures forall i :: 9 * q <= i < 9 * q + 9 ==> PairTable()[i] == (q, Q2WSeq(q)[i - 9 * q])
    ensures (set i | 9 * q <= i < 9 * q + 9 :: PairTable()[i].1) == Elems(Q2WSeq(q))
  {
    var ps := PairTable();
    forall i | 9 * q <= i < 9 * q + 9 ensures ps[i] == (q, Q2WSeq(q)[i - 9 * q]) {
      assert i / 9 == q && i % 9 == i - 9 * q;
    }
    var s := set i | 9 * q <= i < 9 * q + 9 :: ps[i].1;
    forall w | w in Elems(Q2WSeq(q)) ensures w in s {
      var k :| 0 <= k < 9 && Q2WSeq(q)[k] == w;
      assert ps[9 * q + k].1 == w;
    }
  }

  /**
   * q2w[q]: the q-th group of nine consecutive sorted pairs (PairTable, which
   * SortedPairs returns), as a set of placements.  Each group holds exactly the placements that cover q.
   */
  function Q2W(q: int): (s: set<int>)
    requires IsConstraint(q)
    ensures |s| == 9
    ensures forall w :: w in s ==> IsPlacement(w)
  {
    GroupOfNine(q);
    IncreasingCard(Q2WSeq(q));
    set i | 9 * q <= i < 9 * q + 9 :: PairTable()[i].1
  }

  /** q2w[q] holds exactly the placements that cover q. */
  lemma {:induction false} Q2WMember(q: int, w: int)
    requires IsConstraint(q)
    ensures w in Q2W(q) <==> IsPlacement(w) && q in W2Q(w)
  {
    GroupOfNine(q);
  }

  /** The placements that cover q, by definition: what q2w[q] is meant to hold. */
  function Cover(q: int): set<int>
  {
    set w | 0 <= w < 729 && IsPlacement(w) && q in W2Q(w)
  }

  /** The table built from the sorted pairs holds exactly the covering placements. */
  lemma {:induction false} Q2WIsCover(q: int)
    requires IsConstraint(q)
    ensures Q2W(q) == Cover(q) && |Cover(q)| == 9
  {
    forall w ensures w in Q2W(q) <==> w in Cover(q) {
      Q2WMember(q, w);
    }
  }

  /** Two placements conflict when some constraint is covered by both. */
  predicate Share(w: int, v: int)
    requires IsPlacement(w) && IsPlacement(v)
  {
    exists q :: q in W2Q(w) && q in W2Q(v)
  }

  /** Two placements that share a constraint clash in Sudoku terms. */
  lemma {:induction false} ShareClash(w: int, v: int)
    requires IsPlacement(w) && IsPlacement(v) && Share(w, v)
    ensures Cell(w) == Cell(v) ||
      (Digit(w) == Digit(v) && (Row(w) == Row(v) || Col(w) == Col(v) || Box(w) == Box(v)))
  {
    var a, b := W2Q(w), W2Q(v);
    var q :| q in a && q in b;
    var i :| 0 <= i < 4 && a[i] == q;
    var j :| 0 <= j < 4 && b[j] == q;
    assert i == j;
    BandClash(w, v, i);
  }

  /** Two placements with the same i-th constraint agree on what that constraint fixes. */
  lemma {:induction false} BandClash(w: int, v: int, i: int)
    requires IsPlacement(w) && IsPlacement(v) && 0 <= i < 4 && W2Q(w)[i] == W2Q(v)[i]
    ensures i == 0 ==> Cell(w) == Cell(v)
    ensures i == 1 ==> Row(w) == Row(v) && Digit(w) == Digit(v)
    ensures i == 2 ==> Col(w) == Col(v) && Digit(w) == Digit(v)
    ensures i == 3 ==> Box(w) == Box(v) && Digit(w) == Digit(v)
  {
    W2QBands(w);
    W2QBands(v);
    Decompose(w);
    Decompose(v);
    if i == 1 {
      SameQuotient(W2Q(w)[1] - 81, Row(w), Digit(w), Row(v), Digit(v));
    } else if i == 2 {
      SameQuotient(W2Q(w)[2] - 162, Col(w), Digit(w), Col(v), Digit(v));
    } else if i == 3 {
      SameQuotient(W2Q(w)[3] - 243, Digit(w), Box(w), Digit(v), Box(v));
    }
  }

  lemma {:induction false} SameQuotient(n: int, a1: int, b1: int, a2: int, b2: int)
    requires 0 <= b1 < 9 && 0 <= b2 < 9 && n == a1 * 9 + b1 && n == a2 * 9 + b2
    ensures a1 == a2 && b1 == b2
  {
    assert n / 9 == a1 && n / 9 == a2;
  }

  /** Two placements that clash in Sudoku terms share a constraint. */
  lemma {:induction false} ClashShare(w: int, v: int)
    requires IsPlacement(w) && IsPlacement(v)
    requires Cell(w) == Cell(v) ||
      (Digit(w) == Digit(v) && (Row(w) == Row(v) || Col(w) == Col(v) || Box(w) == Box(v)))
    ensures Share(w, v)
  {
    W2QBands(w);
    W2QBands(v);
    var a, b := W2Q(w), W2Q(v);
    if Cell(w) == Cell(v) {
      assert a[0] in b;
    } else if Row(w) == Row(v) {
      assert a[1] in b;
    } else if Col(w) == Col(v) {
      assert a[2] in b;
    } else {
      assert a[3] in b;
    }
  }

  /**
   * In Sudoku terms, two placements conflict exactly when they fill the same
   * cell, or put the same digit twice into one row, one column or one box.
   */
  lemma {:induction false} ShareMeaning(w: int, v: int)
    requires IsPlacement(w) && IsPlacement(v)
    ensures Share(w, v) <==>
      Cell(w) == Cell(v) ||
      (Digit(w) == Digit(v) && (Row(w) == Row(v) || Col(w) == Col(v) || Box(w) == Box(v)))
  {
    if Share(w, v) {
      ShareClash(w, v);
    } else if Cell(w) == Cell(v) ||
      (Digit(w) == Digit(v) && (Row(w) == Row(v) || Col(w) == Col(v) || Box(w) == Box(v))) {
      ClashShare(w, v);
    }
  }

  /** w2q2w[w]: the union of q2w[q] over the four constraints q of w. */
  function W2Q2W(w: int): (s: set<int>)
    requires IsPlacement(w)
    ensures w in s
    ensures forall v :: v in s ==> IsPlacement(v)
  {
    var qs := W2Q(w);
    Q2WMember(qs[0], w);
    Q2W(qs[0]) + Q2W(qs[1]) + Q2W(qs[2]) + Q2W(qs[3])
  }

  /** w2q2w[w] holds exactly the placements in conflict with w, w itself included. */
  lemma {:induction false} W2Q2WMember(w: int, v: int)
    requires IsPlacement(w)
    ensures v in W2Q2W(w) <==> IsPlacement(v) && Share(w, v)
  {
    var qs := W2Q(w);
    Q2WMember(qs[0], v);
    Q2WMember(qs[1], v);
    Q2WMember(qs[2], v);
    Q2WMember(qs[3], v);
  }
}
