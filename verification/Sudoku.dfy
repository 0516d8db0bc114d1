/** Boards, units and solutions of the Sudoku solver, without reference to how it searches. */
module Sudoku {
  const CELLS: nat := 81

  function EmptyBoard(): (b: seq<nat>)
    ensures |b| == CELLS && forall t | 0 <= t < CELLS :: b[t] == 0
  {
    seq(CELLS, _ => 0)
  }

  /** A board in row-major order; 0 is an empty cell. */
  type Board = b: seq<nat> | |b| == CELLS && forall t | 0 <= t < CELLS :: b[t] <= 9 witness EmptyBoard()

  datatype UnitKind = Row | Column | Box

  /** Which of the nine units of a kind the cell lies in. */
  function UnitOf(u: UnitKind, cell: nat): nat
    requires cell < CELLS
  {
    match u
    case Row => cell / 9
    case Column => cell % 9
    case Box => cell / 9 / 3 * 3 + cell % 9 / 3
  }

  predicate SameUnit(p: nat, q: nat)
    requires p < CELLS && q < CELLS
  {
    UnitOf(Row, p) == UnitOf(Row, q) || UnitOf(Column, p) == UnitOf(Column, q) || UnitOf(Box, p) == UnitOf(Box, q)
  }

  /** No row, column or box repeats a digit. */
  ghost predicate Valid(b: Board) {
    forall p, q | 0 <= p < q < CELLS && SameUnit(p, q) && b[p] == b[q] :: b[p] == 0
  }

  /** Two different cells in one row, one column or one 3x3 box that hold the same digit. */
  predicate Clash(b: Board, r1: nat, c1: nat, r2: nat, c2: nat)
    requires r1 < 9 && c1 < 9 && r2 < 9 && c2 < 9
  {
    && (r1 != r2 || c1 != c2)
    && (r1 == r2 || c1 == c2 || (r1 / 3 == r2 / 3 && c1 / 3 == c2 / 3))
    && b[9 * r1 + c1] == b[9 * r2 + c2] != 0
  }

  lemma UnitsByCoordinates(r1: nat, c1: nat, r2: nat, c2: nat)
    requires r1 < 9 && c1 < 9 && r2 < 9 && c2 < 9
    ensures SameUnit(9 * r1 + c1, 9 * r2 + c2) <==>
      r1 == r2 || c1 == c2 || (r1 / 3 == r2 / 3 && c1 / 3 == c2 / 3)
  {
    Coordinates(r1, c1);
    Coordinates(r2, c2);
    BoxNumber(r1 / 3, c1 / 3, r2 / 3, c2 / 3);
  }

  lemma Coordinates(r: nat, c: nat)
    requires r < 9 && c < 9
    ensures 9 * r + c < CELLS && (9 * r + c) / 9 == r && (9 * r + c) % 9 == c
  {
  }

  lemma BoxNumber(a1: nat, b1: nat, a2: nat, b2: nat)
    requires b1 < 3 && b2 < 3
    ensures a1 * 3 + b1 == a2 * 3 + b2 <==> a1 == a2 && b1 == b2
  {
  }

  ghost predicate NoClash(b: Board) {
    forall r1: nat, c1: nat, r2: nat, c2: nat | r1 < 9 && c1 < 9 && r2 < 9 && c2 < 9 :: !Clash(b, r1, c1, r2, c2)
  }

  lemma ValidCellsAgree(b: Board, p: nat, q: nat)
    requires Valid(b) && p < CELLS && q < CELLS && p != q && b[p] == b[q] != 0
    ensures !SameUnit(p, q)
  {
    assert SameUnit(p, q) <==> SameUnit(q, p);
    assert p < q || q < p;
  }

  lemma ValidHasNoClash(b: Board)
    requires Valid(b)
    ensures NoClash(b)
  {
    forall r1: nat, c1: nat, r2: nat, c2: nat | r1 < 9 && c1 < 9 && r2 < 9 && c2 < 9
      ensures !Clash(b, r1, c1, r2, c2)
    {
      UnitsByCoordinates(r1, c1, r2, c2);
      if Clash(b, r1, c1, r2, c2) {
        ValidCellsAgree(b, 9 * r1 + c1, 9 * r2 + c2);
      }
    }
  }

  lemma NoClashIsValid(b: Board)
    requires NoClash(b)
    ensures Valid(b)
  {
    forall p, q | 0 <= p < q < CELLS && SameUnit(p, q) && b[p] == b[q] ensures b[p] == 0 {
      var r1, c1, r2, c2 := p / 9, p % 9, q / 9, q % 9;
      assert p == 9 * r1 + c1 && q == 9 * r2 + c2;
      UnitsByCoordinates(r1, c1, r2, c2);
      assert !Clash(b, r1, c1, r2, c2);
    }
  }

  /** Validity by coordinates: no two cells clash. */
  lemma ValidIffNoClash(b: Board)
    ensures Valid(b) <==> NoClash(b)
  {
    if Valid(b) {
      ValidHasNoClash(b);
    }
    if NoClash(b) {
      NoClashIsValid(b);
    }
  }

  /** d keeps every digit that b has. */
  predicate Extends(b: Board, d: Board) {
    forall t | 0 <= t < CELLS && b[t] != 0 :: d[t] == b[t]
  }

  /** A repetition cannot be repaired by filling cells. */
  lemma AntiMonotone(b: Board, d: Board)
    requires Extends(b, d) && Valid(d)
    ensures Valid(b)
  {
  }

  /** d is a valid filling of b that changes nothing before cell k and leaves nothing empty from k on. */
  ghost predicate Solution(b: Board, d: Board, k: nat)
    requires k <= CELLS
  {
    Extends(b, d) && d[..k] == b[..k] && (forall t | k <= t < CELLS :: d[t] != 0) && Valid(d)
  }

  predicate HasEmpty(b: Board, k: nat) {
    exists t | k <= t < CELLS :: b[t] == 0
  }

  /** Row-major lexicographic order. */
  ghost predicate LexLe(c: Board, d: Board) {
    c == d || exists p | 0 <= p < CELLS :: LexAt(c, d, p)
  }

  predicate LexAt(c: Board, d: Board, p: nat)
    requires p < CELLS
  {
    (forall t | 0 <= t < p :: c[t] == d[t]) && c[p] < d[p]
  }

  lemma LexAntisymmetric(c: Board, d: Board)
    requires LexLe(c, d) && LexLe(d, c)
    ensures c == d
  {
  }

  /** What a search of the cells from k on must answer: found and the board c that it leaves. */
  ghost predicate Outcome(b: Board, k: nat, found: bool, c: Board)
    requires k <= CELLS
  {
    if !HasEmpty(b, k) then found && c == b
    else if found then Solution(b, c, k) && forall d: Board | Solution(b, d, k) :: LexLe(c, d)
    else c == b && forall d: Board :: !Solution(b, d, k)
  }

  /** The answer and the board are determined. */
  lemma OutcomeUnique(b: Board, k: nat, found1: bool, c1: Board, found2: bool, c2: Board)
    requires k <= CELLS && Outcome(b, k, found1, c1) && Outcome(b, k, found2, c2)
    ensures found1 == found2 && c1 == c2
  {
    if HasEmpty(b, k) && found1 && found2 {
      LexAntisymmetric(c1, c2);
    }
  }

  /** The search of a whole board answers whether a solution exists just when the board is valid
      or has an empty cell: a full board is accepted unseen. */
  lemma AnswerRightIff(b: Board, found: bool, c: Board)
    requires Outcome(b, 0, found, c)
    ensures (found <==> exists d: Board :: Solution(b, d, 0)) <==> Valid(b) || HasEmpty(b, 0)
  {
    if !HasEmpty(b, 0) {
      forall d: Board | Solution(b, d, 0) ensures d == b {
        assert forall t | 0 <= t < CELLS :: b[t] != 0;
      }
      if Valid(b) {
        assert Solution(b, b, 0);
      }
    }
  }

  /** When the board is valid or has an empty cell, success leaves the least solution. */
  lemma LeastSolution(b: Board, found: bool, c: Board)
    requires Outcome(b, 0, found, c) && (Valid(b) || HasEmpty(b, 0)) && found
    ensures Solution(b, c, 0) && forall d: Board | Solution(b, d, 0) :: LexLe(c, d)
  {
    forall d: Board | !HasEmpty(b, 0) && Solution(b, d, 0) ensures d == b {
      assert forall t | 0 <= t < CELLS :: b[t] != 0;
    }
  }

  /** A full board with two equal digits in a row is reported solved. */
  lemma FullBoardUnseen()
    ensures var b: Board := seq(81, _ => 1);
      !Valid(b) && Outcome(b, 0, true, b) && forall d: Board :: !Solution(b, d, 0)
  {
    var b: Board := seq(81, _ => 1);
    assert SameUnit(0, 1) && b[0] == b[1];
    InvalidHasNone(b, 0);
  }

  // ---------- One step of the search ----------

  lemma SkipGiven(b: Board, k: nat, found: bool, c: Board)
    requires k < CELLS && b[k] != 0 && Outcome(b, k + 1, found, c)
    ensures Outcome(b, k, found, c)
  {
    assert HasEmpty(b, k) <==> HasEmpty(b, k + 1);
    forall d: Board ensures Solution(b, d, k) <==> Solution(b, d, k + 1) {
      assert Extends(b, d) ==> (d[..k] == b[..k] <==> d[..k + 1] == b[..k + 1]);
    }
  }

  /** The solutions with digit x in the empty cell k are those of the board with x written there. */
  lemma SolutionsWith(b: Board, k: nat, x: nat, d: Board)
    requires k < CELLS && b[k] == 0 && 1 <= x <= 9
    ensures Solution(b, d, k) && d[k] == x <==> Solution(b[k := x], d, k + 1)
  {
    if Solution(b, d, k) && d[k] == x {
      assert d[..k + 1] == b[k := x][..k + 1];
    }
    if Solution(b[k := x], d, k + 1) {
      assert d[..k + 1][k] == b[k := x][..k + 1][k];
      assert d[..k] == d[..k + 1][..k] == b[k := x][..k + 1][..k] == b[..k];
    }
  }

  /** No solution of b has a digit below x in cell k. */
  ghost predicate NoneBelow(b: Board, k: nat, x: nat)
    requires k < CELLS
  {
    forall d: Board | Solution(b, d, k) :: d[k] >= x
  }

  lemma InvalidHasNone(b: Board, k: nat)
    requires k <= CELLS && !Valid(b)
    ensures forall d: Board :: !Solution(b, d, k)
  {
    forall d: Board ensures !Solution(b, d, k) {
      if Extends(b, d) && Valid(d) {
        AntiMonotone(b, d);
      }
    }
  }

  lemma InvalidTry(b: Board, k: nat, x: nat)
    requires k < CELLS && b[k] == 0 && 1 <= x <= 9 && NoneBelow(b, k, x) && !Valid(b[k := x])
    ensures NoneBelow(b, k, x + 1)
  {
    InvalidHasNone(b[k := x], k + 1);
    forall d: Board | Solution(b, d, k) ensures d[k] >= x + 1 {
      SolutionsWith(b, k, x, d);
    }
  }

  lemma FailedTry(b: Board, k: nat, x: nat, c: Board)
    requires k < CELLS && b[k] == 0 && 1 <= x <= 9 && NoneBelow(b, k, x)
    requires Outcome(b[k := x], k + 1, false, c)
    ensures c == b[k := x] && NoneBelow(b, k, x + 1)
  {
    forall d: Board | Solution(b, d, k) ensures d[k] >= x + 1 {
      SolutionsWith(b, k, x, d);
    }
  }

  lemma GoodTry(b: Board, k: nat, x: nat, c: Board)
    requires k < CELLS && b[k] == 0 && 1 <= x <= 9 && NoneBelow(b, k, x)
    requires Valid(b[k := x]) && Outcome(b[k := x], k + 1, true, c)
    ensures Outcome(b, k, true, c)
  {
    var bx: Board := b[k := x];
    assert Solution(bx, c, k + 1) by {
      if !HasEmpty(bx, k + 1) {
        assert forall t | k + 1 <= t < CELLS :: bx[t] != 0;
      }
    }
    SolutionsWith(b, k, x, c);
    forall d: Board | Solution(b, d, k) ensures LexLe(c, d) {
      SolutionsWith(b, k, x, d);
      if d[k] == x {
        LeastOfTry(bx, k + 1, c, d);
      } else {
        SamePrefix(b, c, d, k);
        assert LexAt(c, d, k);
      }
    }
    assert HasEmpty(b, k);
  }

  lemma SamePrefix(b: Board, c: Board, d: Board, k: nat)
    requires k <= CELLS && c[..k] == b[..k] && d[..k] == b[..k]
    ensures forall t | 0 <= t < k :: c[t] == d[t]
  {
    forall t | 0 <= t < k ensures c[t] == d[t] {
      assert c[..k][t] == d[..k][t];
    }
  }

  lemma LeastOfTry(b: Board, k: nat, c: Board, d: Board)
    requires k <= CELLS && Outcome(b, k, true, c) && Solution(b, d, k)
    ensures LexLe(c, d)
  {
    if !HasEmpty(b, k) {
      SamePrefix(b, b, d, k);
      assert forall t | k <= t < CELLS :: b[t] != 0;
      assert d == b;
    }
  }

  lemma AllTried(b: Board, k: nat)
    requires k < CELLS && b[k] == 0 && NoneBelow(b, k, 10)
    ensures Outcome(b, k, false, b)
  {
    assert HasEmpty(b, k);
  }
}
