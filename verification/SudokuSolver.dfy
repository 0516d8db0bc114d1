/** The solver: counting validity check and backtracking search on one board, in place. */
module SudokuSolver {
  import opened Bytes
  import opened Sudoku

  ghost predicate Is9x9(mp: array2<nat>) {
    mp.Length0 == 9 && mp.Length1 == 9
  }

  ghost predicate InRange(mp: array2<nat>)
    reads mp
    requires Is9x9(mp)
  {
    forall i, j | 0 <= i < 9 && 0 <= j < 9 :: mp[i, j] <= 9
  }

  /** The board that mp holds. */
  ghost function Cells(mp: array2<nat>): (b: Board)
    reads mp
    requires Is9x9(mp) && InRange(mp)
    ensures forall t | 0 <= t < CELLS :: b[t] == mp[t / 9, t % 9]
  {
    seq(CELLS, t requires 0 <= t < CELLS && Is9x9(mp) reads mp => mp[t / 9, t % 9])
  }

  // ---------- valid ----------

  /** Row of the j-th cell of unit i, as the three loops of valid compute it. */
  function RowAt(u: UnitKind, i: nat, j: nat): (r: nat)
    requires i < 9 && j < 9
    ensures r < 9
  {
    match u
    case Row => i
    case Column => j
    case Box => i / 3 * 3 + j / 3
  }

  /** Its column. */
  function ColumnAt(u: UnitKind, i: nat, j: nat): (c: nat)
    requires i < 9 && j < 9
    ensures c < 9
  {
    match u
    case Row => j
    case Column => i
    case Box => i % 3 * 3 + j % 3
  }

  function Index(u: UnitKind, i: nat, j: nat): (t: nat)
    requires i < 9 && j < 9
    ensures t < CELLS
  {
    RowAt(u, i, j) * 9 + ColumnAt(u, i, j)
  }

  /** The position within its unit at which a cell is visited. */
  function Position(u: UnitKind, cell: nat): (j: nat)
    requires cell < CELLS
    ensures j < 9
  {
    match u
    case Row => cell % 9
    case Column => cell / 9
    case Box => cell / 9 % 3 * 3 + cell % 9 % 3
  }

  lemma CellArithmetic(r: nat, c: nat)
    requires r < 9 && c < 9
    ensures var t := r * 9 + c; t / 9 == r && t % 9 == c
  {
  }

  lemma Thirds(a: nat, b: nat, n: nat)
    requires b < 3 && n == a * 3 + b
    ensures n / 3 == a && n % 3 == b
  {
  }

  lemma BoxOfThirds(a: nat, b: nat, c: nat, d: nat, p: nat, q: nat)
    requires b < 3 && d < 3 && p == a * 3 + b && q == c * 3 + d
    ensures p / 3 * 3 + q / 3 == a * 3 + c && p % 3 * 3 + q % 3 == b * 3 + d
  {
    Thirds(a, b, p);
    Thirds(c, d, q);
  }

  /** A cell's box and its position there lead back to its row and column, and the other way round. */
  lemma BoxTwice(i: nat, j: nat)
    requires i < 9 && j < 9
    ensures var p, q := i / 3 * 3 + j / 3, i % 3 * 3 + j % 3;
      p < 9 && q < 9 && p / 3 * 3 + q / 3 == i && p % 3 * 3 + q % 3 == j
  {
    BoxOfThirds(i / 3, j / 3, i % 3, j % 3, i / 3 * 3 + j / 3, i % 3 * 3 + j % 3);
  }

  lemma BoxCoversCell(r: nat, c: nat)
    requires r < 9 && c < 9
    ensures var p, q := r / 3 * 3 + c / 3, r % 3 * 3 + c % 3;
      p < 9 && q < 9 && RowAt(Box, p, q) == r && ColumnAt(Box, p, q) == c
  {
    BoxTwice(r, c);
  }

  lemma UnitsCoverCells(u: UnitKind, cell: nat)
    requires cell < CELLS
    ensures UnitOf(u, cell) < 9 && Index(u, UnitOf(u, cell), Position(u, cell)) == cell
  {
    var r, c := cell / 9, cell % 9;
    assert cell == r * 9 + c;
    if u == Box {
      BoxCoversCell(r, c);
    }
  }

  lemma BoxOfCell(i: nat, j: nat)
    requires i < 9 && j < 9
    ensures UnitOf(Box, Index(Box, i, j)) == i && Position(Box, Index(Box, i, j)) == j
  {
    BoxTwice(i, j);
    CellArithmetic(RowAt(Box, i, j), ColumnAt(Box, i, j));
  }

  lemma CellsOfUnit(u: UnitKind, i: nat, j: nat)
    requires i < 9 && j < 9
    ensures UnitOf(u, Index(u, i, j)) == i && Position(u, Index(u, i, j)) == j
  {
    match u
    case Row => CellArithmetic(i, j);
    case Column => CellArithmetic(j, i);
    case Box => BoxOfCell(i, j);
  }

  /** The digits of unit i, in the order in which its loop visits them. */
  function Digits(b: Board, u: UnitKind, i: nat): (s: seq<nat>)
    requires i < 9
    ensures |s| == 9 && forall j | 0 <= j < 9 :: s[j] == b[Index(u, i, j)]
  {
    seq(9, j requires 0 <= j < 9 => b[Index(u, i, j)])
  }

  predicate NoRepeat(s: seq<nat>) {
    forall j, l | 0 <= j < l < |s| && s[j] == s[l] :: s[j] == 0
  }

  /** Unit i repeats no digit. */
  predicate UnitOk(b: Board, u: UnitKind, i: nat)
    requires i < 9
  {
    NoRepeat(Digits(b, u, i))
  }

  lemma UnitOkOfValid(b: Board, u: UnitKind, i: nat)
    requires i < 9 && Valid(b)
    ensures UnitOk(b, u, i)
  {
    var s := Digits(b, u, i);
    forall j, l | 0 <= j < l < 9 && s[j] == s[l] ensures s[j] == 0 {
      SameUnitCells(u, i, j, l);
      var p, q := Index(u, i, j), Index(u, i, l);
      assert b[p] == b[q];
    }
  }

  lemma SameUnitCells(u: UnitKind, i: nat, j: nat, l: nat)
    requires i < 9 && j < l < 9
    ensures var p, q := Index(u, i, j), Index(u, i, l); p != q && SameUnit(p, q) && SameUnit(q, p)
  {
    CellsOfUnit(u, i, j);
    CellsOfUnit(u, i, l);
  }

  lemma ValidOfUnitsOk(b: Board)
    requires forall u: UnitKind, i | 0 <= i < 9 :: UnitOk(b, u, i)
    ensures Valid(b)
  {
    forall p, q | 0 <= p < q < CELLS && SameUnit(p, q) && b[p] == b[q] ensures b[p] == 0 {
      var u :| UnitOf(u, p) == UnitOf(u, q);
      UnitsCoverCells(u, p);
      UnitsCoverCells(u, q);
      var s := Digits(b, u, UnitOf(u, p));
      assert UnitOk(b, u, UnitOf(u, p));
      assert s[Position(u, p)] == s[Position(u, q)];
    }
  }

  /** How often v occurs among the first n digits. */
  function Count(s: seq<nat>, n: nat, v: nat): nat
    requires n <= |s|
  {
    if n == 0 then 0 else Count(s, n - 1, v) + if s[n - 1] == v then 1 else 0
  }

  lemma {:induction false} CountPositive(s: seq<nat>, n: nat, v: nat)
    requires n <= |s|
    ensures Count(s, n, v) > 0 <==> exists j | 0 <= j < n :: s[j] == v
  {
    if n > 0 {
      CountPositive(s, n - 1, v);
    }
  }

  lemma {:induction false} CountTwice(s: seq<nat>, n: nat, v: nat)
    requires n <= |s|
    ensures Count(s, n, v) > 1 <==> exists j, l | 0 <= j < l < n :: s[j] == v && s[l] == v
  {
    if n > 0 {
      CountTwice(s, n - 1, v);
      CountPositive(s, n - 1, v);
      if s[n - 1] == v && Count(s, n - 1, v) > 0 {
        var j :| 0 <= j < n - 1 && s[j] == v;
      }
    }
  }

  /** A repeated digit is counted more than once, and nothing else is. */
  lemma NoRepeatIffCounts(s: seq<nat>)
    requires forall j | 0 <= j < |s| :: s[j] <= 9
    ensures NoRepeat(s) <==> forall v | 1 <= v <= 9 :: Count(s, |s|, v) <= 1
  {
    if NoRepeat(s) {
      forall v | 1 <= v <= 9 ensures Count(s, |s|, v) <= 1 {
        CountTwice(s, |s|, v);
      }
    } else {
      var j, l :| 0 <= j < l < |s| && s[j] == s[l] != 0;
      CountTwice(s, |s|, s[j]);
    }
  }

  lemma UnitOkIffCounts(b: Board, u: UnitKind, i: nat)
    requires i < 9
    ensures UnitOk(b, u, i) <==> forall v | 1 <= v <= 9 :: Count(Digits(b, u, i), 9, v) <= 1
  {
    NoRepeatIffCounts(Digits(b, u, i));
  }

  /** std::max_element, dereferenced. */
  method MaxElement(a: array<nat>) returns (mx: nat)
    requires a.Length > 0
    ensures exists v | 0 <= v < a.Length :: a[v] == mx
    ensures forall v | 0 <= v < a.Length :: a[v] <= mx
  {
    mx := a[0];
    for v := 1 to a.Length
      invariant exists w | 0 <= w < v :: a[w] == mx
      invariant forall w | 0 <= w < v :: a[w] <= mx
    {
      if mx < a[v] {
        mx := a[v];
      }
    }
  }

  /** What cell (i, j) of a unit holds in the array. */
  lemma DigitAt(mp: array2<nat>, u: UnitKind, i: nat, j: nat)
    requires Is9x9(mp) && InRange(mp) && i < 9 && j < 9
    ensures Digits(Cells(mp), u, i)[j] == mp[RowAt(u, i, j), ColumnAt(u, i, j)] <= 9
  {
    CellArithmetic(RowAt(u, i, j), ColumnAt(u, i, j));
  }

  /** The counting loop that the three loops of valid share. */
  method CountDigits(mp: array2<nat>, u: UnitKind, i: nat) returns (cnt: array<nat>)
    requires Is9x9(mp) && InRange(mp) && i < 9
    ensures fresh(cnt) && cnt.Length == 10
    ensures forall v | 0 <= v < 10 :: cnt[v] == Count(Digits(Cells(mp), u, i), 9, v)
  {
    ghost var s := Digits(Cells(mp), u, i);
    cnt := new nat[10](_ => 0);
    for j := 0 to 9
      invariant forall v | 0 <= v < 10 :: cnt[v] == Count(s, j, v)
    {
      var r, c := RowAt(u, i, j), ColumnAt(u, i, j);
      DigitAt(mp, u, i, j);
      cnt[mp[r, c]] := cnt[mp[r, c]] + 1;
    }
  }

  lemma CountedTwice(b: Board, u: UnitKind, i: nat, v: nat)
    requires i < 9 && 1 <= v <= 9 && Count(Digits(b, u, i), 9, v) > 1
    ensures !UnitOk(b, u, i)
  {
    CountTwice(Digits(b, u, i), 9, v);
  }

  lemma CountedOnce(b: Board, u: UnitKind, i: nat)
    requires i < 9 && forall v | 1 <= v <= 9 :: Count(Digits(b, u, i), 9, v) <= 1
    ensures UnitOk(b, u, i)
  {
    UnitOkIffCounts(b, u, i);
  }

  /** The body that the three loops of valid share: is a digit of the unit counted twice? */
  method Repeats(mp: array2<nat>, u: UnitKind, i: nat) returns (repeats: bool)
    requires Is9x9(mp) && InRange(mp) && i < 9
    ensures repeats <==> !UnitOk(Cells(mp), u, i)
  {
    ghost var b := Cells(mp);
    var cnt := CountDigits(mp, u, i);
    cnt[0] := 0;
    var mx := MaxElement(cnt);
    repeats := mx > 1;
    if repeats {
      ghost var v :| 0 <= v < 10 && cnt[v] == mx;
      CountedTwice(b, u, i, v);
    } else {
      forall v | 1 <= v <= 9 ensures Count(Digits(b, u, i), 9, v) <= 1 {
        assert cnt[v] <= mx;
      }
      CountedOnce(b, u, i);
    }
  }

  /** valid: true exactly when no row, column or box repeats a digit. */
  method IsValid(mp: array2<nat>) returns (ok: bool)
    requires Is9x9(mp) && InRange(mp)
    ensures ok <==> Valid(Cells(mp))
  {
    ghost var b := Cells(mp);
    var repeats;
    for i := 0 to 9
      invariant forall l | 0 <= l < i :: UnitOk(b, Row, l)
    {
      repeats := Repeats(mp, Row, i);
      if repeats {
        RepeatsInvalid(b, Row, i);
        return false;
      }
    }
    for i := 0 to 9
      invariant forall l | 0 <= l < i :: UnitOk(b, Column, l)
    {
      repeats := Repeats(mp, Column, i);
      if repeats {
        RepeatsInvalid(b, Column, i);
        return false;
      }
    }
    for i := 0 to 9
      invariant forall l | 0 <= l < i :: UnitOk(b, Box, l)
    {
      repeats := Repeats(mp, Box, i);
      if repeats {
        RepeatsInvalid(b, Box, i);
        return false;
      }
    }
    ValidOfUnitsOk(b);
    ok := true;
  }

  lemma RepeatsInvalid(b: Board, u: UnitKind, i: nat)
    requires i < 9 && !UnitOk(b, u, i)
    ensures !Valid(b)
  {
    if Valid(b) {
      UnitOkOfValid(b, u, i);
    }
  }

  // ---------- dfs and solve ----------

  /** The backtracking search. Its whole effect is Outcome: found, and the board it leaves behind. */
  method Dfs(mp: array2<nat>, k: nat) returns (found: bool)
    requires Is9x9(mp) && InRange(mp) && k <= CELLS
    modifies mp
    ensures InRange(mp)
    ensures Outcome(old(Cells(mp)), k, found, Cells(mp))
    decreases CELLS - k
  {
    ghost var b := Cells(mp);
    if k == CELLS {
      return true;
    }
    var i, j := k / 9, k % 9;
    if mp[i, j] != 0 {
      found := Dfs(mp, k + 1);
      SkipGiven(b, k, found, Cells(mp));
      return;
    }
    for x := 1 to 10
      invariant InRange(mp)
      invariant Cells(mp) == b[k := Cells(mp)[k]]
      invariant NoneBelow(b, k, x)
    {
      Write(mp, k, x);
      var ok := IsValid(mp);
      assert Cells(mp) == b[k := x];
      if ok {
        found := Dfs(mp, k + 1);
        if found {
          GoodTry(b, k, x, Cells(mp));
          return;
        }
        FailedTry(b, k, x, Cells(mp));
      } else {
        InvalidTry(b, k, x);
      }
      assert Cells(mp) == b[k := x];
    }
    Write(mp, k, 0);
    assert Cells(mp) == b;
    AllTried(b, k);
    found := false;
  }

  /** mp[i][j] = x for cell k. */
  method Write(mp: array2<nat>, k: nat, x: nat)
    requires Is9x9(mp) && InRange(mp) && k < CELLS && x <= 9
    modifies mp
    ensures InRange(mp) && Cells(mp) == old(Cells(mp))[k := x]
  {
    ghost var b := Cells(mp);
    mp[k / 9, k % 9] := x;
    forall t | 0 <= t < CELLS ensures Cells(mp)[t] == b[k := x][t] {
      assert t != k ==> t / 9 != k / 9 || t % 9 != k % 9;
    }
  }

  /** solve works on its own copy; it exits the process when the search fails. */
  method Solve(givens: Board) returns (done: Option<Board>)
    ensures done.Some? ==> Outcome(givens, 0, true, done.value)
    ensures done.None? ==> Outcome(givens, 0, false, givens)
  {
    var mp := new nat[9, 9]((i, j) requires 0 <= i < 9 && 0 <= j < 9 => givens[i * 9 + j]);
    assert Cells(mp) == givens;
    var found := Dfs(mp, 0);
    if !found {
      return None;
    }
    done := Some(seq(CELLS, t requires 0 <= t < CELLS && mp.Length0 == 9 && mp.Length1 == 9 reads mp => mp[t / 9, t % 9]));
    assert done.value == Cells(mp);
  }
}
