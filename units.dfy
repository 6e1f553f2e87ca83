/** Cells of the grid, the rows, columns and boxes they make up, and the
    number of a pattern's cells inside such a group. */
module Units {
  import opened Patterns

  /** `(row, col)` */
  type Cell = (nat, nat)

  predicate InGrid(x: Cell)
  {
    x.0 < 9 && x.1 < 9
  }

  /** Does the pattern contain the cell? */
  predicate At(p: Pattern, x: Cell)
    requires InGrid(x)
  {
    Has(p, x.0, x.1)
  }

  /** Box number of a cell; boxes are numbered row-major like cells. */
  function BoxOf(x: Cell): nat
  {
    x.0 / 3 * 3 + x.1 / 3
  }

  /** Bit position of a cell, row-major. */
  function Idx(x: Cell): nat
  {
    9 * x.0 + x.1
  }

  /** Cell positions 0..80 and grid cells correspond one to one. */
  lemma IdxFacts()
    ensures forall x: Cell :: InGrid(x) ==> Idx(x) < 81 && Idx(x) / 9 == x.0 && Idx(x) % 9 == x.1
    ensures forall i :: 0 <= i < 81 ==> InGrid((i / 9, i % 9)) && Idx((i / 9, i % 9)) == i
  {
  }

  /** Two different cells that share a row, a column or a box. */
  predicate Peer(x: Cell, y: Cell)
  {
    x != y && (x.0 == y.0 || x.1 == y.1 || BoxOf(x) == BoxOf(y))
  }

  predicate Distinct<T(==)>(s: seq<T>)
  {
    forall i, j :: 0 <= i < j < |s| ==> s[i] != s[j]
  }

  function RowCells(row: nat): (cells: seq<Cell>)
    ensures |cells| == 9
    ensures forall k :: 0 <= k < 9 ==> cells[k] == (row, k)
  {
    [(row, 0), (row, 1), (row, 2), (row, 3), (row, 4), (row, 5), (row, 6), (row, 7), (row, 8)]
  }

  function ColCells(col: nat): (cells: seq<Cell>)
    ensures |cells| == 9
    ensures forall k :: 0 <= k < 9 ==> cells[k] == (k, col)
  {
    [(0, col), (1, col), (2, col), (3, col), (4, col), (5, col), (6, col), (7, col), (8, col)]
  }

  /** Position of a cell in the row-major listing of its box. */
  function BoxPos(x: Cell): nat
  {
    x.0 % 3 * 3 + x.1 % 3
  }

  /** The nine cells of the box containing `(row, col)`, row-major. */
  function BoxCells(row: nat, col: nat): (cells: seq<Cell>)
    ensures |cells| == 9
  {
    var gr := row / 3;
    var gc := col / 3;
    [(3 * gr + 0, 3 * gc + 0), (3 * gr + 0, 3 * gc + 1), (3 * gr + 0, 3 * gc + 2),
     (3 * gr + 1, 3 * gc + 0), (3 * gr + 1, 3 * gc + 1), (3 * gr + 1, 3 * gc + 2),
     (3 * gr + 2, 3 * gc + 0), (3 * gr + 2, 3 * gc + 1), (3 * gr + 2, 3 * gc + 2)]
  }

  /** Same box means same band of rows and same stack of columns. */
  lemma SameBox(x: Cell, y: Cell)
    requires InGrid(x) && InGrid(y)
    ensures BoxOf(x) == BoxOf(y) <==> x.0 / 3 == y.0 / 3 && x.1 / 3 == y.1 / 3
  {
  }

  /** Entry `k` of the box listing: row offset `k / 3`, column offset `k % 3`. */
  lemma BoxCellsEntry(row: nat, col: nat, k: nat)
    requires k < 9
    ensures BoxCells(row, col)[k] == (row / 3 * 3 + k / 3, col / 3 * 3 + k % 3)
  {
  }

  /** `box_cells` lists, without repetition, exactly the in-grid cells of
      the box of `(row, col)`, each at its row-major position, and so
      includes the cell itself. */
  lemma BoxCellsSpec(row: nat, col: nat)
    requires row < 9 && col < 9
    ensures Distinct(BoxCells(row, col))
    ensures forall k :: 0 <= k < 9 ==> InGrid(BoxCells(row, col)[k]) && BoxOf(BoxCells(row, col)[k]) == BoxOf((row, col))
    ensures forall x: Cell :: InGrid(x) && BoxOf(x) == BoxOf((row, col)) ==> BoxCells(row, col)[BoxPos(x)] == x
    ensures (row, col) in BoxCells(row, col)
  {
    BoxCellsInBox(row, col);
    BoxCellsAt(row, col);
    BoxCellsDistinct(row, col);
    assert BoxCells(row, col)[BoxPos((row, col))] == (row, col);
  }

  /** Every listed cell is in the grid and in the box of `(row, col)`. */
  lemma BoxCellsInBox(row: nat, col: nat)
    requires row < 9 && col < 9
    ensures forall k :: 0 <= k < 9 ==> InGrid(BoxCells(row, col)[k]) && BoxOf(BoxCells(row, col)[k]) == BoxOf((row, col))
  {
    var cells := BoxCells(row, col);
    forall k | 0 <= k < 9
      ensures InGrid(cells[k]) && BoxOf(cells[k]) == BoxOf((row, col))
    {
      BoxCellsEntry(row, col, k);
      SameBox(cells[k], (row, col));
    }
  }

  /** Every cell of the box is listed at its row-major position. */
  lemma BoxCellsAt(row: nat, col: nat)
    requires row < 9 && col < 9
    ensures forall x: Cell :: InGrid(x) && BoxOf(x) == BoxOf((row, col)) ==> BoxCells(row, col)[BoxPos(x)] == x
  {
    forall x: Cell | InGrid(x) && BoxOf(x) == BoxOf((row, col))
      ensures BoxCells(row, col)[BoxPos(x)] == x
    {
      SameBox(x, (row, col));
      BoxNumber(x.0 % 3, x.1 % 3);
      BoxCellsEntry(row, col, BoxPos(x));
    }
  }

  /** No cell is listed twice. */
  lemma BoxCellsDistinct(row: nat, col: nat)
    requires row < 9 && col < 9
    ensures Distinct(BoxCells(row, col))
  {
    var cells := BoxCells(row, col);
    forall i, j | 0 <= i < j < 9
      ensures cells[i] != cells[j]
    {
      BoxCellsEntry(row, col, i);
      BoxCellsEntry(row, col, j);
    }
  }

  /** The nine cells of box number `b`. */
  function BoxCellsOf(b: nat): (cells: seq<Cell>)
    requires b < 9
    ensures |cells| == 9 && Distinct(cells)
    ensures forall k :: 0 <= k < 9 ==> InGrid(cells[k]) && BoxOf(cells[k]) == b
    ensures forall x: Cell :: InGrid(x) && BoxOf(x) == b ==> cells[BoxPos(x)] == x
  {
    CornerBox(b);
    BoxCellsSpec(b / 3 * 3, b % 3 * 3);
    BoxCells(b / 3 * 3, b % 3 * 3)
  }

  /** The top-left cell of box `b` lies in box `b`. */
  lemma CornerBox(b: nat)
    requires b < 9
    ensures b / 3 * 3 < 9 && b % 3 * 3 < 9 && BoxOf((b / 3 * 3, b % 3 * 3)) == b
  {
    assert b == 0 || b == 1 || b == 2 || b == 3 || b == 4 || b == 5 || b == 6 || b == 7 || b == 8;
  }

  /** The cells of a box are those of the box named by its number. */
  lemma BoxCellsNumbered(row: nat, col: nat)
    requires row < 9 && col < 9
    ensures BoxOf((row, col)) < 9
    ensures BoxCells(row, col) == BoxCellsOf(BoxOf((row, col)))
  {
    var b := BoxOf((row, col));
    BoxNumber(row / 3, col / 3);
    assert b == 3 * (row / 3) + col / 3;
    assert BoxCellsOf(b) == BoxCells(b / 3 * 3, b % 3 * 3);
    SameListing(row, col, b / 3 * 3, b % 3 * 3);
  }

  /** The listing depends only on the band and the stack of the cell. */
  lemma SameListing(row: nat, col: nat, row': nat, col': nat)
    requires row / 3 == row' / 3 && col / 3 == col' / 3
    ensures BoxCells(row, col) == BoxCells(row', col')
  {
  }

  /** Box number `3 * gr + gc` names band `gr` and stack `gc`. */
  lemma BoxNumber(gr: nat, gc: nat)
    requires gr < 3 && gc < 3
    ensures (3 * gr + gc) / 3 == gr && (3 * gr + gc) % 3 == gc
    ensures (3 * gr + gc) / 3 * 3 / 3 == gr && (3 * gr + gc) % 3 * 3 / 3 == gc
  {
    assert gr == 0 || gr == 1 || gr == 2;
    assert gc == 0 || gc == 1 || gc == 2;
  }

  /** A grid cell is in row `r`'s listing exactly when it lies in row `r`;
      likewise for columns and boxes. */
  lemma UnitMembership(x: Cell)
    requires InGrid(x)
    ensures forall r :: x in RowCells(r) <==> x.0 == r
    ensures forall c :: x in ColCells(c) <==> x.1 == c
    ensures forall b :: 0 <= b < 9 ==> (x in BoxCellsOf(b) <==> BoxOf(x) == b)
  {
    forall r | x.0 == r
      ensures x in RowCells(r)
    {
      assert RowCells(r)[x.1] == x;
    }
    forall c | x.1 == c
      ensures x in ColCells(c)
    {
      assert ColCells(c)[x.0] == x;
    }
    forall b | 0 <= b < 9 && BoxOf(x) == b
      ensures x in BoxCellsOf(b)
    {
      assert BoxCellsOf(b)[BoxPos(x)] == x;
    }
  }

  /** Nine grid cells, any two of them peers: a row, a column or a box. */
  predicate Group(cells: seq<Cell>)
  {
    |cells| == 9 && (forall k :: 0 <= k < 9 ==> InGrid(cells[k])) &&
    forall i, j :: 0 <= i < j < 9 ==> Peer(cells[i], cells[j])
  }

  /** Every row, column and box listing is a group. */
  lemma RowGroup(u: nat)
    requires u < 9
    ensures Group(RowCells(u))
  {
  }

  lemma ColGroup(u: nat)
    requires u < 9
    ensures Group(ColCells(u))
  {
  }

  lemma BoxGroup(u: nat)
    requires u < 9
    ensures Group(BoxCellsOf(u))
  {
  }

  // ---------------------------------------------------------------------------
  // Counting the cells of a pattern inside a group of cells

  predicate AllInGrid(cells: seq<Cell>)
  {
    forall k :: 0 <= k < |cells| ==> InGrid(cells[k])
  }

  /** Number of entries of `cells` that the pattern contains. */
  function CountIn(p: Pattern, cells: seq<Cell>): nat
    requires AllInGrid(cells)
  {
    if cells == [] then 0
    else CountIn(p, cells[..|cells| - 1]) + (if At(p, cells[|cells| - 1]) then 1 else 0)
  }

  function RowCount(p: Pattern, row: nat): nat
    requires row < 9
  {
    CountIn(p, RowCells(row))
  }

  function ColCount(p: Pattern, col: nat): nat
    requires col < 9
  {
    CountIn(p, ColCells(col))
  }

  function BoxCount(p: Pattern, b: nat): nat
    requires b < 9
  {
    CountIn(p, BoxCellsOf(b))
  }

  /** Do two patterns hold the same cells of the grid, except perhaps `x`? */
  ghost predicate AgreeExcept(p: Pattern, q: Pattern, x: Cell)
  {
    forall y: Cell :: InGrid(y) && y != x ==> (At(p, y) <==> At(q, y))
  }

  /** Different grid cells have different bit positions. */
  lemma CellIndexInjective(x: Cell, y: Cell)
    requires InGrid(x) && InGrid(y) && x != y
    ensures 9 * x.0 + x.1 != 9 * y.0 + y.1
  {
    if x.0 < y.0 {
      assert 9 * x.0 + x.1 < 9 * (x.0 + 1) <= 9 * y.0;
    } else if y.0 < x.0 {
      assert 9 * y.0 + y.1 < 9 * (y.0 + 1) <= 9 * x.0;
    }
  }

  /** Patterns whose bits differ at most at the position of `x` agree on
      every other cell. */
  lemma AgreeExceptBits(p: Pattern, q: Pattern, x: Cell)
    requires InGrid(x)
    requires forall i :: i != 9 * x.0 + x.1 ==> (i in q.bits <==> i in p.bits)
    ensures AgreeExcept(p, q, x)
  {
    forall y: Cell | InGrid(y) && y != x
      ensures At(p, y) <==> At(q, y)
    {
      CellIndexInjective(x, y);
    }
  }

  lemma {:induction false} CountBound(p: Pattern, cells: seq<Cell>)
    requires AllInGrid(cells)
    ensures CountIn(p, cells) <= |cells|
  {
    if cells != [] {
      CountBound(p, cells[..|cells| - 1]);
    }
  }

  /** No cell of the group is in the pattern exactly when the count is 0. */
  lemma {:induction false} CountZero(p: Pattern, cells: seq<Cell>)
    requires AllInGrid(cells)
    ensures CountIn(p, cells) == 0 <==> forall k :: 0 <= k < |cells| ==> !At(p, cells[k])
  {
    if cells != [] {
      var init := cells[..|cells| - 1];
      CountZero(p, init);
      assert forall k :: 0 <= k < |init| ==> init[k] == cells[k];
    }
  }

  /** A positive count names a cell of the group in the pattern. */
  lemma CountPositive(p: Pattern, cells: seq<Cell>) returns (k: nat)
    requires AllInGrid(cells)
    requires CountIn(p, cells) >= 1
    ensures k < |cells| && At(p, cells[k])
  {
    CountZero(p, cells);
    k :| 0 <= k < |cells| && At(p, cells[k]);
  }

  /** With a count of one, two positions holding cells of the pattern are
      the same position. */
  lemma {:induction false} CountOne(p: Pattern, cells: seq<Cell>, i: nat, j: nat)
    requires AllInGrid(cells)
    requires CountIn(p, cells) == 1
    requires i < |cells| && j < |cells| && At(p, cells[i]) && At(p, cells[j])
    ensures i == j
  {
    var n := |cells| - 1;
    var init := cells[..n];
    assert forall k :: 0 <= k < n ==> init[k] == cells[k];
    if At(p, cells[n]) {
      CountZero(p, init);
    } else {
      CountOne(p, init, i, j);
    }
  }

  /** A group with exactly one position holding a cell of the pattern has
      a count of one. */
  lemma {:induction false} CountSingle(p: Pattern, cells: seq<Cell>, k: nat)
    requires AllInGrid(cells) && k < |cells| && At(p, cells[k])
    requires forall j :: 0 <= j < |cells| && j != k ==> !At(p, cells[j])
    ensures CountIn(p, cells) == 1
  {
    var n := |cells| - 1;
    var init := cells[..n];
    assert forall j :: 0 <= j < n ==> init[j] == cells[j];
    if k == n {
      CountZero(p, init);
    } else {
      CountSingle(p, init, k);
    }
  }

  /** Changing one cell of a pattern changes the count of every
      duplicate-free group containing it by one, and no other count. */
  lemma {:induction false} CountChange(p: Pattern, q: Pattern, x: Cell, cells: seq<Cell>)
    requires AllInGrid(cells) && Distinct(cells) && InGrid(x)
    requires AgreeExcept(p, q, x)
    ensures CountIn(q, cells) + (if x in cells && At(p, x) then 1 else 0)
         == CountIn(p, cells) + (if x in cells && At(q, x) then 1 else 0)
  {
    if cells != [] {
      var init := cells[..|cells| - 1];
      CountChange(p, q, x, init);
      assert x in cells <==> x in init || x == cells[|cells| - 1];
      if x == cells[|cells| - 1] {
        assert x !in init;
      }
    }
  }

  /** Cells outside the group do not affect its count. */
  lemma {:induction false} CountUnaffected(p: Pattern, q: Pattern, x: Cell, cells: seq<Cell>)
    requires AllInGrid(cells) && Distinct(cells) && InGrid(x) && x !in cells
    requires AgreeExcept(p, q, x)
    ensures CountIn(q, cells) == CountIn(p, cells)
  {
    CountChange(p, q, x, cells);
  }

  /** Index of the first entry of `cells`, from position `i` on, that the
      pattern contains; `|cells|` when there is none. */
  function Scan(p: Pattern, cells: seq<Cell>, i: nat): (k: nat)
    requires AllInGrid(cells) && i <= |cells|
    ensures i <= k <= |cells|
    ensures k < |cells| ==> At(p, cells[k])
    ensures forall j :: i <= j < k ==> !At(p, cells[j])
    decreases |cells| - i
  {
    if i == |cells| then i
    else if At(p, cells[i]) then i
    else Scan(p, cells, i + 1)
  }

  /** Position of the first entry of the group that the pattern contains;
      the group must contain one. */
  function FirstIn(p: Pattern, cells: seq<Cell>): (k: nat)
    requires AllInGrid(cells) && CountIn(p, cells) >= 1
    ensures k < |cells| && At(p, cells[k])
    ensures forall j :: 0 <= j < k ==> !At(p, cells[j])
  {
    CountZero(p, cells);
    Scan(p, cells, 0)
  }

  // ---------------------------------------------------------------------------
  // Counting the digits still possible in one cell

  /** Number of patterns in `ps` that contain the cell. */
  function DigitCount(ps: seq<Pattern>, x: Cell): nat
    requires InGrid(x)
  {
    if ps == [] then 0
    else DigitCount(ps[..|ps| - 1], x) + (if At(ps[|ps| - 1], x) then 1 else 0)
  }

  lemma {:induction false} DigitCountZero(ps: seq<Pattern>, x: Cell)
    requires InGrid(x)
    ensures DigitCount(ps, x) == 0 <==> forall d :: 0 <= d < |ps| ==> !At(ps[d], x)
  {
    if ps != [] {
      var init := ps[..|ps| - 1];
      DigitCountZero(init, x);
      assert forall d :: 0 <= d < |init| ==> init[d] == ps[d];
    }
  }

  lemma DigitCountPositive(ps: seq<Pattern>, x: Cell) returns (d: nat)
    requires InGrid(x)
    requires DigitCount(ps, x) >= 1
    ensures d < |ps| && At(ps[d], x)
  {
    DigitCountZero(ps, x);
    d :| 0 <= d < |ps| && At(ps[d], x);
  }

  lemma {:induction false} DigitCountOne(ps: seq<Pattern>, x: Cell, i: nat, j: nat)
    requires InGrid(x)
    requires DigitCount(ps, x) == 1
    requires i < |ps| && j < |ps| && At(ps[i], x) && At(ps[j], x)
    ensures i == j
  {
    var n := |ps| - 1;
    var init := ps[..n];
    assert forall k :: 0 <= k < n ==> init[k] == ps[k];
    if At(ps[n], x) {
      DigitCountZero(init, x);
    } else {
      DigitCountOne(init, x, i, j);
    }
  }

  /** Replacing the pattern of one digit by one that differs only at `x`
      changes the digit count of `x` by one and no other digit count. */
  lemma {:induction false} DigitCountChange(ps: seq<Pattern>, d: nat, q: Pattern, x: Cell, y: Cell)
    requires d < |ps| && InGrid(x) && InGrid(y)
    requires AgreeExcept(ps[d], q, x)
    ensures DigitCount(ps[d := q], y) + (if y == x && At(ps[d], x) then 1 else 0)
         == DigitCount(ps, y) + (if y == x && At(q, x) then 1 else 0)
  {
    var n := |ps| - 1;
    var ps' := ps[d := q];
    assert ps'[..n] == if d < n then ps[..n][d := q] else ps[..n];
    if d < n {
      DigitCountChange(ps[..n], d, q, x, y);
    }
  }

  /** Index of the first pattern, from position `d` on, containing the
      cell; `|ps|` when there is none. */
  function DigitScan(ps: seq<Pattern>, x: Cell, d: nat): (k: nat)
    requires InGrid(x) && d <= |ps|
    ensures d <= k <= |ps|
    ensures k < |ps| ==> At(ps[k], x)
    ensures forall j :: d <= j < k ==> !At(ps[j], x)
    decreases |ps| - d
  {
    if d == |ps| then d
    else if At(ps[d], x) then d
    else DigitScan(ps, x, d + 1)
  }

  /** The first pattern containing the cell; one must contain it. */
  function FirstDigit(ps: seq<Pattern>, x: Cell): (d: nat)
    requires InGrid(x) && DigitCount(ps, x) >= 1
    ensures d < |ps| && At(ps[d], x)
    ensures forall j :: 0 <= j < d ==> !At(ps[j], x)
  {
    DigitCountZero(ps, x);
    DigitScan(ps, x, 0)
  }

  // ---------------------------------------------------------------------------
  // Pigeonhole

  /** The values occurring in a sequence. */
  function Values(s: seq<nat>): set<nat>
  {
    set v | v in s
  }

  /** A sequence without repetition has as many values as entries. */
  lemma {:induction false} DistinctCard(s: seq<nat>)
    requires Distinct(s)
    ensures |Values(s)| == |s|
  {
    if s != [] {
      var init := s[..|s| - 1];
      assert forall j :: 0 <= j < |init| ==> init[j] == s[j];
      DistinctCard(init);
      assert Values(s) == Values(init) + {s[|s| - 1]};
    } else {
      assert Values(s) == {};
    }
  }

  /** Nine different values below 9 take every value below 9. */
  lemma NineOfNine(s: set<nat>)
    requires forall v :: v in s ==> v < 9
    requires |s| >= 9
    ensures forall v: nat :: v < 9 ==> v in s
  {
    forall v: nat | v < 9
      ensures v in s
    {
      if v !in s {
        var rest := Below(9) - {v};
        assert s <= rest;
        BelowCard(9);
        SubsetCard(s, rest);
      }
    }
  }

  lemma {:induction false} BelowCard(n: nat)
    ensures |Below(n)| == n
  {
    if n > 0 {
      BelowCard(n - 1);
    }
  }

  lemma {:induction false} SubsetCard(a: set<nat>, b: set<nat>)
    requires a <= b
    ensures |a| <= |b|
  {
    assert b == a + (b - a);
  }
}
