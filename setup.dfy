/** The logic phase.  Every digit starts possible in every cell; removing a
    digit from a cell lowers the count of possible digits of that cell and
    the count of places for that digit in its row, column and box.  A count
    that reaches one schedules further removals, a count that reaches zero
    means the puzzle has no solution.  The removals still to do form a stack. */
module Setup {
  import opened Patterns
  import opened Units
  import opened Templates

  /** Remove digit `digit` (0-based) from the cell `(row, col)`. */
  datatype Elim = Elim(row: nat, col: nat, digit: nat)

  /** Outcome of an operation that may find the puzzle contradictory. */
  datatype Outcome = Ok | ImpossiblePuzzle

  datatype Option<T> = None | Some(value: T)

  predicate InRange(e: Elim)
  {
    e.row < 9 && e.col < 9 && e.digit < 9
  }

  function CellOf(e: Elim): Cell
  {
    (e.row, e.col)
  }

  // ---------------------------------------------------------------------------
  // Removals that a found digit schedules

  /** Removals of the digits `0 .. n - 1` other than `digit` from cell `x`,
      in increasing digit order. */
  function OthersBelow(x: Cell, digit: nat, n: nat): seq<Elim>
  {
    if n == 0 then []
    else OthersBelow(x, digit, n - 1) + (if n - 1 != digit then [Elim(x.0, x.1, n - 1)] else [])
  }

  /** What `enqueue_others` pushes: every digit but `digit` leaves cell `x`. */
  function Others(x: Cell, digit: nat): seq<Elim>
  {
    OthersBelow(x, digit, 9)
  }

  lemma {:induction false} OthersBelowMembers(x: Cell, digit: nat, n: nat)
    ensures forall e :: e in OthersBelow(x, digit, n) <==> CellOf(e) == x && e.digit < n && e.digit != digit
  {
    if n > 0 {
      OthersBelowMembers(x, digit, n - 1);
    }
  }

  /** `Others` removes exactly the digits other than `digit` from `x`. */
  lemma OthersMembers(x: Cell, digit: nat)
    ensures forall e :: e in Others(x, digit) <==> CellOf(e) == x && e.digit < 9 && e.digit != digit
  {
    OthersBelowMembers(x, digit, 9);
  }

  /** The rest of the row of `x`, columns `0 .. n - 1`. */
  function RowRest(x: Cell, digit: nat, n: nat): seq<Elim>
  {
    if n == 0 then []
    else RowRest(x, digit, n - 1) + (if n - 1 != x.1 then [Elim(x.0, n - 1, digit)] else [])
  }

  /** The rest of the column of `x`, rows `0 .. n - 1`. */
  function ColRest(x: Cell, digit: nat, n: nat): seq<Elim>
  {
    if n == 0 then []
    else ColRest(x, digit, n - 1) + (if n - 1 != x.0 then [Elim(n - 1, x.1, digit)] else [])
  }

  /** The rest of the box of `x`, the first `n` entries of its listing. */
  function BoxRest(x: Cell, digit: nat, n: nat): seq<Elim>
    requires n <= 9
  {
    if n == 0 then []
    else
      var y := BoxCells(x.0, x.1)[n - 1];
      BoxRest(x, digit, n - 1) + (if y != x then [Elim(y.0, y.1, digit)] else [])
  }

  lemma {:induction false} RowRestMembers(x: Cell, digit: nat, n: nat)
    ensures forall e :: e in RowRest(x, digit, n) <==> e.row == x.0 && e.col < n && e.col != x.1 && e.digit == digit
  {
    if n > 0 {
      RowRestMembers(x, digit, n - 1);
    }
  }

  lemma {:induction false} ColRestMembers(x: Cell, digit: nat, n: nat)
    ensures forall e :: e in ColRest(x, digit, n) <==> e.col == x.1 && e.row < n && e.row != x.0 && e.digit == digit
  {
    if n > 0 {
      ColRestMembers(x, digit, n - 1);
    }
  }

  lemma {:induction false} BoxRestMembers(x: Cell, digit: nat, n: nat)
    requires n <= 9
    ensures forall e :: e in BoxRest(x, digit, n) <==>
      (e.digit == digit && CellOf(e) != x && exists k :: 0 <= k < n && BoxCells(x.0, x.1)[k] == CellOf(e))
  {
    if n > 0 {
      BoxRestMembers(x, digit, n - 1);
    }
  }

  /** What `enqueue_adjacent` pushes: the rest of the row, then of the
      column, then of the box of `x`. */
  function Adjacent(x: Cell, digit: nat): seq<Elim>
  {
    RowRest(x, digit, 9) + ColRest(x, digit, 9) + BoxRest(x, digit, 9)
  }

  /** `Adjacent` removes `digit` from exactly the peers of `x`. */
  lemma AdjacentPeers(x: Cell, digit: nat)
    requires InGrid(x)
    ensures forall e :: e in Adjacent(x, digit) <==> e.digit == digit && InGrid(CellOf(e)) && Peer(x, CellOf(e))
  {
    var es := Adjacent(x, digit);
    RowRestMembers(x, digit, 9);
    ColRestMembers(x, digit, 9);
    BoxRestMembers(x, digit, 9);
    BoxCellsSpec(x.0, x.1);
    forall e | e in es
      ensures InGrid(CellOf(e)) && Peer(x, CellOf(e))
    {
      if e in BoxRest(x, digit, 9) {
        var k :| 0 <= k < 9 && BoxCells(x.0, x.1)[k] == CellOf(e);
      }
    }
    forall e: Elim | e.digit == digit && InGrid(CellOf(e)) && Peer(x, CellOf(e))
      ensures e in es
    {
      var y := CellOf(e);
      if y.0 != x.0 && y.1 != x.1 {
        assert BoxCells(x.0, x.1)[BoxPos(y)] == y;
        assert e in BoxRest(x, digit, 9);
      }
    }
  }

  // ---------------------------------------------------------------------------
  // Removing one digit from one cell

  /** The digit patterns after `e`. */
  function Removed(ps: seq<Pattern>, e: Elim): (ps': seq<Pattern>)
    requires |ps| == 9 && InRange(e)
    ensures |ps'| == 9
    ensures Shrinks(ps, ps')
    ensures !At(ps'[e.digit], CellOf(e))
    ensures forall d, y: Cell :: 0 <= d < 9 && InGrid(y) && (d, y) != (e.digit, CellOf(e)) ==> (At(ps'[d], y) <==> At(ps[d], y))
  {
    var ps' := ps[e.digit := Without(ps[e.digit], e.row, e.col)];
    AgreeExceptBits(ps[e.digit], ps'[e.digit], CellOf(e));
    ps'
  }

  /** No pattern gains a cell. */
  ghost predicate Shrinks(ps: seq<Pattern>, ps': seq<Pattern>)
  {
    |ps'| == |ps| && forall d :: 0 <= d < |ps| ==> ps'[d].bits <= ps[d].bits
  }

  /** A cell a shrunk pattern holds was held before. */
  lemma ShrinksAt(ps: seq<Pattern>, ps': seq<Pattern>, d: nat, y: Cell)
    requires Shrinks(ps, ps') && d < |ps| && InGrid(y) && At(ps'[d], y)
    ensures At(ps[d], y)
  {
    assert 9 * y.0 + y.1 in ps'[d].bits;
  }

  /** Removing a present digit lowers the digit count of its cell by one
      and no other cell's. */
  lemma RemovedCellCounts(ps: seq<Pattern>, e: Elim)
    requires |ps| == 9 && InRange(e) && At(ps[e.digit], CellOf(e))
    ensures forall y: Cell :: InGrid(y) ==>
      DigitCount(Removed(ps, e), y) == DigitCount(ps, y) - if y == CellOf(e) then 1 else 0
  {
    var q := Removed(ps, e)[e.digit];
    assert Removed(ps, e) == ps[e.digit := q];
    forall y: Cell | InGrid(y)
      ensures DigitCount(Removed(ps, e), y) == DigitCount(ps, y) - if y == CellOf(e) then 1 else 0
    {
      DigitCountChange(ps, e.digit, q, CellOf(e), y);
    }
  }

  /** Removing a present digit lowers that digit's count in the cell's
      group `cells` by one, and leaves every other group's count alone. */
  lemma RemovedGroupCount(ps: seq<Pattern>, e: Elim, d: nat, cells: seq<Cell>)
    requires |ps| == 9 && InRange(e) && At(ps[e.digit], CellOf(e)) && d < 9
    requires AllInGrid(cells) && Distinct(cells)
    ensures CountIn(Removed(ps, e)[d], cells) ==
      CountIn(ps[d], cells) - if d == e.digit && CellOf(e) in cells then 1 else 0
  {
    if d == e.digit {
      CountChange(ps[d], Removed(ps, e)[d], CellOf(e), cells);
    }
  }

  /** Removing a present digit lowers the digit's count in the cell's row,
      column and box by one, and no other row, column or box count. */
  lemma RemovedRowCounts(ps: seq<Pattern>, e: Elim)
    requires |ps| == 9 && InRange(e) && At(ps[e.digit], CellOf(e))
    ensures forall r, d :: 0 <= r < 9 && 0 <= d < 9 ==>
      RowCount(Removed(ps, e)[d], r) == RowCount(ps[d], r) - if (r, d) == (e.row, e.digit) then 1 else 0
  {
    forall r, d | 0 <= r < 9 && 0 <= d < 9
      ensures RowCount(Removed(ps, e)[d], r) == RowCount(ps[d], r) - if (r, d) == (e.row, e.digit) then 1 else 0
    {
      UnitMembership(CellOf(e));
      RemovedGroupCount(ps, e, d, RowCells(r));
    }
  }

  lemma RemovedColCounts(ps: seq<Pattern>, e: Elim)
    requires |ps| == 9 && InRange(e) && At(ps[e.digit], CellOf(e))
    ensures forall c, d :: 0 <= c < 9 && 0 <= d < 9 ==>
      ColCount(Removed(ps, e)[d], c) == ColCount(ps[d], c) - if (c, d) == (e.col, e.digit) then 1 else 0
  {
    forall c, d | 0 <= c < 9 && 0 <= d < 9
      ensures ColCount(Removed(ps, e)[d], c) == ColCount(ps[d], c) - if (c, d) == (e.col, e.digit) then 1 else 0
    {
      UnitMembership(CellOf(e));
      RemovedGroupCount(ps, e, d, ColCells(c));
    }
  }

  lemma RemovedBoxCounts(ps: seq<Pattern>, e: Elim)
    requires |ps| == 9 && InRange(e) && At(ps[e.digit], CellOf(e))
    ensures forall b, d :: 0 <= b < 9 && 0 <= d < 9 ==>
      BoxCount(Removed(ps, e)[d], b) == BoxCount(ps[d], b) - if (b, d) == (BoxOf(CellOf(e)), e.digit) then 1 else 0
  {
    forall b, d | 0 <= b < 9 && 0 <= d < 9
      ensures BoxCount(Removed(ps, e)[d], b) == BoxCount(ps[d], b) - if (b, d) == (BoxOf(CellOf(e)), e.digit) then 1 else 0
    {
      UnitMembership(CellOf(e));
      RemovedGroupCount(ps, e, d, BoxCellsOf(b));
    }
  }

  /** Does `e` remove the last digit of its cell, or the last place of its
      digit in its row, column or box? */
  ghost predicate Wipes(ps: seq<Pattern>, e: Elim)
    requires |ps| == 9 && InRange(e)
  {
    var ps' := Removed(ps, e);
    var p := ps'[e.digit];
    BoxCellsNumbered(e.row, e.col);
    At(ps[e.digit], CellOf(e)) &&
    (DigitCount(ps', CellOf(e)) == 0 || RowCount(p, e.row) == 0 ||
     ColCount(p, e.col) == 0 || BoxCount(p, BoxOf(CellOf(e))) == 0)
  }

  /** A cell left with one digit clears that digit from its peers. */
  function CellPart(ps: seq<Pattern>, x: Cell): seq<Elim>
    requires |ps| == 9 && InGrid(x)
  {
    if DigitCount(ps, x) == 1 then Adjacent(x, FirstDigit(ps, x)) else []
  }

  /** A row left with one place for `digit` clears the other digits there. */
  function RowPart(p: Pattern, row: nat, digit: nat): seq<Elim>
    requires row < 9
  {
    if RowCount(p, row) == 1 then Others((row, FirstIn(p, RowCells(row))), digit) else []
  }

  /** A column left with one place for `digit` clears the other digits there. */
  function ColPart(p: Pattern, col: nat, digit: nat): seq<Elim>
    requires col < 9
  {
    if ColCount(p, col) == 1 then Others((FirstIn(p, ColCells(col)), col), digit) else []
  }

  /** A box left with one place for `digit` clears the other digits there;
      the place is searched in the listing of the box of `x`. */
  function BoxPart(p: Pattern, x: Cell, digit: nat): seq<Elim>
    requires InGrid(x)
  {
    if BoxCount(p, BoxOf(x)) == 1 then Others(BoxPlace(p, x), digit) else []
  }

  /** The first cell of the listing of the box of `x` that `p` holds. */
  function BoxPlace(p: Pattern, x: Cell): Cell
    requires InGrid(x) && BoxCount(p, BoxOf(x)) >= 1
  {
    BoxCellsNumbered(x.0, x.1);
    BoxCells(x.0, x.1)[FirstIn(p, BoxCells(x.0, x.1))]
  }

  /** The removals that `e` schedules, in the order `eliminate` pushes them. */
  function Cascade(ps: seq<Pattern>, e: Elim): seq<Elim>
    requires |ps| == 9 && InRange(e)
  {
    if !At(ps[e.digit], CellOf(e)) then []
    else
      var ps' := Removed(ps, e);
      CellPart(ps', CellOf(e)) + RowPart(ps'[e.digit], e.row, e.digit) +
      ColPart(ps'[e.digit], e.col, e.digit) + BoxPart(ps'[e.digit], CellOf(e), e.digit)
  }

  // ---------------------------------------------------------------------------
  // The fixed point propagation reaches

  /** Digit `d` has left cell `x`, or its removal is pending in `queue`. */
  ghost predicate Gone(ps: seq<Pattern>, queue: seq<Elim>, x: Cell, d: nat)
    requires |ps| == 9 && InGrid(x) && d < 9
  {
    !At(ps[d], x) || Elim(x.0, x.1, d) in queue
  }

  /** Rule 1 at cell `x`: once `x` holds a single digit, no peer of `x`
      keeps that digit (apart from pending removals). */
  ghost predicate CellSettled(ps: seq<Pattern>, queue: seq<Elim>, x: Cell)
    requires |ps| == 9 && InGrid(x)
  {
    DigitCount(ps, x) == 1 ==>
      forall d: nat, y: Cell :: d < 9 && At(ps[d], x) && InGrid(y) && Peer(x, y) ==> Gone(ps, queue, y, d)
  }

  /** Rule 2 for row `r`: once digit `d` has a single place in the row,
      that cell keeps no other digit (apart from pending removals). */
  ghost predicate RowSettled(ps: seq<Pattern>, queue: seq<Elim>, r: nat, d: nat)
    requires |ps| == 9 && r < 9 && d < 9
  {
    RowCount(ps[d], r) == 1 ==>
      forall c: nat, d': nat :: c < 9 && d' < 9 && d' != d && At(ps[d], (r, c)) ==> Gone(ps, queue, (r, c), d')
  }

  /** Rule 2 for column `c`. */
  ghost predicate ColSettled(ps: seq<Pattern>, queue: seq<Elim>, c: nat, d: nat)
    requires |ps| == 9 && c < 9 && d < 9
  {
    ColCount(ps[d], c) == 1 ==>
      forall r: nat, d': nat :: r < 9 && d' < 9 && d' != d && At(ps[d], (r, c)) ==> Gone(ps, queue, (r, c), d')
  }

  /** Rule 2 for box `b`. */
  ghost predicate BoxSettled(ps: seq<Pattern>, queue: seq<Elim>, b: nat, d: nat)
    requires |ps| == 9 && b < 9 && d < 9
  {
    BoxCount(ps[d], b) == 1 ==>
      forall y: Cell, d': nat :: InGrid(y) && BoxOf(y) == b && d' < 9 && d' != d && At(ps[d], y) ==> Gone(ps, queue, y, d')
  }

  /** Both rules hold everywhere once the pending removals are done; with an
      empty queue this is the fixed point `Possibilities` promises. */
  ghost predicate Closed(ps: seq<Pattern>, queue: seq<Elim>)
  {
    |ps| == 9 &&
    (forall r: nat, c: nat :: r < 9 && c < 9 ==> CellSettled(ps, queue, (r, c))) &&
    (forall u: nat, d: nat :: u < 9 && d < 9 ==> RowSettled(ps, queue, u, d)) &&
    (forall u: nat, d: nat :: u < 9 && d < 9 ==> ColSettled(ps, queue, u, d)) &&
    (forall u: nat, d: nat :: u < 9 && d < 9 ==> BoxSettled(ps, queue, u, d))
  }

  /** A removal pending before `e` is carried out stays gone or pending. */
  lemma GoneStep(ps: seq<Pattern>, queue: seq<Elim>, e: Elim, more: seq<Elim>, y: Cell, d: nat)
    requires |ps| == 9 && InRange(e) && InGrid(y) && d < 9
    requires Gone(ps, queue + [e], y, d)
    ensures Gone(Removed(ps, e), queue + more, y, d)
  {
    var x := Elim(y.0, y.1, d);
    if x in queue + [e] && x !in queue {
      assert x == e;
    }
  }

  /** A cell that `e` leaves with one digit has that digit's removal from
      each of its peers scheduled. */
  lemma CellCascade(ps: seq<Pattern>, e: Elim, d: nat, y: Cell)
    requires |ps| == 9 && InRange(e) && At(ps[e.digit], CellOf(e)) && d < 9
    requires DigitCount(Removed(ps, e), CellOf(e)) == 1 && At(Removed(ps, e)[d], CellOf(e))
    requires InGrid(y) && Peer(CellOf(e), y)
    ensures Elim(y.0, y.1, d) in Cascade(ps, e)
  {
    var ps', x := Removed(ps, e), CellOf(e);
    DigitCountOne(ps', x, d, FirstDigit(ps', x));
    AdjacentPeers(x, d);
    assert Elim(y.0, y.1, d) in CellPart(ps', x);
  }

  /** After a present digit is removed without emptying anything, a cell
      left with one digit has the removal of that digit from all its peers
      scheduled. */
  lemma CellRuleKept(ps: seq<Pattern>, queue: seq<Elim>, e: Elim, z: Cell)
    requires |ps| == 9 && InRange(e) && InGrid(z)
    requires CellSettled(ps, queue + [e], z)
    ensures CellSettled(Removed(ps, e), queue + Cascade(ps, e), z)
  {
    var ps', more := Removed(ps, e), Cascade(ps, e);
    if DigitCount(ps', z) == 1 {
      var present := At(ps[e.digit], CellOf(e));
      if present {
        RemovedCellCounts(ps, e);
      } else {
        assert ps' == ps;
      }
      forall d: nat, y: Cell | d < 9 && At(ps'[d], z) && InGrid(y) && Peer(z, y)
        ensures Gone(ps', queue + more, y, d)
      {
        if present && z == CellOf(e) {
          CellCascade(ps, e, d, y);
        } else {
          ShrinksAt(ps, ps', d, z);
          assert DigitCount(ps, z) == 1;
          GoneStep(ps, queue, e, more, y, d);
        }
      }
    }
  }

  /** A row that `e` leaves with one place for its digit has the other
      digits' removal from that place scheduled. */
  lemma RowCascade(ps: seq<Pattern>, e: Elim, c: nat, d': nat)
    requires |ps| == 9 && InRange(e) && At(ps[e.digit], CellOf(e)) && c < 9 && d' < 9 && d' != e.digit
    requires RowCount(Removed(ps, e)[e.digit], e.row) == 1 && At(Removed(ps, e)[e.digit], (e.row, c))
    ensures Elim(e.row, c, d') in Cascade(ps, e)
  {
    var p := Removed(ps, e)[e.digit];
    CountOne(p, RowCells(e.row), c, FirstIn(p, RowCells(e.row)));
    OthersMembers((e.row, c), e.digit);
    assert Elim(e.row, c, d') in RowPart(p, e.row, e.digit);
  }

  lemma ColCascade(ps: seq<Pattern>, e: Elim, r: nat, d': nat)
    requires |ps| == 9 && InRange(e) && At(ps[e.digit], CellOf(e)) && r < 9 && d' < 9 && d' != e.digit
    requires ColCount(Removed(ps, e)[e.digit], e.col) == 1 && At(Removed(ps, e)[e.digit], (r, e.col))
    ensures Elim(r, e.col, d') in Cascade(ps, e)
  {
    var p := Removed(ps, e)[e.digit];
    CountOne(p, ColCells(e.col), r, FirstIn(p, ColCells(e.col)));
    OthersMembers((r, e.col), e.digit);
    assert Elim(r, e.col, d') in ColPart(p, e.col, e.digit);
  }

  lemma BoxCascade(ps: seq<Pattern>, e: Elim, y: Cell, d': nat)
    requires |ps| == 9 && InRange(e) && At(ps[e.digit], CellOf(e)) && InGrid(y) && d' < 9 && d' != e.digit
    requires BoxOf(y) == BoxOf(CellOf(e)) && BoxOf(y) < 9
    requires BoxCount(Removed(ps, e)[e.digit], BoxOf(y)) == 1 && At(Removed(ps, e)[e.digit], y)
    ensures Elim(y.0, y.1, d') in Cascade(ps, e)
  {
    var p, x := Removed(ps, e)[e.digit], CellOf(e);
    BoxCellsNumbered(x.0, x.1);
    var cells := BoxCells(x.0, x.1);
    assert cells[BoxPos(y)] == y;
    CountOne(p, cells, BoxPos(y), FirstIn(p, cells));
    OthersMembers(y, e.digit);
    assert Elim(y.0, y.1, d') in BoxPart(p, x, e.digit);
  }

  /** One cell of a row that has one place left for digit `d`. */
  lemma RowRuleAt(ps: seq<Pattern>, queue: seq<Elim>, e: Elim, r: nat, d: nat, c: nat, d': nat)
    requires |ps| == 9 && InRange(e) && r < 9 && d < 9 && c < 9 && d' < 9 && d' != d
    requires RowSettled(ps, queue + [e], r, d)
    requires RowCount(Removed(ps, e)[d], r) == 1 && At(Removed(ps, e)[d], (r, c))
    ensures Gone(Removed(ps, e), queue + Cascade(ps, e), (r, c), d')
  {
    var ps' := Removed(ps, e);
    if At(ps[e.digit], CellOf(e)) {
      UnitMembership(CellOf(e));
      RemovedGroupCount(ps, e, d, RowCells(r));
    } else {
      assert ps' == ps;
    }
    if At(ps[e.digit], CellOf(e)) && (r, d) == (e.row, e.digit) {
      RowCascade(ps, e, c, d');
    } else {
      ShrinksAt(ps, ps', d, (r, c));
      assert RowCount(ps[d], r) == 1;
      GoneStep(ps, queue, e, Cascade(ps, e), (r, c), d');
    }
  }

  lemma RowRuleKept(ps: seq<Pattern>, queue: seq<Elim>, e: Elim, r: nat, d: nat)
    requires |ps| == 9 && InRange(e) && r < 9 && d < 9
    requires RowSettled(ps, queue + [e], r, d)
    ensures RowSettled(Removed(ps, e), queue + Cascade(ps, e), r, d)
  {
    if RowCount(Removed(ps, e)[d], r) == 1 {
      forall c: nat, d': nat | c < 9 && d' < 9 && d' != d && At(Removed(ps, e)[d], (r, c))
        ensures Gone(Removed(ps, e), queue + Cascade(ps, e), (r, c), d')
      {
        RowRuleAt(ps, queue, e, r, d, c, d');
      }
    }
  }

  /** One cell of a column that has one place left for digit `d`. */
  lemma ColRuleAt(ps: seq<Pattern>, queue: seq<Elim>, e: Elim, c: nat, d: nat, r: nat, d': nat)
    requires |ps| == 9 && InRange(e) && r < 9 && d < 9 && c < 9 && d' < 9 && d' != d
    requires ColSettled(ps, queue + [e], c, d)
    requires ColCount(Removed(ps, e)[d], c) == 1 && At(Removed(ps, e)[d], (r, c))
    ensures Gone(Removed(ps, e), queue + Cascade(ps, e), (r, c), d')
  {
    var ps' := Removed(ps, e);
    if At(ps[e.digit], CellOf(e)) {
      UnitMembership(CellOf(e));
      RemovedGroupCount(ps, e, d, ColCells(c));
    } else {
      assert ps' == ps;
    }
    if At(ps[e.digit], CellOf(e)) && (c, d) == (e.col, e.digit) {
      ColCascade(ps, e, r, d');
    } else {
      ShrinksAt(ps, ps', d, (r, c));
      assert ColCount(ps[d], c) == 1;
      GoneStep(ps, queue, e, Cascade(ps, e), (r, c), d');
    }
  }

  lemma ColRuleKept(ps: seq<Pattern>, queue: seq<Elim>, e: Elim, c: nat, d: nat)
    requires |ps| == 9 && InRange(e) && c < 9 && d < 9
    requires ColSettled(ps, queue + [e], c, d)
    ensures ColSettled(Removed(ps, e), queue + Cascade(ps, e), c, d)
  {
    if ColCount(Removed(ps, e)[d], c) == 1 {
      forall r: nat, d': nat | r < 9 && d' < 9 && d' != d && At(Removed(ps, e)[d], (r, c))
        ensures Gone(Removed(ps, e), queue + Cascade(ps, e), (r, c), d')
      {
        ColRuleAt(ps, queue, e, c, d, r, d');
      }
    }
  }

  lemma BoxRuleKept(ps: seq<Pattern>, queue: seq<Elim>, e: Elim, b: nat, d: nat)
    requires |ps| == 9 && InRange(e) && b < 9 && d < 9
    requires BoxSettled(ps, queue + [e], b, d)
    ensures BoxSettled(Removed(ps, e), queue + Cascade(ps, e), b, d)
  {
    var ps', more := Removed(ps, e), Cascade(ps, e);
    if BoxCount(ps'[d], b) == 1 {
      var present := At(ps[e.digit], CellOf(e));
      if present {
        UnitMembership(CellOf(e));
        RemovedGroupCount(ps, e, d, BoxCellsOf(b));
      } else {
        assert ps' == ps;
      }
      forall y: Cell, d': nat | InGrid(y) && BoxOf(y) == b && d' < 9 && d' != d && At(ps'[d], y)
        ensures Gone(ps', queue + more, y, d')
      {
        if present && (b, d) == (BoxOf(CellOf(e)), e.digit) {
          BoxCascade(ps, e, y, d');
        } else {
          ShrinksAt(ps, ps', d, y);
          assert BoxCount(ps[d], b) == 1;
          GoneStep(ps, queue, e, more, y, d');
        }
      }
    }
  }

  /** Carrying out the last pending removal keeps both rules. */
  lemma ElimKeepsClosed(ps: seq<Pattern>, queue: seq<Elim>, e: Elim)
    requires InRange(e) && Closed(ps, queue + [e])
    ensures Closed(Removed(ps, e), queue + Cascade(ps, e))
  {
    forall r: nat, c: nat | r < 9 && c < 9
      ensures CellSettled(Removed(ps, e), queue + Cascade(ps, e), (r, c))
    {
      CellRuleKept(ps, queue, e, (r, c));
    }
    forall u: nat, d: nat | u < 9 && d < 9
      ensures RowSettled(Removed(ps, e), queue + Cascade(ps, e), u, d)
      ensures ColSettled(Removed(ps, e), queue + Cascade(ps, e), u, d)
      ensures BoxSettled(Removed(ps, e), queue + Cascade(ps, e), u, d)
    {
      RowRuleKept(ps, queue, e, u, d);
      ColRuleKept(ps, queue, e, u, d);
      BoxRuleKept(ps, queue, e, u, d);
    }
  }

  /** Every removal in `queue` is already done in `ps`. */
  ghost predicate Done(ps: seq<Pattern>, queue: seq<Elim>)
    requires |ps| == 9
  {
    forall e :: e in queue ==> InRange(e) && !At(ps[e.digit], CellOf(e))
  }

  /** Cell `x` allows digit `d` and no other. */
  ghost predicate Only(ps: seq<Pattern>, x: Cell, d: nat)
    requires |ps| == 9 && InGrid(x)
  {
    d < 9 && forall d' :: 0 <= d' < 9 ==> (At(ps[d'], x) <==> d' == d)
  }

  /** Every removal in `q0` is done in `ps` or still waits in `queue`. */
  ghost predicate Pending(ps: seq<Pattern>, q0: seq<Elim>, queue: seq<Elim>)
    requires |ps| == 9
  {
    forall e :: e in q0 ==> InRange(e) && Gone(ps, queue, CellOf(e), e.digit)
  }

  /** What the `work` loop keeps, from the patterns `ps0` and queue `q0` it
      started with to the current `ps` and `queue`: the patterns only shrink,
      every removal first asked for is done or still pending, both rules
      carry over, and a queue of removals that were all already done changes
      nothing. */
  ghost predicate Working(ps0: seq<Pattern>, q0: seq<Elim>, ps: seq<Pattern>, queue: seq<Elim>)
    requires |ps0| == 9 && |ps| == 9
  {
    Shrinks(ps0, ps) && Pending(ps, q0, queue) &&
    (Closed(ps0, q0) ==> Closed(ps, queue)) &&
    (Done(ps0, q0) ==> ps == ps0 && Done(ps, queue))
  }

  /** One turn of the `work` loop: the last pending removal `e` is taken
      off `queue` and carried out, and its cascade is queued. */
  lemma WorkStep(ps0: seq<Pattern>, q0: seq<Elim>, ps: seq<Pattern>, queue: seq<Elim>)
    requires |ps0| == 9 && |ps| == 9 && queue != [] && InRange(queue[|queue| - 1])
    requires Working(ps0, q0, ps, queue)
    ensures var e := queue[|queue| - 1];
      Working(ps0, q0, Removed(ps, e), queue[..|queue| - 1] + Cascade(ps, e))
    ensures var e := queue[|queue| - 1];
      Done(ps0, q0) ==> !At(ps[e.digit], CellOf(e))
    ensures var e := queue[|queue| - 1];
      At(ps[e.digit], CellOf(e)) ==> Live(Removed(ps, e)) < Live(ps)
    ensures var e := queue[|queue| - 1];
      !At(ps[e.digit], CellOf(e)) ==>
        Removed(ps, e) == ps && queue[..|queue| - 1] + Cascade(ps, e) == queue[..|queue| - 1]
  {
    var e := queue[|queue| - 1];
    var rest := queue[..|queue| - 1];
    assert queue == rest + [e];
    var ps' := Removed(ps, e);
    var queue' := rest + Cascade(ps, e);
    LiveRemoved(ps, e);
    forall e' | e' in q0
      ensures Gone(ps', queue', CellOf(e'), e'.digit)
    {
      GoneStep(ps, rest, e, Cascade(ps, e), CellOf(e'), e'.digit);
    }
    if Closed(ps0, q0) {
      ElimKeepsClosed(ps, rest, e);
    }
    if !At(ps[e.digit], CellOf(e)) {
      assert queue' == rest;
    }
    if Done(ps0, q0) {
      assert e in queue;
      assert Done(ps', queue');
    }
  }

  /** Adding more pending removals keeps both rules. */
  lemma ClosedExtend(ps: seq<Pattern>, queue: seq<Elim>, more: seq<Elim>)
    requires Closed(ps, queue)
    ensures Closed(ps, queue + more)
  {
    var q := queue + more;
    forall r: nat, c: nat | r < 9 && c < 9
      ensures CellSettled(ps, q, (r, c))
    {
      if DigitCount(ps, (r, c)) == 1 {
        forall d: nat, y: Cell | d < 9 && At(ps[d], (r, c)) && InGrid(y) && Peer((r, c), y)
          ensures Gone(ps, q, y, d)
        {
          assert Gone(ps, queue, y, d);
        }
      }
    }
    forall u: nat, d: nat | u < 9 && d < 9
      ensures RowSettled(ps, q, u, d) && ColSettled(ps, q, u, d) && BoxSettled(ps, q, u, d)
    {
      if RowCount(ps[d], u) == 1 {
        assert RowSettled(ps, queue, u, d);
        forall c: nat, d': nat | c < 9 && d' < 9 && d' != d && At(ps[d], (u, c))
          ensures Gone(ps, q, (u, c), d')
        {
          assert Gone(ps, queue, (u, c), d');
        }
      }
      if ColCount(ps[d], u) == 1 {
        assert ColSettled(ps, queue, u, d);
        forall r: nat, d': nat | r < 9 && d' < 9 && d' != d && At(ps[d], (r, u))
          ensures Gone(ps, q, (r, u), d')
        {
          assert Gone(ps, queue, (r, u), d');
        }
      }
      if BoxCount(ps[d], u) == 1 {
        assert BoxSettled(ps, queue, u, d);
        forall y: Cell, d': nat | InGrid(y) && BoxOf(y) == u && d' < 9 && d' != d && At(ps[d], y)
          ensures Gone(ps, q, y, d')
        {
          assert Gone(ps, queue, y, d');
        }
      }
    }
  }

  /** Appending four lists one after another appends their concatenation.
      Kept as a lemma over plain sequences: stated inside `Eliminate`, the
      same regrouping is far more expensive to prove. */
  lemma Regroup(q: seq<Elim>, a: seq<Elim>, b: seq<Elim>, c: seq<Elim>, d: seq<Elim>)
    ensures q + (a + b + c + d) == q + a + b + c + d
  {
  }

  lemma CellPartInRange(ps: seq<Pattern>, x: Cell)
    requires |ps| == 9 && InGrid(x)
    ensures forall e :: e in CellPart(ps, x) ==> InRange(e)
  {
    if DigitCount(ps, x) == 1 {
      AdjacentPeers(x, FirstDigit(ps, x));
    }
  }

  lemma RowPartInRange(p: Pattern, row: nat, digit: nat)
    requires row < 9
    ensures forall e :: e in RowPart(p, row, digit) ==> InRange(e)
  {
    if RowCount(p, row) == 1 {
      OthersMembers((row, FirstIn(p, RowCells(row))), digit);
    }
  }

  lemma ColPartInRange(p: Pattern, col: nat, digit: nat)
    requires col < 9
    ensures forall e :: e in ColPart(p, col, digit) ==> InRange(e)
  {
    if ColCount(p, col) == 1 {
      OthersMembers((FirstIn(p, ColCells(col)), col), digit);
    }
  }

  lemma BoxPartInRange(p: Pattern, x: Cell, digit: nat)
    requires InGrid(x)
    ensures forall e :: e in BoxPart(p, x, digit) ==> InRange(e)
  {
    if BoxCount(p, BoxOf(x)) == 1 {
      BoxCellsNumbered(x.0, x.1);
      OthersMembers(BoxPlace(p, x), digit);
    }
  }

  /** Every removal a cascade schedules names a grid cell and a digit. */
  lemma CascadeInRange(ps: seq<Pattern>, e: Elim)
    requires |ps| == 9 && InRange(e)
    ensures forall e' :: e' in Cascade(ps, e) ==> InRange(e')
  {
    if At(ps[e.digit], CellOf(e)) {
      var ps', x := Removed(ps, e), CellOf(e);
      var p := ps'[e.digit];
      CellPartInRange(ps', x);
      RowPartInRange(p, e.row, e.digit);
      ColPartInRange(p, e.col, e.digit);
      BoxPartInRange(p, x, e.digit);
    }
  }

  // ---------------------------------------------------------------------------
  // Propagation loses no solution

  /** Grid `g` puts in every cell a digit (1..9) that `ps` still allows
      there. */
  ghost predicate Fits(g: seq<nat>, ps: seq<Pattern>)
    requires |ps| == 9
  {
    |g| == 81 && forall x: Cell :: InGrid(x) ==> 1 <= g[Idx(x)] <= 9 && At(ps[g[Idx(x)] - 1], x)
  }

  /** Grid `g` shows none of the digits that the removals in `queue` take
      away. */
  ghost predicate Avoids(g: seq<nat>, queue: seq<Elim>)
  {
    |g| == 81 && forall e :: e in queue && InRange(e) ==> g[Idx(CellOf(e))] != e.digit + 1
  }

  /** A solved grid that the patterns `ps` and the pending removals
      `queue` have not ruled out. */
  ghost predicate Allowed(g: seq<nat>, ps: seq<Pattern>, queue: seq<Elim>)
    requires |ps| == 9
  {
    IsSolvedGrid(g) && Fits(g, ps) && Avoids(g, queue)
  }

  /** The solved grids that fit `ps'` are exactly those that fit `ps` and
      show `v` at `x`. */
  ghost predicate Narrowed(ps: seq<Pattern>, ps': seq<Pattern>, x: Cell, v: nat)
    requires |ps| == 9 && |ps'| == 9 && InGrid(x)
  {
    forall g :: IsSolvedGrid(g) ==> (Fits(g, ps') <==> Fits(g, ps) && g[Idx(x)] == v)
  }

  /** No solved grid that fits `ps` shows `v` at `x`. */
  ghost predicate Excludes(ps: seq<Pattern>, x: Cell, v: nat)
    requires |ps| == 9 && InGrid(x)
  {
    forall g :: IsSolvedGrid(g) && Fits(g, ps) ==> g[Idx(x)] != v
  }

  /** Every grid the state (`ps0`, `q0`) allowed, (`ps`, `queue`) allows. */
  ghost predicate KeepsAll(ps0: seq<Pattern>, q0: seq<Elim>, ps: seq<Pattern>, queue: seq<Elim>)
    requires |ps0| == 9 && |ps| == 9
  {
    forall g :: Allowed(g, ps0, q0) ==> Allowed(g, ps, queue)
  }

  /** In a row, column or box, the cell where a fitting solved grid shows
      `d + 1` is a place `ps[d]` allows; when the group has one place left
      for `d`, it is that one. */
  lemma FitsGroup(ps: seq<Pattern>, g: seq<nat>, cells: seq<Cell>, d: nat) returns (k: nat)
    requires |ps| == 9 && IsSolvedGrid(g) && Fits(g, ps) && Group(cells) && d < 9
    ensures AllInGrid(cells) && k < 9 && g[Idx(cells[k])] == d + 1 && At(ps[d], cells[k])
    ensures CountIn(ps[d], cells) >= 1
    ensures CountIn(ps[d], cells) == 1 ==> FirstIn(ps[d], cells) == k
  {
    k := GroupShows(g, cells, d + 1);
    CountZero(ps[d], cells);
    if CountIn(ps[d], cells) == 1 {
      CountOne(ps[d], cells, k, FirstIn(ps[d], cells));
    }
  }

  /** Removing a digit that the grid does not show where it is removed
      keeps the grid fitting. */
  lemma FitsRemoved(ps: seq<Pattern>, e: Elim, g: seq<nat>)
    requires |ps| == 9 && InRange(e) && Fits(g, ps) && g[Idx(CellOf(e))] != e.digit + 1
    ensures Fits(g, Removed(ps, e))
  {
    var ps' := Removed(ps, e);
    forall x: Cell | InGrid(x)
      ensures At(ps'[g[Idx(x)] - 1], x)
    {
      assert (g[Idx(x)] - 1, x) != (e.digit, CellOf(e));
    }
  }

  /** Under a fitting solved grid every row, column and box keeps a place
      for every digit. */
  lemma GroupKept(ps: seq<Pattern>, g: seq<nat>, cells: seq<Cell>, d: nat)
    requires |ps| == 9 && IsSolvedGrid(g) && Fits(g, ps) && Group(cells) && d < 9
    ensures AllInGrid(cells) && CountIn(ps[d], cells) >= 1
  {
    var k := GroupShows(g, cells, d + 1);
    assert At(ps[d], cells[k]);
    CountZero(ps[d], cells);
  }

  /** Under a fitting solved grid every cell keeps a digit, and the row,
      column and box of the cell keep a place for every digit. */
  lemma FitsCounts(ps: seq<Pattern>, g: seq<nat>, x: Cell, d: nat)
    requires |ps| == 9 && InGrid(x) && d < 9 && IsSolvedGrid(g) && Fits(g, ps)
    ensures DigitCount(ps, x) >= 1
    ensures RowCount(ps[d], x.0) >= 1 && ColCount(ps[d], x.1) >= 1 && BoxCount(ps[d], BoxOf(x)) >= 1
  {
    DigitCountZero(ps, x);
    assert At(ps[g[Idx(x)] - 1], x);
    RowGroup(x.0);
    GroupKept(ps, g, RowCells(x.0), d);
    ColGroup(x.1);
    GroupKept(ps, g, ColCells(x.1), d);
    BoxCellsNumbered(x.0, x.1);
    BoxGroup(BoxOf(x));
    GroupKept(ps, g, BoxCellsOf(BoxOf(x)), d);
  }

  /** A removal that a fitting solved grid does not contradict wipes no
      group. */
  lemma NoWipe(ps: seq<Pattern>, e: Elim, g: seq<nat>)
    requires |ps| == 9 && InRange(e) && IsSolvedGrid(g) && Fits(g, ps) && g[Idx(CellOf(e))] != e.digit + 1
    ensures !Wipes(ps, e)
  {
    FitsRemoved(ps, e, g);
    FitsCounts(Removed(ps, e), g, CellOf(e), e.digit);
  }

  /** A cell left with one digit is the digit a fitting solved grid shows
      there, and the grid shows it at none of the peers it is cleared from. */
  lemma CellPartAvoided(ps: seq<Pattern>, x: Cell, g: seq<nat>)
    requires |ps| == 9 && InGrid(x) && IsSolvedGrid(g) && Fits(g, ps)
    ensures Avoids(g, CellPart(ps, x))
  {
    if DigitCount(ps, x) == 1 {
      var d := FirstDigit(ps, x);
      DigitCountOne(ps, x, d, g[Idx(x)] - 1);
      AdjacentPeers(x, d);
      forall e | e in Adjacent(x, d) && InRange(e)
        ensures g[Idx(CellOf(e))] != e.digit + 1
      {
        assert Peer(x, CellOf(e));
      }
    }
  }

  /** A row left with one place for `digit` is where a fitting solved grid
      shows it, so the grid shows none of the other digits cleared there. */
  lemma RowPartAvoided(ps: seq<Pattern>, row: nat, digit: nat, g: seq<nat>)
    requires |ps| == 9 && row < 9 && digit < 9 && IsSolvedGrid(g) && Fits(g, ps)
    ensures Avoids(g, RowPart(ps[digit], row, digit))
  {
    if RowCount(ps[digit], row) == 1 {
      RowGroup(row);
      var k := FitsGroup(ps, g, RowCells(row), digit);
      OthersMembers((row, k), digit);
    }
  }

  lemma ColPartAvoided(ps: seq<Pattern>, col: nat, digit: nat, g: seq<nat>)
    requires |ps| == 9 && col < 9 && digit < 9 && IsSolvedGrid(g) && Fits(g, ps)
    ensures Avoids(g, ColPart(ps[digit], col, digit))
  {
    if ColCount(ps[digit], col) == 1 {
      ColGroup(col);
      var k := FitsGroup(ps, g, ColCells(col), digit);
      OthersMembers((k, col), digit);
    }
  }

  lemma BoxPartAvoided(ps: seq<Pattern>, x: Cell, digit: nat, g: seq<nat>)
    requires |ps| == 9 && InGrid(x) && digit < 9 && IsSolvedGrid(g) && Fits(g, ps)
    ensures Avoids(g, BoxPart(ps[digit], x, digit))
  {
    BoxCellsNumbered(x.0, x.1);
    if BoxCount(ps[digit], BoxOf(x)) == 1 {
      BoxGroup(BoxOf(x));
      var k := FitsGroup(ps, g, BoxCellsOf(BoxOf(x)), digit);
      OthersMembers(BoxPlace(ps[digit], x), digit);
    }
  }

  /** The removals that `e` schedules take away no digit that a fitting
      solved grid not contradicting `e` shows. */
  lemma CascadeAvoided(ps: seq<Pattern>, e: Elim, g: seq<nat>)
    requires |ps| == 9 && InRange(e) && IsSolvedGrid(g) && Fits(g, ps) && g[Idx(CellOf(e))] != e.digit + 1
    ensures Avoids(g, Cascade(ps, e))
  {
    if At(ps[e.digit], CellOf(e)) {
      var ps' := Removed(ps, e);
      FitsRemoved(ps, e, g);
      CellPartAvoided(ps', CellOf(e), g);
      RowPartAvoided(ps', e.row, e.digit, g);
      ColPartAvoided(ps', e.col, e.digit, g);
      BoxPartAvoided(ps', CellOf(e), e.digit, g);
    }
  }

  /** One turn of the `work` loop keeps every grid the start allowed, and a
      turn that wipes a group shows that the start allowed none. */
  lemma SoundStep(ps0: seq<Pattern>, q0: seq<Elim>, ps: seq<Pattern>, queue: seq<Elim>)
    requires |ps0| == 9 && |ps| == 9 && queue != [] && InRange(queue[|queue| - 1])
    requires KeepsAll(ps0, q0, ps, queue)
    ensures var e := queue[|queue| - 1];
      KeepsAll(ps0, q0, Removed(ps, e), queue[..|queue| - 1] + Cascade(ps, e))
    ensures Wipes(ps, queue[|queue| - 1]) ==> forall g :: !Allowed(g, ps0, q0)
  {
    var e := queue[|queue| - 1];
    var rest := queue[..|queue| - 1];
    assert queue == rest + [e];
    forall g | Allowed(g, ps0, q0)
      ensures Allowed(g, Removed(ps, e), rest + Cascade(ps, e)) && !Wipes(ps, e)
    {
      assert Allowed(g, ps, queue);
      assert e in queue;
      FitsRemoved(ps, e, g);
      NoWipe(ps, e, g);
      CascadeAvoided(ps, e, g);
    }
  }

  /** Once every removal of `q0` is done, a solved grid that fits the
      shrunk patterns was allowed at the start. */
  lemma DoneAllowed(ps0: seq<Pattern>, q0: seq<Elim>, ps: seq<Pattern>, g: seq<nat>)
    requires |ps0| == 9 && Shrinks(ps0, ps) && Done(ps, q0) && IsSolvedGrid(g) && Fits(g, ps)
    ensures Allowed(g, ps0, q0)
  {
    forall x: Cell | InGrid(x)
      ensures At(ps0[g[Idx(x)] - 1], x)
    {
      ShrinksAt(ps0, ps, g[Idx(x)] - 1, x);
    }
    forall e | e in q0 && InRange(e)
      ensures g[Idx(CellOf(e))] != e.digit + 1
    {
      assert !At(ps[e.digit], CellOf(e));
    }
  }

  /** The grids a state allows once the other digits of `x` are queued
      for removal are those that show `v` at `x`. */
  lemma AllowedClue(ps: seq<Pattern>, x: Cell, v: nat)
    requires |ps| == 9 && InGrid(x) && 1 <= v
    ensures forall g :: Allowed(g, ps, Others(x, v - 1)) <==> IsSolvedGrid(g) && Fits(g, ps) && g[Idx(x)] == v
  {
    OthersMembers(x, v - 1);
    forall g | IsSolvedGrid(g) && Fits(g, ps)
      ensures Avoids(g, Others(x, v - 1)) <==> g[Idx(x)] == v
    {
      var w := g[Idx(x)];
      if w != v {
        assert Elim(x.0, x.1, w - 1) in Others(x, v - 1);
      }
    }
  }

  // ---------------------------------------------------------------------------
  // Counts of the fresh machine

  /** FULL holds every cell of a group. */
  lemma {:induction false} CountFull(cells: seq<Cell>)
    requires AllInGrid(cells)
    ensures CountIn(FULL, cells) == |cells|
  {
    if cells != [] {
      CountFull(cells[..|cells| - 1]);
      var x := cells[|cells| - 1];
      assert 9 * x.0 + x.1 in Below(CELLS);
    }
  }

  /** A cell that every pattern holds is counted once per pattern. */
  lemma {:induction false} DigitCountAll(ps: seq<Pattern>, x: Cell)
    requires InGrid(x) && forall d :: 0 <= d < |ps| ==> At(ps[d], x)
    ensures DigitCount(ps, x) == |ps|
  {
    if ps != [] {
      DigitCountAll(ps[..|ps| - 1], x);
    }
  }

  /** Every digit possible everywhere. */
  function Fresh(): (ps: seq<Pattern>)
    ensures |ps| == 9
  {
    seq(9, _ => FULL)
  }

  /** In the fresh state every count is nine. */
  lemma FreshCounts()
    ensures forall x: Cell :: InGrid(x) ==> DigitCount(Fresh(), x) == 9
    ensures forall u :: 0 <= u < 9 ==> RowCount(FULL, u) == 9 && ColCount(FULL, u) == 9 && BoxCount(FULL, u) == 9
  {
    forall x: Cell | InGrid(x)
      ensures DigitCount(Fresh(), x) == 9
    {
      assert 9 * x.0 + x.1 in Below(CELLS);
      DigitCountAll(Fresh(), x);
    }
    forall u | 0 <= u < 9
      ensures RowCount(FULL, u) == 9 && ColCount(FULL, u) == 9 && BoxCount(FULL, u) == 9
    {
      CountFull(RowCells(u));
      CountFull(ColCells(u));
      CountFull(BoxCellsOf(u));
    }
  }

  /** The fresh state has no count of one, so both rules hold vacuously. */
  lemma FreshClosed()
    ensures Closed(Fresh(), [])
  {
    var ps := Fresh();
    FreshCounts();
    forall r: nat, c: nat | r < 9 && c < 9
      ensures CellSettled(ps, [], (r, c))
    {
      assert DigitCount(ps, (r, c)) == 9;
    }
    forall u: nat, d: nat | u < 9 && d < 9
      ensures RowSettled(ps, [], u, d) && ColSettled(ps, [], u, d) && BoxSettled(ps, [], u, d)
    {
      assert ps[d] == FULL;
    }
  }

  /** Every solved grid fits the fresh state. */
  lemma FitsFresh()
    ensures forall g :: IsSolvedGrid(g) ==> Fits(g, Fresh())
  {
    forall g, x: Cell | IsSolvedGrid(g) && InGrid(x)
      ensures 1 <= g[Idx(x)] <= 9 && At(Fresh()[g[Idx(x)] - 1], x)
    {
      assert 9 * x.0 + x.1 in Below(CELLS);
    }
  }

  /** Total number of (cell, digit) pairs still possible. */
  function Live(ps: seq<Pattern>): nat
  {
    if ps == [] then 0 else Live(ps[..|ps| - 1]) + |ps[|ps| - 1].bits|
  }

  /** Replacing one pattern changes `Live` by the change of its size. */
  lemma {:induction false} LiveUpdate(ps: seq<Pattern>, d: nat, q: Pattern)
    requires d < |ps|
    ensures Live(ps[d := q]) + |ps[d].bits| == Live(ps) + |q.bits|
  {
    var n := |ps| - 1;
    if d < n {
      assert ps[d := q][..n] == ps[..n][d := q];
      LiveUpdate(ps[..n], d, q);
    } else {
      assert ps[d := q][..n] == ps[..n];
    }
  }

  /** Removing a present digit lowers `Live` by one; removing an absent
      digit changes nothing. */
  lemma LiveRemoved(ps: seq<Pattern>, e: Elim)
    requires |ps| == 9 && InRange(e)
    ensures At(ps[e.digit], CellOf(e)) ==> Live(Removed(ps, e)) + 1 == Live(ps)
    ensures !At(ps[e.digit], CellOf(e)) ==> Removed(ps, e) == ps
  {
    var p := ps[e.digit];
    var q := Without(p, e.row, e.col);
    LiveUpdate(ps, e.digit, q);
    if At(p, CellOf(e)) {
      assert p.bits == q.bits + {9 * e.row + e.col};
    } else {
      assert ps[e.digit := q] == ps;
    }
  }

  // ---------------------------------------------------------------------------
  // Reading off the solution

  /** Every digit has exactly one catalog layout that fits its possible
      cells. */
  predicate Determined(catalog: seq<Pattern>, ps: seq<Pattern>)
    requires |ps| == 9
  {
    forall d :: 0 <= d < 9 ==> |Within(catalog, ps[d])| == 1
  }

  /** The solution made of each digit's one fitting layout. */
  function Choice(catalog: seq<Pattern>, ps: seq<Pattern>): (s: Solution)
    requires |ps| == 9 && Determined(catalog, ps)
    ensures IsCatalog(catalog) ==> WellFormed(s, catalog)
    ensures |s.templates| == 9
    ensures forall d :: 0 <= d < 9 ==>
      s.templates[d].index < |catalog| && IsSubset(catalog[s.templates[d].index], ps[d])
  {
    Solution(seq(9, d requires 0 <= d < 9 => Within(catalog, ps[d])[0]))
  }

  /** When every digit is determined, the choice is the only well-formed
      solution whose layouts fit the possible cells. */
  lemma ChoiceUnique(catalog: seq<Pattern>, ps: seq<Pattern>, s: Solution)
    requires |ps| == 9 && Determined(catalog, ps) && WellFormed(s, catalog)
    requires forall d :: 0 <= d < 9 ==> IsSubset(Layout(s, catalog, d), ps[d])
    ensures s == Choice(catalog, ps)
  {
    var c := Choice(catalog, ps);
    forall d | 0 <= d < 9
      ensures s.templates[d] == c.templates[d]
    {
      var ts := Within(catalog, ps[d]);
      assert s.templates[d] == Template(s.templates[d].index);
      assert s.templates[d] in ts;
    }
  }

  /** Catalog entry `i` is the one entry that fits inside `possible`. */
  ghost predicate OnlyFit(catalog: seq<Pattern>, possible: Pattern, i: nat)
  {
    i < |catalog| && IsSubset(catalog[i], possible) &&
    forall j :: 0 <= j < |catalog| && IsSubset(catalog[j], possible) ==> j == i
  }

  /** `within` yields a single template exactly when exactly one catalog
      entry fits inside `possible`. */
  lemma SingleFit(catalog: seq<Pattern>, possible: Pattern)
    ensures |Within(catalog, possible)| == 1 <==> exists i :: OnlyFit(catalog, possible, i)
  {
    var ts := Within(catalog, possible);
    if |ts| == 1 {
      var i := ts[0].index;
      forall j | 0 <= j < |catalog| && IsSubset(catalog[j], possible)
        ensures j == i
      {
        assert Template(j) in ts;
      }
      assert OnlyFit(catalog, possible, i);
    }
    if exists i :: OnlyFit(catalog, possible, i) {
      var i :| OnlyFit(catalog, possible, i);
      assert Template(i) in ts;
      AllSame(ts, i);
    }
  }

  /** Strictly increasing indices that all equal `i` leave room for one
      template at most. */
  lemma AllSame(ts: seq<Template>, i: nat)
    requires |ts| >= 1
    requires forall k :: 0 <= k < |ts| ==> ts[k].index == i
    requires forall k, l :: 0 <= k < l < |ts| ==> ts[k].index < ts[l].index
    ensures |ts| == 1
  {
    var last := |ts| - 1;
    assert ts[0].index == i == ts[last].index;
  }

  // ---------------------------------------------------------------------------
  // The machine

  /** Logic state: the cells still possible for each digit, the pending
      removals, and the four families of counts. */
  class Possibilities {
    /** Pattern of possible cells, one per digit. */
    const patterns: array<Pattern>
    /** Pending removals; the last one is taken first. */
    var queue: seq<Elim>
    /** `[row, col]`: digits possible in the cell. */
    const cellCounts: array2<nat>
    /** `[row, digit]`: places for the digit in the row. */
    const rowCounts: array2<nat>
    /** `[col, digit]`: places for the digit in the column. */
    const colCounts: array2<nat>
    /** `[box, digit]`: places for the digit in the box; boxes row-major. */
    const boxCounts: array2<nat>

    ghost predicate Shaped()
    {
      patterns.Length == 9 &&
      cellCounts.Length0 == 9 && cellCounts.Length1 == 9 &&
      rowCounts.Length0 == 9 && rowCounts.Length1 == 9 &&
      colCounts.Length0 == 9 && colCounts.Length1 == 9 &&
      boxCounts.Length0 == 9 && boxCounts.Length1 == 9 &&
      cellCounts != rowCounts && cellCounts != colCounts && cellCounts != boxCounts &&
      rowCounts != colCounts && rowCounts != boxCounts && colCounts != boxCounts
    }

    /** The digit patterns as a value. */
    ghost function Ps(): seq<Pattern>
      reads patterns
    {
      patterns[..]
    }

    /** Every cell count is the number of digits `ps` allows in the cell,
        and none is zero. */
    ghost predicate CellsMatch(ps: seq<Pattern>)
      requires Shaped() && |ps| == 9
      reads cellCounts
    {
      forall r: nat, c: nat :: r < 9 && c < 9 ==> 1 <= cellCounts[r, c] == DigitCount(ps, (r, c))
    }

    ghost predicate RowsMatch(ps: seq<Pattern>)
      requires Shaped() && |ps| == 9
      reads rowCounts
    {
      forall r: nat, d: nat :: r < 9 && d < 9 ==> 1 <= rowCounts[r, d] == RowCount(ps[d], r)
    }

    ghost predicate ColsMatch(ps: seq<Pattern>)
      requires Shaped() && |ps| == 9
      reads colCounts
    {
      forall c: nat, d: nat :: c < 9 && d < 9 ==> 1 <= colCounts[c, d] == ColCount(ps[d], c)
    }

    ghost predicate BoxesMatch(ps: seq<Pattern>)
      requires Shaped() && |ps| == 9
      reads boxCounts
    {
      forall b: nat, d: nat :: b < 9 && d < 9 ==> 1 <= boxCounts[b, d] == BoxCount(ps[d], b)
    }

    /** The invariant between operations: the counts agree with the
        patterns and no count is zero. */
    ghost predicate Valid()
      reads this, patterns, cellCounts, rowCounts, colCounts, boxCounts
    {
      Shaped() && (forall d :: 0 <= d < 9 ==> Bounded(patterns[d])) &&
      CellsMatch(Ps()) && RowsMatch(Ps()) && ColsMatch(Ps()) && BoxesMatch(Ps()) &&
      forall e :: e in queue ==> InRange(e)
    }

    /** Valid, nothing pending, and both rules hold: the state `set`
        leaves behind. */
    ghost predicate Ready()
      reads this, patterns, cellCounts, rowCounts, colCounts, boxCounts
    {
      Valid() && queue == [] && Closed(Ps(), [])
    }

    /** Every digit possible in every cell. */
    constructor ()
      ensures Ready()
      ensures Ps() == Fresh()
      ensures fresh(patterns) && fresh(cellCounts) && fresh(rowCounts) && fresh(colCounts) && fresh(boxCounts)
    {
      patterns := new Pattern[9](_ => FULL);
      queue := [];
      cellCounts := new nat[9, 9]((_, _) => 9);
      rowCounts := new nat[9, 9]((_, _) => 9);
      colCounts := new nat[9, 9]((_, _) => 9);
      boxCounts := new nat[9, 9]((_, _) => 9);
      new;
      assert Ps() == Fresh();
      FreshReady();
    }

    /** Arrays filled as `new` fills them make a ready machine. */
    lemma FreshReady()
      requires Shaped() && Ps() == Fresh() && queue == []
      requires forall i: nat, j: nat :: i < 9 && j < 9 ==>
        cellCounts[i, j] == 9 && rowCounts[i, j] == 9 && colCounts[i, j] == 9 && boxCounts[i, j] == 9
      ensures Ready()
    {
      FreshCounts();
      FreshClosed();
      FreshCells();
      FreshGroups();
      assert forall d :: 0 <= d < 9 ==> patterns[d] == FULL;
    }

    lemma FreshCells()
      requires Shaped() && Ps() == Fresh()
      requires forall i: nat, j: nat :: i < 9 && j < 9 ==> cellCounts[i, j] == 9
      ensures CellsMatch(Ps())
    {
      FreshCounts();
    }

    lemma FreshGroups()
      requires Shaped() && Ps() == Fresh()
      requires forall i: nat, j: nat :: i < 9 && j < 9 ==> rowCounts[i, j] == 9 && colCounts[i, j] == 9 && boxCounts[i, j] == 9
      ensures RowsMatch(Ps()) && ColsMatch(Ps()) && BoxesMatch(Ps())
    {
      FreshCounts();
      assert forall d :: 0 <= d < 9 ==> patterns[d] == FULL;
    }

    method Enqueue(x: Cell, digit: nat)
      modifies this
      ensures queue == old(queue) + [Elim(x.0, x.1, digit)]
    {
      queue := queue + [Elim(x.0, x.1, digit)];
    }

    /** Schedule the removal of every other digit from cell `x`. */
    method EnqueueOthers(x: Cell, digit: nat)
      modifies this
      ensures queue == old(queue) + Others(x, digit)
    {
      for d := 0 to 9
        invariant queue == old(queue) + OthersBelow(x, digit, d)
      {
        if d != digit {
          Enqueue(x, d);
        }
      }
    }

    /** Schedule the removal of `digit` from the rest of the row, column
        and box of `x`. */
    method EnqueueAdjacent(x: Cell, digit: nat)
      requires InGrid(x)
      modifies this
      ensures queue == old(queue) + Adjacent(x, digit)
    {
      for c := 0 to 9
        invariant queue == old(queue) + RowRest(x, digit, c)
      {
        if c != x.1 {
          Enqueue((x.0, c), digit);
        }
      }
      ghost var afterRow := queue;
      for r := 0 to 9
        invariant queue == afterRow + ColRest(x, digit, r)
      {
        if r != x.0 {
          Enqueue((r, x.1), digit);
        }
      }
      ghost var afterCol := queue;
      var cells := BoxCells(x.0, x.1);
      for k := 0 to 9
        invariant queue == afterCol + BoxRest(x, digit, k)
      {
        if cells[k] != x {
          Enqueue(cells[k], digit);
        }
      }
      assert old(queue) + (RowRest(x, digit, 9) + ColRest(x, digit, 9) + BoxRest(x, digit, 9))
        == old(queue) + RowRest(x, digit, 9) + ColRest(x, digit, 9) + BoxRest(x, digit, 9);
    }

    /** The first digit the cell still allows; there must be one. */
    method FindInCell(row: nat, col: nat) returns (d: nat)
      requires Shaped() && row < 9 && col < 9 && DigitCount(Ps(), (row, col)) >= 1
      ensures d == FirstDigit(Ps(), (row, col))
    {
      d := 0;
      while !Has(patterns[d], row, col)
        invariant d <= FirstDigit(Ps(), (row, col))
        decreases 9 - d
      {
        d := d + 1;
      }
    }

    /** The first column of the row that still allows `digit`. */
    method FindInRow(row: nat, digit: nat) returns (col: nat)
      requires Shaped() && row < 9 && digit < 9 && RowCount(patterns[digit], row) >= 1
      ensures col == FirstIn(patterns[digit], RowCells(row))
    {
      col := 0;
      while !Has(patterns[digit], row, col)
        invariant col <= FirstIn(patterns[digit], RowCells(row))
        decreases 9 - col
      {
        col := col + 1;
      }
    }

    /** The first row of the column that still allows `digit`. */
    method FindInCol(col: nat, digit: nat) returns (row: nat)
      requires Shaped() && col < 9 && digit < 9 && ColCount(patterns[digit], col) >= 1
      ensures row == FirstIn(patterns[digit], ColCells(col))
    {
      row := 0;
      while !Has(patterns[digit], row, col)
        invariant row <= FirstIn(patterns[digit], ColCells(col))
        decreases 9 - row
      {
        row := row + 1;
      }
    }

    /** The first cell, in the listing of the box of `(row, col)`, that
        still allows `digit`. */
    method FindInBox(row: nat, col: nat, digit: nat) returns (x: Cell)
      requires Shaped() && row < 9 && col < 9 && digit < 9
      requires BoxCount(patterns[digit], BoxOf((row, col))) >= 1
      ensures x == BoxPlace(patterns[digit], (row, col))
    {
      BoxCellsNumbered(row, col);
      var cells := BoxCells(row, col);
      var k := 0;
      while !At(patterns[digit], cells[k])
        invariant k <= FirstIn(patterns[digit], cells)
        decreases 9 - k
      {
        k := k + 1;
      }
      x := cells[k];
    }

    /** Remove `digit` from the cell, update the four counts it belongs
        to, and schedule what a count of one implies.  Fails when a count
        reaches zero; the state is then left half updated. */
    method Eliminate(row: nat, col: nat, digit: nat) returns (r: Outcome)
      requires Valid() && row < 9 && col < 9 && digit < 9
      modifies this, patterns, cellCounts, rowCounts, colCounts, boxCounts
      ensures Ps() == Removed(old(Ps()), Elim(row, col, digit))
      ensures r == ImpossiblePuzzle <==> Wipes(old(Ps()), Elim(row, col, digit))
      ensures r == Ok ==> Valid() && queue == old(queue) + Cascade(old(Ps()), Elim(row, col, digit))
    {
      ghost var e := Elim(row, col, digit);
      ghost var ps := Ps();
      ghost var ps' := Removed(ps, e);
      var was, q := Remove(patterns[digit], row, col);
      patterns[digit] := q;
      assert Ps() == ps';
      if !was {
        return Ok;
      }
      BoxCellsNumbered(row, col);
      ghost var q0 := queue;
      r := LowerCounts(ps, row, col, digit);
      if r == Ok {
        CascadeInRange(ps, e);
        Regroup(q0, CellPart(ps', (row, col)), RowPart(ps'[digit], row, digit),
          ColPart(ps'[digit], col, digit), BoxPart(ps'[digit], (row, col), digit));
      }
    }

    /** The four counter updates of `eliminate`, in order, stopping at the
        first count that reaches zero. */
    method LowerCounts(ghost ps: seq<Pattern>, row: nat, col: nat, digit: nat) returns (r: Outcome)
      requires Shaped() && |ps| == 9 && row < 9 && col < 9 && digit < 9
      requires At(ps[digit], (row, col)) && Ps() == Removed(ps, Elim(row, col, digit))
      requires CellsMatch(ps) && RowsMatch(ps) && ColsMatch(ps) && BoxesMatch(ps)
      modifies this, cellCounts, rowCounts, colCounts, boxCounts
      ensures r == ImpossiblePuzzle <==>
        DigitCount(Ps(), (row, col)) == 0 || RowCount(Ps()[digit], row) == 0 ||
        ColCount(Ps()[digit], col) == 0 || BoxCount(Ps()[digit], BoxOf((row, col))) == 0
      ensures r == Ok ==>
        CellsMatch(Ps()) && RowsMatch(Ps()) && ColsMatch(Ps()) && BoxesMatch(Ps()) &&
        queue == old(queue) + CellPart(Ps(), (row, col)) + RowPart(Ps()[digit], row, digit) +
          ColPart(Ps()[digit], col, digit) + BoxPart(Ps()[digit], (row, col), digit)
    {
      r := LowerCellCount(ps, row, col, digit);
      if r == ImpossiblePuzzle {
        return;
      }
      r := LowerRowCount(ps, row, col, digit);
      if r == ImpossiblePuzzle {
        return;
      }
      r := LowerColCount(ps, row, col, digit);
      if r == ImpossiblePuzzle {
        return;
      }
      r := LowerBoxCount(ps, row, col, digit);
    }

    /** Count the digit's removal from its cell; a cell left with one digit
        schedules that digit's removal from the cell's peers. */
    method LowerCellCount(ghost ps: seq<Pattern>, row: nat, col: nat, digit: nat) returns (r: Outcome)
      requires Shaped() && |ps| == 9 && row < 9 && col < 9 && digit < 9
      requires At(ps[digit], (row, col)) && Ps() == Removed(ps, Elim(row, col, digit))
      requires CellsMatch(ps)
      modifies this, cellCounts
      ensures r == ImpossiblePuzzle <==> DigitCount(Ps(), (row, col)) == 0
      ensures r == Ok ==> CellsMatch(Ps()) && queue == old(queue) + CellPart(Ps(), (row, col))
    {
      ghost var ps' := Ps();
      RemovedCellCounts(ps, Elim(row, col, digit));
      cellCounts[row, col] := cellCounts[row, col] - 1;
      if cellCounts[row, col] == 0 {
        return ImpossiblePuzzle;
      }
      if cellCounts[row, col] == 1 {
        var d := FindInCell(row, col);
        EnqueueAdjacent((row, col), d);
      }
      forall r: nat, c: nat | r < 9 && c < 9
        ensures 1 <= cellCounts[r, c] == DigitCount(ps', (r, c))
      {
        if (r, c) != (row, col) {
          assert cellCounts[r, c] == old(cellCounts[r, c]);
        }
      }
      return Ok;
    }

    /** Count the removal in the cell's row; a row left with one place for
        the digit schedules the removal of the other digits there. */
    method LowerRowCount(ghost ps: seq<Pattern>, row: nat, col: nat, digit: nat) returns (r: Outcome)
      requires Shaped() && |ps| == 9 && row < 9 && col < 9 && digit < 9
      requires At(ps[digit], (row, col)) && Ps() == Removed(ps, Elim(row, col, digit))
      requires RowsMatch(ps)
      modifies this, rowCounts
      ensures r == ImpossiblePuzzle <==> RowCount(Ps()[digit], row) == 0
      ensures r == Ok ==> RowsMatch(Ps()) && queue == old(queue) + RowPart(Ps()[digit], row, digit)
    {
      ghost var ps' := Ps();
      ghost var e := Elim(row, col, digit);
      UnitMembership((row, col));
      RemovedGroupCount(ps, e, digit, RowCells(row));
      rowCounts[row, digit] := rowCounts[row, digit] - 1;
      if rowCounts[row, digit] == 0 {
        return ImpossiblePuzzle;
      }
      if rowCounts[row, digit] == 1 {
        var c := FindInRow(row, digit);
        EnqueueOthers((row, c), digit);
      }
      forall r: nat, d: nat | r < 9 && d < 9
        ensures 1 <= rowCounts[r, d] == RowCount(ps'[d], r)
      {
        if (r, d) != (row, digit) {
          assert rowCounts[r, d] == old(rowCounts[r, d]);
          RemovedGroupCount(ps, e, d, RowCells(r));
        }
      }
      return Ok;
    }

    /** Count the removal in the cell's column. */
    method LowerColCount(ghost ps: seq<Pattern>, row: nat, col: nat, digit: nat) returns (r: Outcome)
      requires Shaped() && |ps| == 9 && row < 9 && col < 9 && digit < 9
      requires At(ps[digit], (row, col)) && Ps() == Removed(ps, Elim(row, col, digit))
      requires ColsMatch(ps)
      modifies this, colCounts
      ensures r == ImpossiblePuzzle <==> ColCount(Ps()[digit], col) == 0
      ensures r == Ok ==> ColsMatch(Ps()) && queue == old(queue) + ColPart(Ps()[digit], col, digit)
    {
      ghost var ps' := Ps();
      ghost var e := Elim(row, col, digit);
      UnitMembership((row, col));
      RemovedGroupCount(ps, e, digit, ColCells(col));
      colCounts[col, digit] := colCounts[col, digit] - 1;
      if colCounts[col, digit] == 0 {
        return ImpossiblePuzzle;
      }
      if colCounts[col, digit] == 1 {
        var r' := FindInCol(col, digit);
        EnqueueOthers((r', col), digit);
      }
      forall c: nat, d: nat | c < 9 && d < 9
        ensures 1 <= colCounts[c, d] == ColCount(ps'[d], c)
      {
        if (c, d) != (col, digit) {
          assert colCounts[c, d] == old(colCounts[c, d]);
          RemovedGroupCount(ps, e, d, ColCells(c));
        }
      }
      return Ok;
    }

    /** Count the removal in the cell's box, numbered row-major. */
    method LowerBoxCount(ghost ps: seq<Pattern>, row: nat, col: nat, digit: nat) returns (r: Outcome)
      requires Shaped() && |ps| == 9 && row < 9 && col < 9 && digit < 9
      requires At(ps[digit], (row, col)) && Ps() == Removed(ps, Elim(row, col, digit))
      requires BoxesMatch(ps)
      modifies this, boxCounts
      ensures r == ImpossiblePuzzle <==> BoxCount(Ps()[digit], BoxOf((row, col))) == 0
      ensures r == Ok ==> BoxesMatch(Ps()) && queue == old(queue) + BoxPart(Ps()[digit], (row, col), digit)
    {
      ghost var ps' := Ps();
      ghost var e := Elim(row, col, digit);
      var b := row / 3 * 3 + col / 3;
      assert b == BoxOf((row, col)) && b < 9;
      UnitMembership((row, col));
      RemovedGroupCount(ps, e, digit, BoxCellsOf(b));
      boxCounts[b, digit] := boxCounts[b, digit] - 1;
      if boxCounts[b, digit] == 0 {
        return ImpossiblePuzzle;
      }
      if boxCounts[b, digit] == 1 {
        var y := FindInBox(row, col, digit);
        EnqueueOthers(y, digit);
      }
      forall b': nat, d: nat | b' < 9 && d < 9
        ensures 1 <= boxCounts[b', d] == BoxCount(ps'[d], b')
      {
        if (b', d) != (b, digit) {
          assert boxCounts[b', d] == old(boxCounts[b', d]);
          RemovedGroupCount(ps, e, d, BoxCellsOf(b'));
        }
      }
      return Ok;
    }

    /** Take the newest pending removal off the queue. */
    method Pop() returns (e: Elim)
      requires Valid() && queue != []
      modifies this
      ensures Valid() && InRange(e) && Ps() == old(Ps())
      ensures old(queue) == queue + [e]
    {
      e := queue[|queue| - 1];
      queue := queue[..|queue| - 1];
    }

    /** One turn of `work`: take the newest pending removal off the queue
        and carry it out.  `ps0` and `q0` are the patterns and queue `work`
        started from. */
    method Step(ghost ps0: seq<Pattern>, ghost q0: seq<Elim>) returns (r: Outcome)
      requires Valid() && queue != [] && |ps0| == 9 && Working(ps0, q0, Ps(), queue)
      requires KeepsAll(ps0, q0, Ps(), queue)
      modifies this, patterns, cellCounts, rowCounts, colCounts, boxCounts
      ensures Shrinks(ps0, Ps())
      ensures r == Ok ==> Valid() && Working(ps0, q0, Ps(), queue) && KeepsAll(ps0, q0, Ps(), queue)
      ensures r == Ok ==>
        Live(Ps()) < old(Live(Ps())) || (Ps() == old(Ps()) && |queue| < old(|queue|))
      ensures Done(ps0, q0) ==> r == Ok
      ensures r == ImpossiblePuzzle ==> forall g :: !Allowed(g, ps0, q0)
    {
      ghost var ps := Ps();
      WorkStep(ps0, q0, ps, queue);
      SoundStep(ps0, q0, ps, queue);
      var e := Pop();
      r := Eliminate(e.row, e.col, e.digit);
    }

    /** Carry out pending removals, newest first, until none is left or
        one fails. */
    method Work() returns (r: Outcome)
      requires Valid()
      modifies this, patterns, cellCounts, rowCounts, colCounts, boxCounts
      ensures Shrinks(old(Ps()), Ps())
      ensures r == Ok ==> Valid() && queue == [] && Done(Ps(), old(queue))
      ensures r == Ok && Closed(old(Ps()), old(queue)) ==> Closed(Ps(), [])
      ensures Done(old(Ps()), old(queue)) ==> r == Ok && Ps() == old(Ps())
      ensures r == ImpossiblePuzzle ==> forall g :: !Allowed(g, old(Ps()), old(queue))
      ensures r == Ok ==> forall g :: Allowed(g, old(Ps()), old(queue)) <==> IsSolvedGrid(g) && Fits(g, Ps())
    {
      r := Ok;
      while queue != []
        invariant r == Ok && Valid() && Working(old(Ps()), old(queue), Ps(), queue)
        invariant KeepsAll(old(Ps()), old(queue), Ps(), queue)
        decreases Live(Ps()), |queue|
      {
        r := Step(old(Ps()), old(queue));
        if r == ImpossiblePuzzle {
          return;
        }
      }
      forall g | IsSolvedGrid(g) && Fits(g, Ps())
        ensures Allowed(g, old(Ps()), old(queue))
      {
        DoneAllowed(old(Ps()), old(queue), Ps(), g);
      }
    }

    /** Give the cell the digit `digit` (1-based) by removing every other
        digit from it, then propagate. */
    method Set(row: nat, col: nat, digit: nat) returns (r: Outcome)
      requires Ready() && row < 9 && col < 9 && 1 <= digit
      modifies this, patterns, cellCounts, rowCounts, colCounts, boxCounts
      ensures Shrinks(old(Ps()), Ps())
      ensures r == Ok ==> Ready() && Only(Ps(), (row, col), digit - 1)
      ensures Only(old(Ps()), (row, col), digit - 1) ==> r == Ok && Ps() == old(Ps())
      ensures r == ImpossiblePuzzle ==> Excludes(old(Ps()), (row, col), digit)
      ensures r == Ok ==> Narrowed(old(Ps()), Ps(), (row, col), digit)
    {
      ghost var ps := Ps();
      EnqueueOthers((row, col), digit - 1);
      ghost var pending := Others((row, col), digit - 1);
      assert queue == pending;
      OthersMembers((row, col), digit - 1);
      ClosedExtend(ps, [], pending);
      assert [] + pending == pending;
      if Only(ps, (row, col), digit - 1) {
        assert Done(ps, pending);
      }
      r := Work();
      AllowedClue(ps, (row, col), digit);
      if r == Ok {
        var d := DigitCountPositive(Ps(), (row, col));
        assert Elim(row, col, d) !in pending;
        forall d' | 0 <= d' < 9 && d' != digit - 1
          ensures !At(Ps()[d'], (row, col))
        {
          assert Elim(row, col, d') in pending;
        }
      }
    }

    /** The solution, if every digit has exactly one layout that fits its
        possible cells and those layouts do not overlap. */
    method Unique(catalog: seq<Pattern>) returns (sol: Option<Solution>)
      requires Shaped() && IsCatalog(catalog)
      ensures sol.Some? <==>
        Determined(catalog, Ps()) && PairwiseDisjoint(Choice(catalog, Ps()), catalog)
      ensures sol.Some? ==> sol.value == Choice(catalog, Ps())
    {
      var templates: seq<Template> := [];
      for digit := 0 to 9
        invariant |templates| == digit
        invariant forall d :: 0 <= d < digit ==>
          |Within(catalog, Ps()[d])| == 1 && templates[d] == Within(catalog, Ps()[d])[0]
      {
        var ts := Within(catalog, patterns[digit]);
        if |ts| == 0 {
          return None;
        }
        templates := templates + [ts[0]];
        if |ts| > 1 {
          return None;
        }
      }
      var s := Solution(templates);
      assert s == Choice(catalog, Ps());
      var ok := IsValid(s, catalog);
      if ok {
        sol := Some(s);
      } else {
        sol := None;
      }
    }
  }
}
