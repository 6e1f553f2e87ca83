/** Layouts: the placements of one digit that put exactly one cell in every
    row, column and box.  The catalog lists them all; a template is an index
    into it, and a solution is one template per digit. */
module Templates {
  import opened Patterns
  import opened Units

  /** Index into the catalog of layouts. */
  datatype Template = Template(index: nat)

  /** One template per digit: entry `d` places digit `d + 1`. */
  datatype Solution = Solution(templates: seq<Template>)

  /** A legal layout of one digit. */
  ghost predicate IsLayout(p: Pattern)
  {
    Bounded(p) &&
    (forall r :: 0 <= r < 9 ==> RowCount(p, r) == 1) &&
    (forall c :: 0 <= c < 9 ==> ColCount(p, c) == 1) &&
    (forall b :: 0 <= b < 9 ==> BoxCount(p, b) == 1)
  }

  /** The column a layout occupies in a row. */
  function ColumnOf(p: Pattern, row: nat): (c: nat)
    requires row < 9 && IsLayout(p)
    ensures c < 9 && Has(p, row, c)
  {
    assert RowCount(p, row) == 1;
    FirstIn(p, RowCells(row))
  }

  lemma ColumnIs(p: Pattern, row: nat, col: nat)
    requires row < 9 && col < 9 && IsLayout(p) && Has(p, row, col)
    ensures ColumnOf(p, row) == col
  {
    assert RowCount(p, row) == 1;
    CountOne(p, RowCells(row), ColumnOf(p, row), col);
  }

  /** Two layouts are ordered by the columns they choose, row by row. */
  ghost predicate Precedes(a: Pattern, b: Pattern)
    requires IsLayout(a) && IsLayout(b)
  {
    exists r :: 0 <= r < 9 && ColumnOf(a, r) < ColumnOf(b, r) &&
      forall r' :: 0 <= r' < r ==> ColumnOf(a, r') == ColumnOf(b, r')
  }

  /** Layouts in strictly increasing order. */
  ghost predicate Ordered(s: seq<Pattern>)
  {
    (forall i :: 0 <= i < |s| ==> IsLayout(s[i])) &&
    forall i, j :: 0 <= i < j < |s| ==> Precedes(s[i], s[j])
  }

  // ---------------------------------------------------------------------------
  // The catalog, as `fill` builds it

  /** The layouts `fill` appends, in order, when called on a partial layout
      `build` covering rows `0..row` whose used columns and boxes are
      `cols` and `boxes`. */
  function Layouts(build: Pattern, cols: set<nat>, boxes: set<nat>, row: nat): seq<Pattern>
    requires row <= 9
    decreases Below(9) - cols, 10
  {
    if row == 9 then [build] else Branches(build, cols, boxes, row, 9)
  }

  /** The layouts appended by the iterations `col = 0 .. n - 1` of
      `fill`'s loop over the columns of `row`. */
  function Branches(build: Pattern, cols: set<nat>, boxes: set<nat>, row: nat, n: nat): seq<Pattern>
    requires row < 9 && n <= 9
    decreases Below(9) - cols, n
  {
    if n == 0 then []
    else
      var col := n - 1;
      var b := BoxOf((row, col));
      Branches(build, cols, boxes, row, n - 1)
      + (if col !in cols && b !in boxes then Layouts(With(build, row, col), cols + {col}, boxes + {b}, row + 1) else [])
  }

  /** Go row by row, choosing a free column in a free box, and append each
      finished layout to `into`. */
  method Fill(build: Pattern, cols: set<nat>, boxes: set<nat>, row: nat, into: seq<Pattern>)
    returns (out: seq<Pattern>)
    requires row <= 9
    ensures out == into + Layouts(build, cols, boxes, row)
    decreases 9 - row
  {
    if row == 9 {
      return into + [build];
    }
    out := into;
    for col := 0 to 9
      invariant out == into + Branches(build, cols, boxes, row, col)
    {
      var boxIdx := row / 3 * 3 + col / 3;
      BranchesStep(build, cols, boxes, row, col, into, out);
      if col !in cols && boxIdx !in boxes {
        out := Fill(With(build, row, col), cols + {col}, boxes + {boxIdx}, row + 1, out);
      }
    }
  }

  /** One iteration of `fill`'s column loop appends the layouts of that
      column's branch. */
  lemma BranchesStep(build: Pattern, cols: set<nat>, boxes: set<nat>, row: nat, col: nat,
                     into: seq<Pattern>, out: seq<Pattern>)
    requires row < 9 && col < 9 && out == into + Branches(build, cols, boxes, row, col)
    ensures col !in cols && BoxOf((row, col)) !in boxes ==>
      out + Layouts(With(build, row, col), cols + {col}, boxes + {BoxOf((row, col))}, row + 1)
      == into + Branches(build, cols, boxes, row, col + 1)
    ensures !(col !in cols && BoxOf((row, col)) !in boxes) ==>
      out == into + Branches(build, cols, boxes, row, col + 1)
  {
    var b := BoxOf((row, col));
    if col !in cols && b !in boxes {
      var branch := Layouts(With(build, row, col), cols + {col}, boxes + {b}, row + 1);
      assert Branches(build, cols, boxes, row, col + 1) == Branches(build, cols, boxes, row, col) + branch;
      assert into + Branches(build, cols, boxes, row, col) + branch == into + (Branches(build, cols, boxes, row, col) + branch);
    } else {
      assert Branches(build, cols, boxes, row, col + 1) == Branches(build, cols, boxes, row, col) + [];
    }
  }

  /** Every legal layout, in the order `fill` produces them. */
  function All(): seq<Pattern>
  {
    Layouts(EMPTY, {}, {}, 0)
  }

  /** Building the cached catalog. */
  method BuildAll() returns (all: seq<Pattern>)
    ensures all == All()
  {
    all := Fill(EMPTY, {}, {}, 0, []);
  }

  // ---------------------------------------------------------------------------
  // What the catalog contains

  /** The rows above `row` hold one cell each and the rows from `row` on
      are empty. */
  ghost predicate RowsFilled(build: Pattern, row: nat)
  {
    row <= 9 &&
    (forall r: nat, c: nat :: r < 9 && c < 9 && Has(build, r, c) ==> r < row) &&
    (forall r :: 0 <= r < row ==> RowCount(build, r) == 1)
  }

  /** `cols` is exactly the set of columns `build` uses, once each. */
  ghost predicate ColsUsed(build: Pattern, cols: set<nat>)
  {
    (forall c :: c in cols ==> c < 9) &&
    (forall c :: 0 <= c < 9 ==> ColCount(build, c) == if c in cols then 1 else 0)
  }

  /** `boxes` is exactly the set of boxes `build` uses, once each. */
  ghost predicate BoxesUsed(build: Pattern, boxes: set<nat>)
  {
    (forall b :: b in boxes ==> b < 9) &&
    (forall b :: 0 <= b < 9 ==> BoxCount(build, b) == if b in boxes then 1 else 0)
  }

  /** State of `fill` at `row`: the rows above hold one cell each, the rows
      from `row` on are empty, and `cols` and `boxes` are exactly the used
      columns and boxes. */
  ghost predicate Partial(build: Pattern, cols: set<nat>, boxes: set<nat>, row: nat)
  {
    row <= 9 && Bounded(build) && RowsFilled(build, row) &&
    ColsUsed(build, cols) && BoxesUsed(build, boxes) &&
    |cols| == row && |boxes| == row
  }

  /** Do `p` and `q` agree on the rows above `row`? */
  ghost predicate AgreeAbove(p: Pattern, q: Pattern, row: nat)
  {
    forall r: nat, c: nat :: r < row && r < 9 && c < 9 ==> (Has(p, r, c) <==> Has(q, r, c))
  }

  lemma PartialStart()
    ensures Partial(EMPTY, {}, {}, 0)
  {
    forall u | 0 <= u < 9
      ensures ColCount(EMPTY, u) == 0 && BoxCount(EMPTY, u) == 0
    {
      CountZero(EMPTY, ColCells(u));
      CountZero(EMPTY, BoxCellsOf(u));
    }
  }

  /** Adding cell `x` to a pattern that lacks it raises the count of each
      duplicate-free group holding `x` by one and leaves the others alone. */
  lemma AddCount(p: Pattern, x: Cell, cells: seq<Cell>)
    requires InGrid(x) && AllInGrid(cells) && Distinct(cells) && !At(p, x)
    ensures CountIn(With(p, x.0, x.1), cells) == CountIn(p, cells) + if x in cells then 1 else 0
  {
    AgreeExceptBits(p, With(p, x.0, x.1), x);
    CountChange(p, With(p, x.0, x.1), x, cells);
  }

  /** Placing the digit in the empty row `row` fills that row too. */
  lemma RowsStep(build: Pattern, row: nat, col: nat)
    requires row < 9 && col < 9 && Bounded(build) && RowsFilled(build, row)
    ensures RowsFilled(With(build, row, col), row + 1)
    ensures AgreeAbove(With(build, row, col), build, row)
  {
    var q := With(build, row, col);
    var x := (row, col);
    UnitMembership(x);
    AgreeExceptBits(build, q, x);
    forall r: nat, c: nat | r < 9 && c < 9 && Has(q, r, c)
      ensures r < row + 1
    {
      if (r, c) != x {
        assert At(build, (r, c));
      }
    }
    assert !At(build, x);
    assert RowCount(build, row) == 0 by {
      CountZero(build, RowCells(row));
    }
    forall r | 0 <= r < row + 1
      ensures RowCount(q, r) == 1
    {
      AddCount(build, x, RowCells(r));
      if r < row {
        assert x !in RowCells(r);
        assert RowCount(build, r) == 1;
      }
    }
  }

  /** Placing the digit in a free column marks that column used. */
  lemma ColsStep(build: Pattern, cols: set<nat>, row: nat, col: nat)
    requires row < 9 && col < 9 && col !in cols && ColsUsed(build, cols)
    ensures ColsUsed(With(build, row, col), cols + {col})
  {
    var x := (row, col);
    UnitMembership(x);
    assert !At(build, x) by {
      assert ColCount(build, col) == 0;
      CountZero(build, ColCells(col));
    }
    forall c | 0 <= c < 9
      ensures ColCount(With(build, row, col), c) == if c in cols + {col} then 1 else 0
    {
      AddCount(build, x, ColCells(c));
    }
  }

  /** Placing the digit in a free box marks that box used. */
  lemma BoxesStep(build: Pattern, boxes: set<nat>, row: nat, col: nat)
    requires row < 9 && col < 9 && BoxOf((row, col)) !in boxes && BoxesUsed(build, boxes)
    ensures BoxesUsed(With(build, row, col), boxes + {BoxOf((row, col))})
  {
    var x := (row, col);
    var b := BoxOf(x);
    UnitMembership(x);
    assert !At(build, x) by {
      assert BoxCount(build, b) == 0;
      CountZero(build, BoxCellsOf(b));
    }
    forall bb | 0 <= bb < 9
      ensures BoxCount(With(build, row, col), bb) == if bb in boxes + {b} then 1 else 0
    {
      AddCount(build, x, BoxCellsOf(bb));
    }
  }

  /** One step of `fill`: placing the digit in a free column of a free box
      keeps the state consistent. */
  lemma PartialStep(build: Pattern, cols: set<nat>, boxes: set<nat>, row: nat, col: nat)
    requires Partial(build, cols, boxes, row) && row < 9 && col < 9
    requires col !in cols && BoxOf((row, col)) !in boxes
    ensures Partial(With(build, row, col), cols + {col}, boxes + {BoxOf((row, col))}, row + 1)
    ensures AgreeAbove(With(build, row, col), build, row)
  {
    RowsStep(build, row, col);
    ColsStep(build, cols, row, col);
    BoxesStep(build, boxes, row, col);
  }

  /** After the last row the partial layout is a legal layout: nine used
      columns and nine used boxes are all of them. */
  lemma PartialDone(build: Pattern, cols: set<nat>, boxes: set<nat>)
    requires Partial(build, cols, boxes, 9)
    ensures IsLayout(build)
  {
    NineOfNine(cols);
    NineOfNine(boxes);
  }

  /** Everything `fill` appends is a legal layout extending `build`. */
  lemma {:induction false} LayoutsShape(build: Pattern, cols: set<nat>, boxes: set<nat>, row: nat)
    requires Partial(build, cols, boxes, row)
    ensures forall e :: e in Layouts(build, cols, boxes, row) ==> IsLayout(e) && AgreeAbove(e, build, row)
    decreases 9 - row, 10
  {
    if row == 9 {
      PartialDone(build, cols, boxes);
    } else {
      BranchesShape(build, cols, boxes, row, 9);
    }
  }

  lemma {:induction false} BranchesShape(build: Pattern, cols: set<nat>, boxes: set<nat>, row: nat, n: nat)
    requires Partial(build, cols, boxes, row) && row < 9 && n <= 9
    ensures forall e :: e in Branches(build, cols, boxes, row, n) ==>
      IsLayout(e) && AgreeAbove(e, build, row) && ColumnOf(e, row) < n
    decreases 9 - row, n
  {
    if n > 0 {
      BranchesShape(build, cols, boxes, row, n - 1);
      var col := n - 1;
      var b := BoxOf((row, col));
      var front := Branches(build, cols, boxes, row, n - 1);
      if col !in cols && b !in boxes {
        BranchShape(build, cols, boxes, row, col);
        assert Branches(build, cols, boxes, row, n) ==
          front + Layouts(With(build, row, col), cols + {col}, boxes + {b}, row + 1);
      } else {
        assert Branches(build, cols, boxes, row, n) == front + [];
      }
    }
  }

  /** The layouts through a free column `col` of `row` are legal, extend
      `build`, and occupy `col` in that row. */
  lemma BranchShape(build: Pattern, cols: set<nat>, boxes: set<nat>, row: nat, col: nat)
    requires Partial(build, cols, boxes, row) && row < 9 && col < 9
    requires col !in cols && BoxOf((row, col)) !in boxes
    ensures forall e :: e in Layouts(With(build, row, col), cols + {col}, boxes + {BoxOf((row, col))}, row + 1) ==>
      IsLayout(e) && AgreeAbove(e, build, row) && ColumnOf(e, row) == col
    decreases 9 - row, 0
  {
    var q := With(build, row, col);
    var b := BoxOf((row, col));
    PartialStep(build, cols, boxes, row, col);
    LayoutsShape(q, cols + {col}, boxes + {b}, row + 1);
    forall e | e in Layouts(q, cols + {col}, boxes + {b}, row + 1)
      ensures AgreeAbove(e, build, row) && ColumnOf(e, row) == col
    {
      assert Has(e, row, col);
      ColumnIs(e, row, col);
    }
  }

  lemma OrderedConcat(s: seq<Pattern>, t: seq<Pattern>)
    requires Ordered(s) && Ordered(t)
    requires forall x, y :: x in s && y in t ==> Precedes(x, y)
    ensures Ordered(s + t)
  {
    var st := s + t;
    forall i, j | 0 <= i < j < |st|
      ensures Precedes(st[i], st[j])
    {
      if j < |s| {
        assert st[i] == s[i] && st[j] == s[j];
      } else if i >= |s| {
        assert st[i] == t[i - |s|] && st[j] == t[j - |s|];
      } else {
        assert st[i] in s && st[j] in t;
      }
    }
  }

  /** A layout extending `build` that chooses a smaller column in `row`
      precedes one that extends `build` with the cell `(row, col)`. */
  lemma Across(x: Pattern, y: Pattern, build: Pattern, row: nat, col: nat)
    requires row < 9 && col < 9 && IsLayout(x) && IsLayout(y)
    requires AgreeAbove(x, build, row) && ColumnOf(x, row) < col
    requires AgreeAbove(y, With(build, row, col), row + 1)
    ensures Precedes(x, y)
  {
    assert Has(y, row, col);
    ColumnIs(y, row, col);
    forall r' | 0 <= r' < row
      ensures ColumnOf(x, r') == ColumnOf(y, r')
    {
      ColumnIs(y, r', ColumnOf(x, r'));
    }
  }

  /** `fill` appends layouts in increasing order. */
  lemma {:induction false} LayoutsOrdered(build: Pattern, cols: set<nat>, boxes: set<nat>, row: nat)
    requires Partial(build, cols, boxes, row)
    ensures Ordered(Layouts(build, cols, boxes, row))
    decreases 9 - row, 10
  {
    if row == 9 {
      PartialDone(build, cols, boxes);
    } else {
      BranchesOrdered(build, cols, boxes, row, 9);
    }
  }

  lemma {:induction false} BranchesOrdered(build: Pattern, cols: set<nat>, boxes: set<nat>, row: nat, n: nat)
    requires Partial(build, cols, boxes, row) && row < 9 && n <= 9
    ensures Ordered(Branches(build, cols, boxes, row, n))
    decreases 9 - row, n
  {
    if n > 0 {
      var col := n - 1;
      var b := BoxOf((row, col));
      var front := Branches(build, cols, boxes, row, n - 1);
      BranchesOrdered(build, cols, boxes, row, n - 1);
      if col !in cols && b !in boxes {
        var q := With(build, row, col);
        var back := Layouts(q, cols + {col}, boxes + {b}, row + 1);
        assert Ordered(front + back) by {
          PartialStep(build, cols, boxes, row, col);
          LayoutsOrdered(q, cols + {col}, boxes + {b}, row + 1);
          FrontPrecedesBack(build, cols, boxes, row, col);
          OrderedConcat(front, back);
        }
        assert Branches(build, cols, boxes, row, n) == front + back;
      } else {
        assert Branches(build, cols, boxes, row, n) == front + [];
      }
    }
  }

  /** The layouts of the columns before `col` precede those through `col`. */
  lemma FrontPrecedesBack(build: Pattern, cols: set<nat>, boxes: set<nat>, row: nat, col: nat)
    requires Partial(build, cols, boxes, row) && row < 9 && col < 9
    requires col !in cols && BoxOf((row, col)) !in boxes
    ensures forall x, y ::
      x in Branches(build, cols, boxes, row, col) &&
      y in Layouts(With(build, row, col), cols + {col}, boxes + {BoxOf((row, col))}, row + 1)
      ==> IsLayout(x) && IsLayout(y) && Precedes(x, y)
  {
    var q := With(build, row, col);
    var b := BoxOf((row, col));
    PartialStep(build, cols, boxes, row, col);
    BranchesShape(build, cols, boxes, row, col);
    LayoutsShape(q, cols + {col}, boxes + {b}, row + 1);
    forall x, y | x in Branches(build, cols, boxes, row, col) && y in Layouts(q, cols + {col}, boxes + {b}, row + 1)
      ensures IsLayout(x) && IsLayout(y) && Precedes(x, y)
    {
      Across(x, y, build, row, col);
    }
  }

  lemma {:induction false} BranchesContain(build: Pattern, cols: set<nat>, boxes: set<nat>, row: nat, n: nat, col: nat)
    requires row < 9 && col < n <= 9 && col !in cols && BoxOf((row, col)) !in boxes
    ensures forall e :: e in Layouts(With(build, row, col), cols + {col}, boxes + {BoxOf((row, col))}, row + 1) ==>
      e in Branches(build, cols, boxes, row, n)
    decreases n
  {
    if col < n - 1 {
      BranchesContain(build, cols, boxes, row, n - 1, col);
    }
  }

  /** Bounded patterns with the same cells are equal. */
  lemma SameCells(p: Pattern, q: Pattern)
    requires Bounded(p) && Bounded(q)
    requires forall r: nat, c: nat :: r < 9 && c < 9 ==> (Has(p, r, c) <==> Has(q, r, c))
    ensures p == q
  {
    forall i | i in p.bits
      ensures i in q.bits
    {
      assert Has(p, i / 9, i % 9);
    }
    forall i | i in q.bits
      ensures i in p.bits
    {
      assert Has(q, i / 9, i % 9);
    }
  }

  /** A legal layout extending the partial layout `build` takes, in `row`,
      a column and a box that `build` has not used yet. */
  lemma FreeChoice(build: Pattern, cols: set<nat>, boxes: set<nat>, row: nat, p: Pattern)
    requires Partial(build, cols, boxes, row) && row < 9 && IsLayout(p) && AgreeAbove(p, build, row)
    ensures ColumnOf(p, row) !in cols && BoxOf((row, ColumnOf(p, row))) !in boxes
  {
    var c := ColumnOf(p, row);
    var x := (row, c);
    var b := BoxOf(x);
    UnitMembership(x);
    if c in cols {
      assert ColCount(build, c) == 1 && ColCount(p, c) == 1;
      var r' := CountPositive(build, ColCells(c));
      CountOne(p, ColCells(c), r', row);
      assert false;
    }
    if b in boxes {
      assert BoxCount(build, b) == 1 && BoxCount(p, b) == 1;
      var k := CountPositive(build, BoxCellsOf(b));
      assert BoxCellsOf(b)[BoxPos(x)] == x;
      CountOne(p, BoxCellsOf(b), k, BoxPos(x));
      assert false;
    }
  }

  /** Such a layout also extends `build` with its own cell in `row`. */
  lemma ExtendsStep(build: Pattern, row: nat, p: Pattern)
    requires row < 9 && RowsFilled(build, row) && IsLayout(p) && AgreeAbove(p, build, row)
    ensures AgreeAbove(p, With(build, row, ColumnOf(p, row)), row + 1)
  {
    var c := ColumnOf(p, row);
    var q := With(build, row, c);
    forall r: nat, c': nat | r < row + 1 && r < 9 && c' < 9
      ensures Has(p, r, c') <==> Has(q, r, c')
    {
      if r < row {
        assert 9 * r + c' != 9 * row + c;
      } else if c' != c {
        assert RowCount(p, row) == 1;
        if Has(p, row, c') {
          CountOne(p, RowCells(row), c', c);
        }
        assert !Has(build, row, c');
      }
    }
  }

  /** Every legal layout extending `build` is appended by `fill`. */
  lemma {:induction false} LayoutsComplete(build: Pattern, cols: set<nat>, boxes: set<nat>, row: nat, p: Pattern)
    requires Partial(build, cols, boxes, row) && IsLayout(p) && AgreeAbove(p, build, row)
    ensures p in Layouts(build, cols, boxes, row)
    decreases 9 - row
  {
    if row == 9 {
      SameCells(p, build);
    } else {
      var c := ColumnOf(p, row);
      var b := BoxOf((row, c));
      FreeChoice(build, cols, boxes, row, p);
      PartialStep(build, cols, boxes, row, c);
      ExtendsStep(build, row, p);
      LayoutsComplete(With(build, row, c), cols + {c}, boxes + {b}, row + 1, p);
      BranchesContain(build, cols, boxes, row, 9, c);
    }
  }

  /** Every catalog entry is a legal layout. */
  lemma CatalogLayouts()
    ensures IsCatalog(All())
  {
    PartialStart();
    LayoutsShape(EMPTY, {}, {}, 0);
  }

  /** The catalog is in increasing order; in particular it has no duplicates. */
  lemma CatalogOrdered()
    ensures Ordered(All())
    ensures Distinct(All())
  {
    PartialStart();
    LayoutsOrdered(EMPTY, {}, {}, 0);
    var all := All();
    forall i, j | 0 <= i < j < |all|
      ensures all[i] != all[j]
    {
      PrecedesDiffers(all[i], all[j]);
    }
  }

  /** A layout differs from every layout it precedes. */
  lemma PrecedesDiffers(a: Pattern, b: Pattern)
    requires IsLayout(a) && IsLayout(b) && Precedes(a, b)
    ensures a != b
  {
    var r :| 0 <= r < 9 && ColumnOf(a, r) < ColumnOf(b, r);
  }

  /** Every legal layout is in the catalog. */
  lemma CatalogComplete(p: Pattern)
    requires IsLayout(p)
    ensures p in All()
  {
    PartialStart();
    LayoutsComplete(EMPTY, {}, {}, 0, p);
  }

  // ---------------------------------------------------------------------------
  // Templates
  //
  // The source reads the layouts from one global list; here that list is the
  // parameter `catalog`, and `IsCatalog` is what the operations need of it.
  // `CatalogLayouts` shows that `All()`, the list `fill` builds, qualifies.

  /** Every entry of the catalog is a legal layout. */
  ghost predicate IsCatalog(catalog: seq<Pattern>)
  {
    forall i :: 0 <= i < |catalog| ==> IsLayout(catalog[i])
  }

  /** The layout a template names. */
  function AsPattern(catalog: seq<Pattern>, t: Template): (p: Pattern)
    requires IsCatalog(catalog) && t.index < |catalog|
    ensures IsLayout(p) && p in catalog
  {
    catalog[t.index]
  }

  /** Templates, from catalog position `i` on, whose layout fits inside
      `possible`. */
  function WithinFrom(catalog: seq<Pattern>, possible: Pattern, i: nat): (ts: seq<Template>)
    requires i <= |catalog|
    ensures forall k :: 0 <= k < |ts| ==> i <= ts[k].index < |catalog| && IsSubset(catalog[ts[k].index], possible)
    ensures forall j :: i <= j < |catalog| && IsSubset(catalog[j], possible) ==> Template(j) in ts
    ensures forall k, l :: 0 <= k < l < |ts| ==> ts[k].index < ts[l].index
    decreases |catalog| - i
  {
    if i == |catalog| then []
    else (if IsSubset(catalog[i], possible) then [Template(i)] else []) + WithinFrom(catalog, possible, i + 1)
  }

  /** The templates whose layout fits inside `possible`, in catalog order. */
  function Within(catalog: seq<Pattern>, possible: Pattern): (ts: seq<Template>)
    ensures forall k :: 0 <= k < |ts| ==> ts[k].index < |catalog| && IsSubset(catalog[ts[k].index], possible)
    ensures forall j :: 0 <= j < |catalog| && IsSubset(catalog[j], possible) ==> Template(j) in ts
    ensures forall k, l :: 0 <= k < l < |ts| ==> ts[k].index < ts[l].index
  {
    WithinFrom(catalog, possible, 0)
  }

  // ---------------------------------------------------------------------------
  // Solutions

  /** Nine templates, each naming a catalog entry. */
  ghost predicate WellFormed(s: Solution, catalog: seq<Pattern>)
  {
    IsCatalog(catalog) && |s.templates| == 9 &&
    forall d :: 0 <= d < 9 ==> s.templates[d].index < |catalog|
  }

  /** Layout of digit `d + 1`. */
  function Layout(s: Solution, catalog: seq<Pattern>, d: nat): (p: Pattern)
    requires WellFormed(s, catalog) && d < 9
    ensures IsLayout(p)
  {
    AsPattern(catalog, s.templates[d])
  }

  /** No two digits share a cell. */
  ghost predicate PairwiseDisjoint(s: Solution, catalog: seq<Pattern>)
    requires WellFormed(s, catalog)
  {
    forall i, j :: 0 <= i < j < 9 ==> !Intersects(Layout(s, catalog, i), Layout(s, catalog, j))
  }

  /** Union of the layouts of digits `0 .. i - 1`. */
  function Union(s: Solution, catalog: seq<Pattern>, i: nat): (u: Pattern)
    requires WellFormed(s, catalog) && i <= 9
  {
    if i == 0 then EMPTY else Or(Union(s, catalog, i - 1), Layout(s, catalog, i - 1))
  }

  /** A layout meets the union of the layouts of digits `0 .. n - 1`
      exactly when it meets one of them. */
  lemma {:induction false} IntersectsUnion(s: Solution, catalog: seq<Pattern>, i: nat, n: nat)
    requires WellFormed(s, catalog) && i < 9 && n <= 9
    ensures Intersects(Layout(s, catalog, i), Union(s, catalog, n)) <==>
      exists j :: 0 <= j < n && Intersects(Layout(s, catalog, j), Layout(s, catalog, i))
  {
    if n == 0 {
      IntersectsMeaning(Layout(s, catalog, i), EMPTY);
    } else {
      var a, last := Layout(s, catalog, i), Layout(s, catalog, n - 1);
      IntersectsUnion(s, catalog, i, n - 1);
      IntersectsOr(a, Union(s, catalog, n - 1), last);
      IntersectsSymmetric(a, last);
      if Intersects(a, Union(s, catalog, n)) {
        if !Intersects(a, Union(s, catalog, n - 1)) {
          assert Intersects(Layout(s, catalog, n - 1), a);
        }
      }
      if exists j :: 0 <= j < n && Intersects(Layout(s, catalog, j), a) {
        var j :| 0 <= j < n && Intersects(Layout(s, catalog, j), a);
        if j < n - 1 {
          assert Intersects(a, Union(s, catalog, n - 1));
        }
      }
    }
  }

  /** Are the digit layouts nonoverlapping? */
  method IsValid(s: Solution, catalog: seq<Pattern>) returns (ok: bool)
    requires WellFormed(s, catalog)
    ensures ok <==> PairwiseDisjoint(s, catalog)
  {
    var filled := EMPTY;
    for i := 0 to 9
      invariant filled == Union(s, catalog, i)
      invariant forall j, l :: 0 <= j < l < i ==> !Intersects(Layout(s, catalog, j), Layout(s, catalog, l))
    {
      var p := AsPattern(catalog, s.templates[i]);
      IntersectsUnion(s, catalog, i, i);
      if Intersects(p, filled) {
        return false;
      }
      filled := Or(filled, p);
    }
    return true;
  }

  /** Does some digit's layout contain the cell? */
  ghost predicate Covered(s: Solution, catalog: seq<Pattern>, row: nat, col: nat)
    requires WellFormed(s, catalog) && row < 9 && col < 9
  {
    exists d :: 0 <= d < 9 && Has(Layout(s, catalog, d), row, col)
  }

  /** First digit, from `d` on, whose layout contains the cell; 9 when
      there is none. */
  function LayoutScan(s: Solution, catalog: seq<Pattern>, row: nat, col: nat, d: nat): (k: nat)
    requires WellFormed(s, catalog) && row < 9 && col < 9 && d <= 9
    ensures d <= k <= 9
    ensures k < 9 ==> Has(Layout(s, catalog, k), row, col)
    ensures forall j :: d <= j < k ==> !Has(Layout(s, catalog, j), row, col)
    decreases 9 - d
  {
    if d == 9 then 9
    else if Has(Layout(s, catalog, d), row, col) then d
    else LayoutScan(s, catalog, row, col, d + 1)
  }

  /** Digit (1..9) written in the cell: the first whose layout contains
      it.  The source panics when none does. */
  function CellDigit(s: Solution, catalog: seq<Pattern>, row: nat, col: nat): (v: nat)
    requires WellFormed(s, catalog) && row < 9 && col < 9 && Covered(s, catalog, row, col)
    ensures 1 <= v <= 9 && Has(Layout(s, catalog, v - 1), row, col)
    ensures forall d :: 0 <= d < v - 1 ==> !Has(Layout(s, catalog, d), row, col)
  {
    LayoutScan(s, catalog, row, col, 0) + 1
  }

  /** Every cell is covered by some digit. */
  ghost predicate Complete(s: Solution, catalog: seq<Pattern>)
    requires WellFormed(s, catalog)
  {
    forall row, col :: 0 <= row < 9 && 0 <= col < 9 ==> Covered(s, catalog, row, col)
  }

  /** The 81 digits of the grid, row-major. */
  function ToGrid(s: Solution, catalog: seq<Pattern>): (g: seq<nat>)
    requires WellFormed(s, catalog) && Complete(s, catalog)
    ensures |g| == 81
    ensures forall x: Cell :: InGrid(x) ==> 1 <= g[Idx(x)] <= 9 && At(Layout(s, catalog, g[Idx(x)] - 1), x)
  {
    IdxFacts();
    seq(81, i requires 0 <= i < 81 => CellDigit(s, catalog, i / 9, i % 9))
  }

  /** A filled Sudoku grid: 81 digits 1..9, peers always different. */
  ghost predicate IsSolvedGrid(g: seq<nat>)
  {
    |g| == 81 && (forall i :: 0 <= i < 81 ==> 1 <= g[i] <= 9) &&
    forall x: Cell, y: Cell :: InGrid(x) && InGrid(y) && Peer(x, y) ==> g[Idx(x)] != g[Idx(y)]
  }

  /** A legal layout never holds two peers. */
  lemma LayoutNoPeers(p: Pattern, x: Cell, y: Cell)
    requires IsLayout(p) && InGrid(x) && InGrid(y) && At(p, x) && At(p, y)
    ensures !Peer(x, y)
  {
    if x.0 == y.0 {
      assert RowCount(p, x.0) == 1;
      assert RowCells(x.0)[x.1] == x && RowCells(x.0)[y.1] == y;
      CountOne(p, RowCells(x.0), x.1, y.1);
    } else if x.1 == y.1 {
      assert ColCount(p, x.1) == 1;
      assert ColCells(x.1)[x.0] == x && ColCells(x.1)[y.0] == y;
      CountOne(p, ColCells(x.1), x.0, y.0);
    } else if BoxOf(x) == BoxOf(y) {
      var b := BoxOf(x);
      assert BoxCount(p, b) == 1;
      assert BoxCellsOf(b)[BoxPos(x)] == x && BoxCellsOf(b)[BoxPos(y)] == y;
      CountOne(p, BoxCellsOf(b), BoxPos(x), BoxPos(y));
    }
  }

  /** The columns that the layouts of digits `0 .. n - 1` take in `row`. */
  function Columns(s: Solution, catalog: seq<Pattern>, row: nat, n: nat): (cs: seq<nat>)
    requires WellFormed(s, catalog) && row < 9 && n <= 9
    ensures |cs| == n
    ensures forall d :: 0 <= d < n ==> cs[d] == ColumnOf(Layout(s, catalog, d), row)
  {
    if n == 0 then [] else Columns(s, catalog, row, n - 1) + [ColumnOf(Layout(s, catalog, n - 1), row)]
  }

  /** Disjoint layouts take different columns in every row. */
  lemma ColumnsDistinct(s: Solution, catalog: seq<Pattern>, row: nat)
    requires WellFormed(s, catalog) && PairwiseDisjoint(s, catalog) && row < 9
    ensures Distinct(Columns(s, catalog, row, 9))
  {
    var cs := Columns(s, catalog, row, 9);
    forall i, j | 0 <= i < j < 9
      ensures cs[i] != cs[j]
    {
      IntersectsMeaning(Layout(s, catalog, i), Layout(s, catalog, j));
    }
  }

  /** Nine disjoint layouts fill every cell of a row. */
  lemma RowCovered(s: Solution, catalog: seq<Pattern>, row: nat, col: nat)
    requires WellFormed(s, catalog) && PairwiseDisjoint(s, catalog) && row < 9 && col < 9
    ensures Covered(s, catalog, row, col)
  {
    var cs := Columns(s, catalog, row, 9);
    ColumnsDistinct(s, catalog, row);
    DistinctCard(cs);
    NineOfNine(Values(cs));
    assert col in Values(cs);
    var d :| 0 <= d < 9 && cs[d] == col;
    assert Has(Layout(s, catalog, d), row, col);
  }

  /** Nine pairwise disjoint layouts cover the grid. */
  lemma DisjointCovers(s: Solution, catalog: seq<Pattern>)
    requires WellFormed(s, catalog) && PairwiseDisjoint(s, catalog)
    ensures Complete(s, catalog)
  {
    forall row, col | 0 <= row < 9 && 0 <= col < 9
      ensures Covered(s, catalog, row, col)
    {
      RowCovered(s, catalog, row, col);
    }
  }

  /** The grid of a valid solution is a solved Sudoku. */
  lemma ValidSolutionSolved(s: Solution, catalog: seq<Pattern>)
    requires WellFormed(s, catalog) && PairwiseDisjoint(s, catalog)
    ensures Complete(s, catalog) && IsSolvedGrid(ToGrid(s, catalog))
  {
    DisjointCovers(s, catalog);
    var g := ToGrid(s, catalog);
    IdxFacts();
    forall x: Cell, y: Cell | InGrid(x) && InGrid(y) && Peer(x, y)
      ensures g[Idx(x)] != g[Idx(y)]
    {
      var v := g[Idx(x)];
      if v == g[Idx(y)] {
        LayoutNoPeers(Layout(s, catalog, v - 1), x, y);
      }
    }
    forall i | 0 <= i < 81
      ensures 1 <= g[i] <= 9
    {
      assert g[Idx((i / 9, i % 9))] == g[i];
    }
  }

  // ---------------------------------------------------------------------------
  // From grids back to solutions

  /** A solved grid shows every digit somewhere in every row, column and
      box. */
  lemma GroupShows(g: seq<nat>, cells: seq<Cell>, v: nat) returns (k: nat)
    requires IsSolvedGrid(g) && Group(cells) && 1 <= v <= 9
    ensures k < 9 && g[Idx(cells[k])] == v
  {
    IdxFacts();
    var s: seq<nat> := seq(9, i requires 0 <= i < 9 => g[Idx(cells[i])] - 1);
    forall i, j | 0 <= i < j < 9
      ensures s[i] != s[j]
    {
      assert Peer(cells[i], cells[j]);
    }
    DistinctCard(s);
    NineOfNine(Values(s));
    assert v - 1 in Values(s);
    k :| 0 <= k < 9 && s[k] == v - 1;
  }

  /** The cells where grid `g` shows `v`. */
  function Shows(g: seq<nat>, v: nat): (p: Pattern)
    requires |g| == 81
    ensures Bounded(p)
    ensures forall x: Cell :: InGrid(x) ==> (At(p, x) <==> g[Idx(x)] == v)
  {
    IdxFacts();
    Pattern(set i: nat | i < 81 && g[i] == v)
  }

  /** A group of a solved grid shows each digit exactly once. */
  lemma ShowsOnce(g: seq<nat>, v: nat, cells: seq<Cell>)
    requires IsSolvedGrid(g) && 1 <= v <= 9 && Group(cells)
    ensures AllInGrid(cells) && CountIn(Shows(g, v), cells) == 1
  {
    var k := GroupShows(g, cells, v);
    forall j | 0 <= j < 9 && j != k
      ensures !At(Shows(g, v), cells[j])
    {
      if j < k {
        assert Peer(cells[j], cells[k]);
      } else {
        assert Peer(cells[k], cells[j]);
      }
    }
    CountSingle(Shows(g, v), cells, k);
  }

  /** In a solved grid the cells showing one digit form a legal layout. */
  lemma ShowsLayout(g: seq<nat>, v: nat)
    requires IsSolvedGrid(g) && 1 <= v <= 9
    ensures IsLayout(Shows(g, v))
  {
    var p := Shows(g, v);
    forall u | 0 <= u < 9
      ensures RowCount(p, u) == 1 && ColCount(p, u) == 1 && BoxCount(p, u) == 1
    {
      RowGroup(u);
      ColGroup(u);
      BoxGroup(u);
      ShowsOnce(g, v, RowCells(u));
      ShowsOnce(g, v, ColCells(u));
      ShowsOnce(g, v, BoxCellsOf(u));
    }
  }

  /** Different digits are shown in different cells. */
  lemma ShowsApart(g: seq<nat>, v: nat, w: nat)
    requires |g| == 81 && v != w
    ensures !Intersects(Shows(g, v), Shows(g, w))
  {
    IntersectsMeaning(Shows(g, v), Shows(g, w));
  }

  /** The catalog holds every legal layout, as the list `fill` builds does. */
  ghost predicate FullCatalog(catalog: seq<Pattern>)
  {
    IsCatalog(catalog) && forall p :: IsLayout(p) ==> p in catalog
  }

  lemma AllFull()
    ensures FullCatalog(All())
  {
    CatalogLayouts();
    forall p | IsLayout(p)
      ensures p in All()
    {
      CatalogComplete(p);
    }
  }

  /** A position of `p` in the catalog. */
  ghost function IndexOf(catalog: seq<Pattern>, p: Pattern): (i: nat)
    requires p in catalog
    ensures i < |catalog| && catalog[i] == p
  {
    var i :| 0 <= i < |catalog| && catalog[i] == p;
    i
  }

  /** The solution whose template for digit `d` names the cells where
      `g` shows `d + 1`. */
  ghost function FromGrid(g: seq<nat>, catalog: seq<Pattern>): (s: Solution)
    requires IsSolvedGrid(g) && FullCatalog(catalog)
    ensures WellFormed(s, catalog)
    ensures forall d :: 0 <= d < 9 ==> Layout(s, catalog, d) == Shows(g, d + 1)
  {
    ShowsInCatalog(g, catalog);
    Solution(seq(9, d requires 0 <= d < 9 => Template(IndexOf(catalog, Shows(g, d + 1)))))
  }

  lemma ShowsInCatalog(g: seq<nat>, catalog: seq<Pattern>)
    requires IsSolvedGrid(g) && FullCatalog(catalog)
    ensures forall v :: 1 <= v <= 9 ==> Shows(g, v) in catalog
  {
    forall v | 1 <= v <= 9
      ensures Shows(g, v) in catalog
    {
      ShowsLayout(g, v);
    }
  }

  /** Every solved grid is the grid of a valid solution, the one whose
      template for digit `d` names the cells showing `d + 1`. */
  lemma GridSolution(g: seq<nat>, catalog: seq<Pattern>)
    requires IsSolvedGrid(g) && FullCatalog(catalog)
    ensures PairwiseDisjoint(FromGrid(g, catalog), catalog)
    ensures Complete(FromGrid(g, catalog), catalog) && ToGrid(FromGrid(g, catalog), catalog) == g
  {
    var s := FromGrid(g, catalog);
    forall i, j | 0 <= i < j < 9
      ensures !Intersects(Layout(s, catalog, i), Layout(s, catalog, j))
    {
      ShowsApart(g, i + 1, j + 1);
    }
    ValidSolutionSolved(s, catalog);
    GridBack(g, s, catalog);
  }

  /** A complete solution whose layouts are the cells of `g` showing each
      digit has `g` as its grid. */
  lemma GridBack(g: seq<nat>, s: Solution, catalog: seq<Pattern>)
    requires IsSolvedGrid(g) && WellFormed(s, catalog) && Complete(s, catalog)
    requires forall d :: 0 <= d < 9 ==> Layout(s, catalog, d) == Shows(g, d + 1)
    ensures ToGrid(s, catalog) == g
  {
    var h := ToGrid(s, catalog);
    IdxFacts();
    forall n | 0 <= n < 81
      ensures h[n] == g[n]
    {
      var x := (n / 9, n % 9);
      assert At(Layout(s, catalog, h[Idx(x)] - 1), x);
    }
  }

  /** In a valid solution, digit `d + 1`'s layout is exactly the set of
      cells where the solution's grid shows `d + 1`. */
  lemma LayoutShows(s: Solution, catalog: seq<Pattern>, d: nat)
    requires WellFormed(s, catalog) && PairwiseDisjoint(s, catalog) && d < 9
    ensures Complete(s, catalog) && Layout(s, catalog, d) == Shows(ToGrid(s, catalog), d + 1)
  {
    DisjointCovers(s, catalog);
    var g := ToGrid(s, catalog);
    var p := Layout(s, catalog, d);
    forall r: nat, c: nat | r < 9 && c < 9
      ensures Has(p, r, c) <==> Has(Shows(g, d + 1), r, c)
    {
      var x: Cell := (r, c);
      var e := g[Idx(x)] - 1;
      assert At(Layout(s, catalog, e), x);
      if e != d {
        var lo, hi := if d < e then d else e, if d < e then e else d;
        IntersectsMeaning(Layout(s, catalog, lo), Layout(s, catalog, hi));
        assert !At(p, x);
      }
    }
    SameCells(p, Shows(g, d + 1));
  }

  /** Over a catalog without repetitions, two valid solutions have the
      same grid exactly when they are the same solution: `to_grid` loses
      nothing. */
  lemma GridInjective(s: Solution, t: Solution, catalog: seq<Pattern>)
    requires Distinct(catalog)
    requires WellFormed(s, catalog) && PairwiseDisjoint(s, catalog) && Complete(s, catalog)
    requires WellFormed(t, catalog) && PairwiseDisjoint(t, catalog) && Complete(t, catalog)
    ensures ToGrid(s, catalog) == ToGrid(t, catalog) <==> s == t
  {
    if ToGrid(s, catalog) == ToGrid(t, catalog) {
      forall d | 0 <= d < 9
        ensures s.templates[d] == t.templates[d]
      {
        LayoutShows(s, catalog, d);
        LayoutShows(t, catalog, d);
        assert catalog[s.templates[d].index] == catalog[t.templates[d].index];
      }
      assert s.templates == t.templates;
    }
  }
}
