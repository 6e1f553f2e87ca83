/** Bit field of the 81 Sudoku cells, row-major.  The source stores it in
    three 32-bit words; this model keeps the set of bit positions that are
    on.  Positions 0..80 are the cells (`9 * row + col`); positions 81..95
    are the unused high bits of the third word. */
module Patterns {

  /** Addressable bit positions: three 32-bit words. */
  const BITS: nat := 96
  /** Grid cells. */
  const CELLS: nat := 81

  datatype Pattern = Pattern(bits: set<nat>)

  /** The positions below `n`. */
  function Below(n: nat): (s: set<nat>)
    ensures forall i: int :: i in s <==> 0 <= i < n
  {
    if n == 0 then {} else Below(n - 1) + {n - 1}
  }

  /** The positions 0..80, i.e. every grid cell. */
  function CellRange(): set<nat>
  {
    Below(CELLS)
  }

  const EMPTY: Pattern := Pattern({})
  /** Words `[0xFFFFFFFF, 0xFFFFFFFF, 0x1FFFF]`: every cell, no high bit. */
  const FULL: Pattern := Pattern(CellRange())

  /** The invariant every pattern reachable from EMPTY and FULL keeps:
      no bit beyond cell 80 is set. */
  predicate Bounded(p: Pattern)
  {
    forall i :: i in p.bits ==> i < CELLS
  }

  /** Does the pattern contain the cell? */
  predicate Has(p: Pattern, row: nat, col: nat)
    requires 9 * row + col < BITS
  {
    9 * row + col in p.bits
  }

  /** The pattern without the given cell. */
  function Without(p: Pattern, row: nat, col: nat): (q: Pattern)
    requires 9 * row + col < BITS
    ensures !Has(q, row, col)
    ensures forall i :: i != 9 * row + col ==> (i in q.bits <==> i in p.bits)
    ensures q.bits <= p.bits
    ensures Bounded(p) ==> Bounded(q)
    ensures !Has(p, row, col) ==> q == p
  {
    Pattern(p.bits - {9 * row + col})
  }

  /** Remove the cell, reporting whether it was in the pattern beforehand
      (the source updates the pattern in place through `&mut self`). */
  method Remove(p: Pattern, row: nat, col: nat) returns (was: bool, q: Pattern)
    requires 9 * row + col < BITS
    ensures was == Has(p, row, col)
    ensures q == Without(p, row, col)
  {
    was := Has(p, row, col);
    q := Pattern(p.bits - {9 * row + col});
  }

  /** The pattern that also contains the given cell. */
  function With(p: Pattern, row: nat, col: nat): (q: Pattern)
    requires 9 * row + col < BITS
    ensures Has(q, row, col)
    ensures forall i :: i != 9 * row + col ==> (i in q.bits <==> i in p.bits)
    ensures Bounded(p) && row < 9 && col < 9 ==> Bounded(q)
  {
    Pattern(p.bits + {9 * row + col})
  }

  /** Cellwise intersection (word-by-word `&`). */
  function And(a: Pattern, b: Pattern): (r: Pattern)
    ensures forall i :: i in r.bits <==> i in a.bits && i in b.bits
    ensures Bounded(a) || Bounded(b) ==> Bounded(r)
  {
    Pattern(a.bits * b.bits)
  }

  /** Cellwise union (word-by-word `|`). */
  function Or(a: Pattern, b: Pattern): (r: Pattern)
    ensures forall i :: i in r.bits <==> i in a.bits || i in b.bits
    ensures Bounded(a) && Bounded(b) ==> Bounded(r)
  {
    Pattern(a.bits + b.bits)
  }

  /** Complement: the first two words are inverted and the third is XORed
      with `0x1FFFF`, so exactly the cell positions flip and every position
      beyond cell 80 keeps its value. */
  function Not(a: Pattern): (r: Pattern)
    ensures forall i :: 0 <= i < CELLS ==> (i in r.bits <==> i !in a.bits)
    ensures forall i :: i >= CELLS ==> (i in r.bits <==> i in a.bits)
    ensures Bounded(r) <==> Bounded(a)
  {
    Pattern((CellRange() - a.bits) + (a.bits - CellRange()))
  }

  /** Is every cell of `a` also in `b`?  (`a & b == a`) */
  predicate IsSubset(a: Pattern, b: Pattern)
  {
    And(a, b) == a
  }

  /** Do `a` and `b` share a cell?  (`a & b != EMPTY`) */
  predicate Intersects(a: Pattern, b: Pattern)
  {
    And(a, b) != EMPTY
  }

  // ---------------------------------------------------------------------------
  // Set algebra of the operations

  lemma SubsetMeaning(a: Pattern, b: Pattern)
    ensures IsSubset(a, b) <==> a.bits <= b.bits
  {
    if a.bits <= b.bits {
      assert a.bits * b.bits == a.bits;
    }
  }

  lemma IntersectsMeaning(a: Pattern, b: Pattern)
    ensures Intersects(a, b) <==> exists i :: i in a.bits && i in b.bits
  {
    if exists i :: i in a.bits && i in b.bits {
      var i :| i in a.bits && i in b.bits;
      assert i in And(a, b).bits;
    }
  }

  lemma IntersectsSymmetric(a: Pattern, b: Pattern)
    ensures Intersects(a, b) <==> Intersects(b, a)
  {
    assert And(a, b).bits == And(b, a).bits;
  }

  /** Meeting a union is meeting one of its parts. */
  lemma IntersectsOr(a: Pattern, b: Pattern, c: Pattern)
    ensures Intersects(a, Or(b, c)) <==> Intersects(a, b) || Intersects(a, c)
  {
    IntersectsMeaning(a, Or(b, c));
    IntersectsMeaning(a, b);
    IntersectsMeaning(a, c);
  }

  /** Complement undoes itself. */
  lemma NotInvolution(a: Pattern)
    ensures Not(Not(a)) == a
  {
    assert Not(Not(a)).bits == a.bits;
  }

  /** For a bounded pattern the complement is the set difference from FULL. */
  lemma NotIsDifference(a: Pattern)
    requires Bounded(a)
    ensures Not(a) == Pattern(FULL.bits - a.bits)
  {
    assert Not(a).bits == FULL.bits - a.bits;
  }
}
