/** The counter kept in the set of completed class specialisations: a prefix tree over the value so far. */
module Incrementer {
  import opened Arith
  import opened GrayCode

  type Cell = (nat, nat)

  /** After k increments, cell (r, x) stands for the x-bit step from r, a multiple of Pow2(x + 1), to r + Pow2(x). */
  ghost predicate Present(c: Cell, k: nat) {
    Aligned(c.0, c.1 + 1) && c.0 + Pow2(c.1) <= k
  }

  /** The cell that advance defines when the new value is index. */
  function CellOf(index: nat): Cell
    requires index > 0
  {
    (Xor(index, Pow2(CountrZero(index))), CountrZero(index))
  }

  lemma {:induction false} CellOfMeaning(index: nat)
    requires index > 0
    ensures Aligned(CellOf(index).0, CellOf(index).1 + 1) && CellOf(index).0 + Pow2(CellOf(index).1) == index
  {
    var x := CountrZero(index);
    var r := index - Pow2(x);
    LastBit(index);
    XorSibling(r, x);
  }

  lemma {:induction false} LastBit(index: nat)
    requires index > 0
    ensures Pow2(CountrZero(index)) <= index && Aligned(index - Pow2(CountrZero(index)), CountrZero(index) + 1)
  {
    if index % 2 == 0 {
      LastBit(index / 2);
      AlignedHalf(index - Pow2(CountrZero(index)), CountrZero(index) + 1);
    } else {
      AlignedHalf(index - 1, 1);
    }
  }

  /** Only one cell ends at a given value. */
  lemma {:induction false} CellIsUnique(c: Cell, index: nat)
    requires index > 0 && Aligned(c.0, c.1 + 1) && c.0 + Pow2(c.1) == index
    ensures c == CellOf(index)
    decreases index
  {
    CellOfMeaning(index);
    AlignedHalf(c.0, c.1 + 1);
    if index % 2 == 0 {
      var half := (c.0 / 2, c.1 - 1);
      CellIsUnique(half, index / 2);
      CellOfMeaning(index / 2);
    }
  }

  /** One increment adds one cell, which was not there before. */
  lemma {:induction false} AdvanceAddsCell(c: Cell, k: nat)
    ensures Present(c, k + 1) <==> Present(c, k) || c == CellOf(k + 1)
    ensures !Present(CellOf(k + 1), k)
  {
    CellOfMeaning(k + 1);
    if Present(c, k + 1) && !Present(c, k) {
      CellIsUnique(c, k + 1);
    }
  }

  class Counter {
    /** The specialisations that are complete. */
    var cells: set<Cell>
    ghost var count: nat

    ghost predicate Valid()
      reads this
    {
      forall c: Cell :: c in cells <==> Present(c, count)
    }

    constructor ()
      ensures Valid() && count == 0
    {
      cells := {};
      count := 0;
    }

    method FindFirstUnset() returns (res: nat)
      requires Valid()
      ensures res == count
    {
      var exp: int := 0;
      while (0, exp) in cells
        invariant 0 <= exp <= count
        invariant exp > 0 ==> Pow2(exp - 1) <= count
        decreases count - exp
      {
        AboveExponent(exp);
        assert Present((0, exp), count);
        exp := exp + 1;
      }
      assert !Present((0, exp), count) && Aligned(0, exp + 1);
      res := 0;
      while exp != -1
        invariant -1 <= exp
        invariant Aligned(res, exp + 1) && res <= count < res + Pow2(exp + 1)
        decreases exp
      {
        AlignedCoarser(res, exp);
        assert (res, exp) in cells <==> res + Pow2(exp) <= count;
        if (res, exp) in cells {
          res := res + Pow2(exp);
        }
        exp := exp - 1;
      }
    }

    method Get() returns (value: nat)
      requires Valid()
      ensures value == count
    {
      value := FindFirstUnset();
    }

    /** A class may be completed only once, so the new cell must be absent. */
    method Advance()
      requires Valid()
      modifies this
      ensures Valid() && count == old(count) + 1
      ensures CellOf(count) !in old(cells) && cells == old(cells) + {CellOf(count)}
    {
      var index := FindFirstUnset();
      index := index + 1;
      var exp := CountrZero(index);
      var prev := Xor(index, Pow2(exp));
      AdvanceAddsCell((prev, exp), count);
      assert (prev, exp) !in cells;
      cells := cells + {(prev, exp)};
      forall c: Cell ensures c in cells <==> Present(c, count + 1) {
        AdvanceAddsCell(c, count);
      }
      count := count + 1;
    }
  }

  lemma {:induction false} AboveExponent(x: nat)
    ensures x < Pow2(x)
  {
    if x > 0 {
      AboveExponent(x - 1);
    }
  }
}
