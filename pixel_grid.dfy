/** Row-major flattening of a `size` x `size` grid onto the pixel array of a
    texture: cell (x, z) goes to slot `x * size + z`, and the 32-bit `int`
    arithmetic in which the lengths and slots are computed. */
module PixelGrid {

  /** The value a C# `int` expression with exact value `n` takes under unchecked
      32-bit two's-complement arithmetic. */
  function WrapInt(n: int): (w: int)
    ensures -0x8000_0000 <= w < 0x8000_0000
    ensures (n - w) % 0x1_0000_0000 == 0
    ensures -0x8000_0000 <= n < 0x8000_0000 ==> w == n
  {
    var m := n % 0x1_0000_0000;
    if m < 0x8000_0000 then m else m - 0x1_0000_0000
  }

  /** The widest square whose cell count `size * size` fits in an `int`. */
  const MaxSide: nat := 46340

  /** `size * size` fits in an `int` exactly when `size` is at most MaxSide. */
  lemma SquareFitsInt(size: nat)
    ensures size <= MaxSide <==> size * size < 0x8000_0000
  {
    if size <= MaxSide {
      MulMonotone(size, MaxSide, size);
      MulMonotone(size, MaxSide, MaxSide);
    } else {
      MulMonotone(MaxSide + 1, size, size);
      MulMonotone(MaxSide + 1, size, MaxSide + 1);
    }
  }

  /** For sides from MaxSide + 1 to 65535 the 32-bit `size * size` wraps to a negative length. */
  lemma SquareWrapsNegative(size: nat)
    requires MaxSide < size < 0x1_0000
    ensures WrapInt(size * size) < 0
  {
    MulMonotone(MaxSide + 1, size, size);
    MulMonotone(MaxSide + 1, size, MaxSide + 1);
    MulMonotone(size, 0xFFFF, size);
    MulMonotone(size, 0xFFFF, 0xFFFF);
    assert 0x8000_0000 <= size * size < 0x1_0000_0000;
  }

  /** The pixel slot of cell (x, z); it always lies inside the `size * size` array. */
  function PixelIndex(x: int, z: int, size: nat): (i: int)
    requires 0 <= x < size && 0 <= z < size
    ensures 0 <= i < size * size
  {
    RowStartBound(x, size);
    x * size + z
  }

  /** The cell whose pixel is slot `i`: the inverse of PixelIndex. */
  function CellOf(i: int, size: nat): (cell: (int, int))
    requires 0 <= i < size * size
    ensures 0 <= cell.0 < size && 0 <= cell.1 < size
    ensures PixelIndex(cell.0, cell.1, size) == i
  {
    QuotientBound(i, size);
    (i / size, i % size)
  }

  /** Rows before row `x` fill exactly the first `x * size` slots, so row `x` ends by `size * size`. */
  lemma RowStartBound(x: int, size: nat)
    requires 0 <= x < size
    ensures 0 <= x * size && x * size + size <= size * size
  {
    assert (x + 1) * size <= size * size by {
      MulMonotone(x + 1, size, size);
    }
  }

  /** A slot of the array belongs to one of its `size` rows. */
  lemma QuotientBound(i: int, size: nat)
    requires 0 <= i < size * size
    ensures 0 <= i / size < size
  {
    if i / size >= size {
      MulMonotone(size, i / size, size);
      assert false;
    }
  }

  lemma MulMonotone(a: int, b: int, c: nat)
    requires a <= b
    ensures a * c <= b * c
  {
    assert b * c - a * c == (b - a) * c;
  }

  /** Row `x1` ends no later than row `x2` starts when `x1 < x2`. */
  lemma RowsDisjoint(x1: int, x2: int, size: nat)
    requires x1 < x2
    ensures x1 * size + size <= x2 * size
  {
    MulMonotone(x1 + 1, x2, size);
    assert (x1 + 1) * size == x1 * size + size;
  }

  /** Distinct cells go to distinct slots: no pixel is written twice. */
  lemma PixelIndexInjective(x1: int, z1: int, x2: int, z2: int, size: nat)
    requires 0 <= x1 < size && 0 <= z1 < size
    requires 0 <= x2 < size && 0 <= z2 < size
    requires PixelIndex(x1, z1, size) == PixelIndex(x2, z2, size)
    ensures x1 == x2 && z1 == z2
  {
    if x1 < x2 {
      RowsDisjoint(x1, x2, size);
    } else if x2 < x1 {
      RowsDisjoint(x2, x1, size);
    }
  }

  /** Flattening and then unflattening gives the cell back. */
  lemma CellOfPixelIndex(x: int, z: int, size: nat)
    requires 0 <= x < size && 0 <= z < size
    ensures CellOf(PixelIndex(x, z, size), size) == (x, z)
  {
    var cell := CellOf(PixelIndex(x, z, size), size);
    PixelIndexInjective(cell.0, cell.1, x, z, size);
  }
}
