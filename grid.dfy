/**
 * Coordinates of a square Nurikabe grid: validity, the row-major code of a
 * cell, and the three enumerators the solver walks the grid with.
 */
module Grid {

  /** Stored cell values. A cell is WHITE while still undecided. */
  const WHITE := 0
  const BLACK := 1
  const DOT := 2

  /** A cell as (row, column). */
  type Cell = (int, int)

  /** A proposed assignment: store `value` at (i, j). */
  datatype Update = Update(i: int, j: int, value: int)
  {
    function Target(): Cell
    {
      (i, j)
    }
  }

  predicate IsValidCell(size: int, i: int, j: int)
  {
    0 <= i < size && 0 <= j < size
  }

  predicate InGrid(size: int, c: Cell)
  {
    IsValidCell(size, c.0, c.1)
  }

  /** 4-neighbourhood: the two cells differ by one in exactly one coordinate. */
  predicate Adjacent(a: Cell, b: Cell)
  {
    (a.0 == b.0 && (a.1 == b.1 + 1 || b.1 == a.1 + 1)) ||
    (a.1 == b.1 && (a.0 == b.0 + 1 || b.0 == a.0 + 1))
  }

  /** Row-major code of a cell. */
  function Encode(size: int, i: int, j: int): (code: int)
    requires IsValidCell(size, i, j)
    ensures 0 <= code < size * size
  {
    assert i * size <= (size - 1) * size by { MulMonotone(i, size - 1, size); }
    i * size + j
  }

  /**
   * Inverse of Encode. The quotient is the floor of code / size, which for a
   * positive size is Dafny's division; the remainder follows the sign of the
   * dividend as the `%` operator of the language the solver is written in.
   */
  function Decode(size: int, code: int): (c: Cell)
    requires size > 0
    ensures 0 <= code < size * size ==> IsValidCell(size, c.0, c.1)
  {
    var rem := if code >= 0 then code % size else -((-code) % size);
    var q := code / size;
    assert 0 <= code < size * size ==> q < size by {
      if 0 <= code < size * size && q >= size {
        MulMonotone(size, q, size);
      }
    }
    (q, rem)
  }

  lemma MulMonotone(a: int, b: int, c: int)
    requires a <= b && c >= 0
    ensures a * c <= b * c
  {
  }

  /** Decoding the code of a valid cell gives the cell back. */
  lemma {:induction false} DecodeEncode(size: int, i: int, j: int)
    requires IsValidCell(size, i, j)
    ensures Decode(size, Encode(size, i, j)) == (i, j)
  {
    var code := i * size + j;
    var q, r := code / size, code % size;
    assert code == q * size + r && 0 <= r < size;
    var k := q - i;
    assert k * size == q * size - i * size;
    if k >= 1 {
      MulMonotone(1, k, size);
      assert false;
    } else if k <= -1 {
      MulMonotone(k, -1, size);
      assert false;
    }
  }

  /** Encoding the decoding of an in-range code gives the code back. */
  lemma EncodeDecode(size: int, code: int)
    requires size > 0 && 0 <= code < size * size
    ensures InGrid(size, Decode(size, code))
    ensures Encode(size, Decode(size, code).0, Decode(size, code).1) == code
  {
    var q, r := code / size, code % size;
    assert code == q * size + r;
    assert q >= 0 by {
      if q < 0 {
        MulMonotone(q, -1, size);
      }
    }
  }

  /** Two in-range codes with the same decoding are equal. */
  lemma DecodeInjective(size: int, x: int, y: int)
    requires size > 0 && 0 <= x < size * size && 0 <= y < size * size
    requires Decode(size, x) == Decode(size, y)
    ensures x == y
  {
    EncodeDecode(size, x);
    EncodeDecode(size, y);
  }

  /** Two valid cells have the same code only if they are the same cell. */
  lemma EncodeInjective(size: int, a: Cell, b: Cell)
    requires InGrid(size, a) && InGrid(size, b)
    requires Encode(size, a.0, a.1) == Encode(size, b.0, b.1)
    ensures a == b
  {
    DecodeEncode(size, a.0, a.1);
    DecodeEncode(size, b.0, b.1);
  }

  /** The cells (i, j), (i, j + 1), ..., (i, w - 1), in that order. */
  function RowCells(i: int, j: int, w: int): (cs: seq<Cell>)
    decreases w - j
    ensures forall c :: c in cs <==> c.0 == i && j <= c.1 < w
  {
    if j >= w then [] else [(i, j)] + RowCells(i, j + 1, w)
  }

  /** Rows i .. w - 1 of a w-by-w square, row by row. */
  function SquareRows(i: int, w: int): (cs: seq<Cell>)
    decreases w - i
    ensures forall c :: c in cs <==> i <= c.0 < w && 0 <= c.1 < w
  {
    if i >= w then [] else RowCells(i, 0, w) + SquareRows(i + 1, w)
  }

  /**
   * The board iterator: every cell whose row and column are below
   * size - margin, in row-major order.
   */
  function BoardCells(size: int, margin: int): (cs: seq<Cell>)
    ensures forall c :: c in cs <==> IsValidCell(size - margin, c.0, c.1)
  {
    SquareRows(0, size - margin)
  }

  /** A cell is valid exactly when the full board iterator (margin 0) yields it. */
  lemma ValidCellsOnBoard(size: int, i: int, j: int)
    ensures IsValidCell(size, i, j) <==> (i, j) in BoardCells(size, 0)
  {
  }

  /**
   * The neighbour iterator: right, left, up, down (the offset tables
   * di = [0, 0, -1, 1], dj = [1, -1, 0, 0]), keeping only cells on the grid.
   */
  function Neighbors(size: int, i: int, j: int): (ns: seq<Cell>)
    ensures forall c :: c in ns <==> InGrid(size, c) && Adjacent((i, j), c)
    ensures |ns| <= 4
  {
    (if IsValidCell(size, i, j + 1) then [(i, j + 1)] else []) +
    (if IsValidCell(size, i, j - 1) then [(i, j - 1)] else []) +
    (if IsValidCell(size, i - 1, j) then [(i - 1, j)] else []) +
    (if IsValidCell(size, i + 1, j) then [(i + 1, j)] else [])
  }

  /** Valid cells (x, y .. y + k - 1) of row x. */
  function LocalRow(size: int, x: int, y: int, yEnd: int): (cs: seq<Cell>)
    decreases yEnd - y
    ensures forall c :: c in cs <==> InGrid(size, c) && c.0 == x && y <= c.1 < yEnd
  {
    if y >= yEnd then []
    else (if IsValidCell(size, x, y) then [(x, y)] else []) + LocalRow(size, x, y + 1, yEnd)
  }

  function LocalRows(size: int, x: int, xEnd: int, j: int, k: int): (cs: seq<Cell>)
    decreases xEnd - x
    ensures forall c :: c in cs <==> InGrid(size, c) && x <= c.0 < xEnd && j <= c.1 < j + k
  {
    if x >= xEnd then [] else LocalRow(size, x, j, j + k) + LocalRows(size, x + 1, xEnd, j, k)
  }

  /** The local iterator: valid cells of the k-by-k block whose top-left is (i, j). */
  function LocalWindow(size: int, i: int, j: int, k: int): (cs: seq<Cell>)
    ensures forall c :: c in cs <==> InGrid(size, c) && i <= c.0 < i + k && j <= c.1 < j + k
  {
    LocalRows(size, i, i + k, j, k)
  }

  /**
   * A 2-by-2 block inside the grid enumerates its four cells row by row.
   */
  lemma QuadWindow(size: int, i: int, j: int)
    requires 0 <= i <= size - 2 && 0 <= j <= size - 2
    ensures LocalWindow(size, i, j, 2) == [(i, j), (i, j + 1), (i + 1, j), (i + 1, j + 1)]
  {
    assert LocalRow(size, i, j, j + 2) == [(i, j), (i, j + 1)] by {
      assert LocalRow(size, i, j + 2, j + 2) == [];
      assert LocalRow(size, i, j + 1, j + 2) == [(i, j + 1)];
    }
    assert LocalRow(size, i + 1, j, j + 2) == [(i + 1, j), (i + 1, j + 1)] by {
      assert LocalRow(size, i + 1, j + 2, j + 2) == [];
      assert LocalRow(size, i + 1, j + 1, j + 2) == [(i + 1, j + 1)];
    }
    assert LocalRows(size, i + 2, i + 2, j, 2) == [];
    assert LocalRows(size, i + 1, i + 2, j, 2) == [(i + 1, j), (i + 1, j + 1)];
  }
}
