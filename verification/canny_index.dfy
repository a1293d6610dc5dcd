/**
 * sub2ind / ind2sub of CannyEdgeDetector.java: grid positions (row, column)
 * and row-major flat indices, which is how the strong and weak pixel sets
 * and the traversal stack store pixels.
 */
module CannyIndex {
  import opened JavaArith

  type Cell = (int, int)

  predicate InGrid(rows: int, columns: int, x: Cell)
  {
    0 <= x.0 < rows && 0 <= x.1 < columns
  }

  /** Row-major layout: a position whose column is in range gets an index in the r-th block of `columns` indices. */
  function Sub2Ind(r: int, c: int, columns: int): (i: int)
    ensures 0 <= c < columns ==> columns * r <= i < columns * (r + 1)
  {
    columns * r + c
  }

  /** The source's `{index / columns, index - columns * (index / columns)}` with Java division. */
  function Ind2Sub(index: int, columns: int): (x: Cell)
    requires columns > 0
    ensures columns * x.0 + x.1 == index
    ensures index >= 0 ==> x.0 >= 0 && 0 <= x.1 < columns
  {
    var q := TruncDiv(index, columns);
    assert index >= 0 ==> columns * q + index % columns == index && q >= 0;
    (q, index - columns * q)
  }

  /** An in-grid position encodes to an index in [0, rows * columns). */
  lemma Sub2IndInRange(r: int, c: int, rows: int, columns: int)
    requires InGrid(rows, columns, (r, c))
    ensures 0 <= Sub2Ind(r, c, columns) < rows * columns
  {
    assert columns * r + columns == columns * (r + 1);
    assert columns * (r + 1) <= columns * rows by { MulSign(columns, rows - (r + 1) + 1); }
    assert 0 <= columns * r by { MulSign(columns, r); }
  }

  /** Decoding an encoded in-grid position gives the position back. */
  lemma Ind2SubSub2Ind(r: int, c: int, columns: int)
    requires r >= 0 && 0 <= c < columns
    ensures Ind2Sub(Sub2Ind(r, c, columns), columns) == (r, c)
  {
    var m := columns * r;
    var i := m + c;
    assert 0 <= m by { MulSign(columns, r); }
    var q := i / columns;
    assert columns * q + i % columns == i;
    assert columns * (r + 1) == m + columns;
    assert columns * (r - 1) == m - columns;
    CancelLt(columns, q, r + 1);
    CancelLt(columns, r - 1, q);
  }

  /** Every index in [0, rows * columns) decodes to an in-grid position that encodes back to it. */
  lemma Sub2IndInd2Sub(index: int, rows: int, columns: int)
    requires columns > 0 && 0 <= index < rows * columns
    ensures InGrid(rows, columns, Ind2Sub(index, columns))
    ensures Sub2Ind(Ind2Sub(index, columns).0, Ind2Sub(index, columns).1, columns) == index
  {
    var q := index / columns;
    assert columns * q + index % columns == index;
    assert columns * q <= index < columns * rows;
    CancelLt(columns, q, rows);
    assert 0 <= q;
  }

  /** Distinct in-grid positions have distinct indices. */
  lemma Sub2IndInjective(a: Cell, b: Cell, rows: int, columns: int)
    requires InGrid(rows, columns, a) && InGrid(rows, columns, b)
    requires Sub2Ind(a.0, a.1, columns) == Sub2Ind(b.0, b.1, columns)
    ensures a == b
  {
    Ind2SubSub2Ind(a.0, a.1, columns);
    Ind2SubSub2Ind(b.0, b.1, columns);
  }
}
