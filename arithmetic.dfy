/** Facts about multiplication and Euclidean division used by the geometry proofs. */
module Arithmetic {

  /** An `unsigned char`: one sample of a palette image, or one byte of an output file. */
  newtype byte = b: int | 0 <= b < 0x100

  lemma MulMono(d: nat, x: nat, y: nat)
    requires x <= y
    ensures d * x <= d * y
    decreases y - x
  {
    if x < y {
      MulMono(d, x, y - 1);
      assert d * y == d * (y - 1) + d;
    }
  }

  /** Quotient and remainder are unique. */
  lemma DivUnique(u: nat, d: nat, q: nat, r: nat)
    requires d > 0 && r < d && u == d * q + r
    ensures u / d == q && u % d == r
  {
    var q', r' := u / d, u % d;
    assert u == d * q' + r';
    if q < q' {
      MulMono(d, q + 1, q');
      assert false;
    } else if q' < q {
      MulMono(d, q' + 1, q);
      assert false;
    }
  }

  lemma MulCancel(a: nat, b: nat, k: nat)
    requires k > 0 && a * k == b * k
    ensures a == b
  {
    if a < b {
      MulMono(k, a + 1, b);
      assert false;
    } else if b < a {
      MulMono(k, b + 1, a);
      assert false;
    }
  }

  lemma DivExact(u: nat, d: nat)
    requires d > 0 && u % d == 0
    ensures u == (u / d) * d
  {
  }

  lemma DivDiv(u: nat, a: nat, b: nat)
    requires a > 0 && b > 0
    ensures u / a / b == u / (a * b)
  {
    var q1, r1 := u / a, u % a;
    var q, r2 := q1 / b, q1 % b;
    Regroup(u, a, b, q1, r1, q, r2);
    MixedRadixBound(a, b, r1, r2);
    DivUnique(u, a * b, q, a * r2 + r1);
  }

  lemma Regroup(u: nat, a: nat, b: nat, q1: nat, r1: nat, q: nat, r2: nat)
    requires u == a * q1 + r1 && q1 == b * q + r2
    ensures u == (a * b) * q + (a * r2 + r1)
  {
    assert a * q1 == a * (b * q) + a * r2;
  }

  /** A digit below `b` in the high place and one below `a` in the low place stay below `a * b`. */
  lemma MixedRadixBound(a: nat, b: nat, r1: nat, r2: nat)
    requires r1 < a && r2 < b
    ensures a * r2 + r1 < a * b
  {
    MulMono(a, r2, b - 1);
    assert a * (b - 1) == a * b - a;
  }

  /** Row r of a row-major buffer of `rows` rows of `width` entries ends inside it. */
  lemma RowEndWithin(width: nat, rows: nat, r: nat)
    requires r < rows
    ensures r * width + width <= width * rows
  {
    MulMono(width, r + 1, rows);
    assert width * (r + 1) == r * width + width;
  }

  /** The same bound, with the row count first, and the start of the next row. */
  lemma NextRowStart(width: nat, rows: nat, r: nat)
    requires r < rows
    ensures r * width + width <= rows * width
    ensures (r + 1) * width == r * width + width
  {
    RowEndWithin(width, rows, r);
  }

  /** In a row-major grid of `width` columns, cell (row, col) comes before row `row + 1`. */
  lemma RowMajorBound(row: nat, col: nat, width: nat, rows: nat)
    requires col < width && row < rows
    ensures row * width + col < rows * width
  {
    MulMono(width, row + 1, rows);
    assert (row + 1) * width == row * width + width;
    assert width * (row + 1) == (row + 1) * width;
    assert width * rows == rows * width;
  }
}
