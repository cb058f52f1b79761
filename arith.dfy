/** Facts about natural-number multiplication, division and remainder that the
    tile geometry and the row-major image layout rest on. */
module Arith {

  /** Multiplying both sides of `a <= b` by the same natural keeps the order. */
  lemma MulMonotone(a: nat, b: nat, c: nat)
    requires a <= b
    ensures a * c <= b * c
  {
  }

  /** A quotient and remainder pair is unique: if `k == q * d + r` with `r < d`,
      then `q` and `r` are Dafny's `k / d` and `k % d`. */
  lemma DivModUnique(k: nat, d: nat, q: nat, r: nat)
    requires r < d && k == q * d + r
    ensures k / d == q && k % d == r
  {
    var q', r' := k / d, k % d;
    assert k == q' * d + r';
    if q' < q {
      MulMonotone(q' + 1, q, d);
    } else if q < q' {
      MulMonotone(q + 1, q', d);
    }
  }

  /** Row-major layout: the cell at column `x` and row `y` of a `w`-wide,
      `h`-high grid sits at `y * w + x`, inside the grid, and is recovered by
      `%` and `/`. */
  lemma CellIndex(x: nat, y: nat, w: nat, h: nat)
    requires x < w && y < h
    ensures y * w + x < w * h
    ensures (y * w + x) % w == x && (y * w + x) / w == y
  {
    DivModUnique(y * w + x, w, y, x);
    MulMonotone(y + 1, h, w);
    assert (y + 1) * w == y * w + w;
  }

  /** Every index of a `w * h` grid names a column below `w` and a row below `h`. */
  lemma CellCoords(k: nat, w: nat, h: nat)
    requires k < w * h
    ensures 0 < w && k % w < w && k / w < h
  {
  }
}
