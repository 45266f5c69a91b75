/**
 * Facts about Euclidean division used by the index arithmetic of the models.
 */
module IndexArith {

  lemma MulNonNegative(x: int, y: int)
    requires x >= 0 && y >= 0
    ensures x * y >= 0
  {
  }

  /** The remainder of `a` by `b` is the unique `r` in [0, b) with a == q * b + r. */
  lemma ModUnique(a: int, b: int, q: int, r: int)
    requires b > 0 && a == q * b + r && 0 <= r < b
    ensures a % b == r
  {
    var q', r' := a / b, a % b;
    assert a == q' * b + r';
    assert (q' - q) * b == r - r';
    if q' > q {
      assert (q' - q) * b == (q' - q - 1) * b + b;
      MulNonNegative(q' - q - 1, b);
    } else if q' < q {
      assert (q - q') * b == (q - q' - 1) * b + b;
      MulNonNegative(q - q' - 1, b);
    }
  }
}
