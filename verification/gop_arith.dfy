/** Facts about Euclidean division and multiplication that the solver
    does not find on its own. */
module GopArith {

  /** Euclidean division is unique: `q * d + r` with `0 <= r < d` has
      quotient `q` and remainder `r`. */
  lemma DivModUnique(n: int, d: int, q: int, r: int)
    requires 0 < d && 0 <= r < d && n == q * d + r
    ensures n / d == q && n % d == r
  {
    var q', r' := n / d, n % d;
    var k := q - q';
    assert k * d == r' - r;
    if k >= 1 {
      MulAtLeast(k, d);
    } else if k <= -1 {
      MulAtLeast(-k, d);
    }
  }

  lemma MulAtLeast(k: int, d: int)
    requires k >= 1 && d > 0
    ensures k * d >= d
  {
  }

  /** A quotient by `w` of a number below `h * w` is below `h`. */
  lemma DivBelow(i: int, w: int, h: int)
    requires 0 <= i < h * w && w > 0
    ensures i / w < h
  {
    var q := i / w;
    assert q * w <= i;
    if q >= h {
      MulMonotone(h, q, w);
    }
  }

  lemma MulMonotone(a: int, b: int, w: int)
    requires a <= b && w >= 0
    ensures a * w <= b * w
  {
  }
}
