/** Facts about multiplication and Euclidean division on naturals that the
    row-major index arithmetic of the model rests on. */
module Arith {

  lemma MulLe(a: int, b: int, c: int)
    requires 0 <= a <= b && 0 <= c
    ensures a * c <= b * c
  {
    assert b * c - a * c == (b - a) * c;
  }

  lemma SquareLe(a: int, b: int)
    requires 0 <= a <= b
    ensures a * a <= b * b
  {
    MulLe(a, b, a);
    MulLe(a, b, b);
  }

  lemma SquareOfProduct(a: int, b: int)
    ensures (a * b) * (a * b) == (a * a) * (b * b)
  {
  }

  /** If s * s < p and n == ln * s with n > 0, then p * ln^2 > n^2. */
  lemma ExceedsSquare(p: int, s: nat, ln: nat, n: int)
    requires s * s < p && n == ln * s && n > 0
    ensures p * (ln * ln) > n * n
  {
    var s2, ln2 := s * s, ln * ln;
    assert ln != 0;
    MulLe(1, ln, ln);
    SquareOfProduct(ln, s);
    assert n * n == ln2 * s2;
    MulLe(s2 + 1, p, ln2);
    assert (s2 + 1) * ln2 == s2 * ln2 + ln2;
  }

  /** Quotient and remainder are the unique q, r with x == q * d + r, 0 <= r < d. */
  lemma DivMod(x: int, d: int, q: int, r: int)
    requires d > 0 && 0 <= r < d && x == q * d + r
    ensures x / d == q && x % d == r
  {
    var q', r' := x / d, x % d;
    assert x == q' * d + r';
    assert (q - q') * d == r' - r;
    if q > q' {
      MulLe(1, q - q', d);
    } else if q < q' {
      MulLe(1, q' - q, d);
    }
  }
}
