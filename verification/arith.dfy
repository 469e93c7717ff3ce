/** Integer division facts shared by the poll budget of the console and
    the column layout of Tab completion. Dafny's `/` and `%` agree with the
    C operators here because every operand is non-negative. */
module Arith {
  lemma DivBounds(a: nat, b: nat)
    requires b > 0
    ensures (a / b) * b <= a < (a / b + 1) * b
  {
  }

  lemma MulZero(d: int, b: int)
    requires b > 0 && -b < d * b < b
    ensures d == 0
  {
  }

  /** Quotient and remainder are the only ones of their kind. */
  lemma DivUnique(a: int, b: int, q: int, r: int)
    requires b > 0 && 0 <= r < b && a == q * b + r
    ensures a / b == q && a % b == r
  {
    var q', r' := a / b, a % b;
    assert (q - q') * b == r' - r;
    MulZero(q - q', b);
  }

  lemma MulPos(x: int, m: int)
    requires m > 0 && x * m > 0
    ensures x > 0
  {
  }

  lemma MulLess(a: int, b: int, m: int)
    requires m > 0 && a * m < b * m
    ensures a < b
  {
    assert (b - a) * m > 0;
    MulPos(b - a, m);
  }

  /** A quotient rounded down is the only one of its kind. */
  lemma FloorUnique(a: int, m: int, q: int, q': int)
    requires m > 0
    requires q * m <= a < (q + 1) * m && q' * m <= a < (q' + 1) * m
    ensures q == q'
  {
    MulLess(q, q' + 1, m);
    MulLess(q', q + 1, m);
  }

  /** The same with the factors the other way round. */
  lemma FloorUniqueLeft(a: int, m: int, q: int, q': int)
    requires m > 0
    requires m * q <= a < m * (q + 1) && m * q' <= a < m * (q' + 1)
    ensures q == q'
  {
    assert m * q == q * m && m * (q + 1) == (q + 1) * m;
    assert m * q' == q' * m && m * (q' + 1) == (q' + 1) * m;
    FloorUnique(a, m, q, q');
  }

  lemma DivStep(i: nat, mpl: nat)
    requires mpl >= 1
    ensures (i + 1) / mpl == i / mpl + (if (i + 1) % mpl == 0 then 1 else 0)
  {
    var q, r := i / mpl, i % mpl;
    DivUnique(i, mpl, q, r);
    if r + 1 == mpl {
      DivUnique(i + 1, mpl, q + 1, 0);
    } else {
      DivUnique(i + 1, mpl, q, r + 1);
    }
  }
}
