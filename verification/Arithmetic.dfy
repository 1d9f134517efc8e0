/** Integer and rounding facts shared by the models. */
module Arithmetic {
  /** Go's conversion of a float to an integer truncates toward zero. */
  function Trunc(x: real): int {
    if x >= 0.0 then x.Floor else -((-x).Floor)
  }

  /** Go's integer division truncates toward zero. */
  function TruncDiv(a: int, b: int): int
    requires b != 0
  {
    if (a >= 0) == (b > 0) then (if a >= 0 then a else -a) / (if b > 0 then b else -b)
    else -((if a >= 0 then a else -a) / (if b > 0 then b else -b))
  }

  function Abs(a: int): nat {
    if a >= 0 then a else -a
  }

  /** The quotient's remainder is smaller than the divisor and has the sign of the dividend. */
  lemma TruncDivRemainder(a: int, b: int)
    requires b != 0
    ensures var rest := a - b * TruncDiv(a, b);
            Abs(rest) < Abs(b) && (a >= 0 ==> rest >= 0) && (a <= 0 ==> rest <= 0)
  {
    var n, q := Abs(b), Abs(a) / Abs(b);
    DivBounds(Abs(a), n);
    Signs(n, q);
    assert b * TruncDiv(a, b) == if a >= 0 then n * q else -(n * q);
  }

  lemma Signs(x: int, y: int)
    ensures -x * y == -(x * y) && x * -y == -(x * y) && -x * -y == x * y
  {
  }

  function Max(a: int, b: int): int {
    if a > b then a else b
  }

  lemma MulOrder(n: int, d: int)
    requires n > 0
    ensures d > 0 ==> n * d >= n && n * d >= d
    ensures d < 0 ==> n * d <= -n
  {
  }

  lemma DivBounds(a: int, b: int)
    requires b > 0
    ensures b * (a / b) <= a < b * (a / b + 1)
    ensures a == b * (a / b) + a % b
  {
  }

  lemma DivisionIsUnique(m: int, n: int, q: int, r: int)
    requires n > 0 && m == n * q + r && 0 <= r < n
    ensures q == m / n && r == m % n
  {
    assert n * (q - m / n) == m % n - r;
    MulOrder(n, q - m / n);
  }

  lemma QuotientGrows(a: int, w: int)
    requires w > 0
    ensures a / w <= (a + 1) / w
  {
    assert w * ((a + 1) / w - a / w) == a % w + 1 - (a + 1) % w;
    MulOrder(w, (a + 1) / w - a / w);
  }
}
