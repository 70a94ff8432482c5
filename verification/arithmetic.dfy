/** Integer facts the index arithmetic of the grid relies on. */
module Arithmetic {
  lemma MulAtLeast(d: int, b: int)
    requires d >= 1 && b > 0
    ensures d * b >= b
  {
  }
  lemma MulNonneg(a: int, b: int)
    requires a >= 0 && b >= 0
    ensures a * b >= 0
  {
  }
  lemma MulMonotone(a: int, b: int, c: int)
    requires a <= b && c >= 0
    ensures a * c <= b * c
  {
    assert (b - a) * c >= 0;
  }
  lemma MulPred(q: int, c: int)
    ensures (q - 1) * c == q * c - c
  {
  }
  lemma DivMod(a: int, b: int)
    requires b > 0
    ensures a == (a / b) * b + a % b && 0 <= a % b < b
  {
  }
  lemma DivModUnique(a: int, b: int, q: int, r: int)
    requires b > 0 && 0 <= r < b && a == q * b + r
    ensures a / b == q && a % b == r
  {
    DivMod(a, b);
    var d := q - a / b;
    assert d * b == a % b - r;
    if d >= 1 { MulAtLeast(d, b); }
    else if d <= -1 { MulAtLeast(-d, b); }
  }
}
