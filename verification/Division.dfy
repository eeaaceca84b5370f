/** Division with remainder by a number that is not a constant. */
module Division {

  lemma SmallestMultiple(k: nat, c: nat)
    requires k > 0
    ensures k * c >= c
  {
  }

  lemma LessTimes(a: int, b: int, c: nat)
    requires a < b
    ensures a * c + c <= b * c
  {
    SmallestMultiple(b - a, c);
    assert (b - a) * c == b * c - a * c;
  }

  /** Division with remainder is unique. */
  lemma DivisionUnique(x: nat, c: nat, q: int, m: int)
    requires c > 0 && x == q * c + m && 0 <= m < c
    ensures x / c == q && x % c == m
  {
    var d, r := x / c, x % c;
    assert x == d * c + r && 0 <= r < c;
    if q > d {
      LessTimes(d, q, c);
    } else if q < d {
      LessTimes(q, d, c);
    }
  }
}
