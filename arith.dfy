/** Facts about integer multiplication and division that the solver needs spelled out. */
module Arith {

  /** Division of a multiple gives back the factor, with no remainder. */
  lemma MulDivExact(q: nat, m: int)
    requires m > 0
    ensures (q * m) / m == q && (q * m) % m == 0
  {
    var a := q * m;
    var d, r := a / m, a % m;
    assert a == d * m + r && 0 <= r < m;
    var k := q - d;
    assert r == k * m by {
      assert q * m - d * m == (q - d) * m;
    }
    MultipleBounds(k, m);
  }

  lemma MultipleBounds(k: int, m: int)
    requires m > 0
    ensures k >= 1 ==> k * m >= m
    ensures k <= -1 ==> k * m <= -m
  {
  }

  /** Multiplication by a positive factor keeps order. */
  lemma MulMonotone(x: int, y: int, m: int)
    requires m > 0 && x <= y
    ensures x * m <= y * m
  {
    assert y * m - x * m == (y - x) * m;
  }

  /** A multiple of m * n is a multiple of m whose quotient is a multiple of n. */
  lemma MultipleOfProduct(x: nat, m: int, n: int)
    requires m > 0 && n > 0
    ensures x % (n * m) == 0 <==> x % m == 0 && (x / m) % n == 0
  {
    var bs := n * m;
    assert bs > 0;
    if x % bs == 0 {
      var b := x / bs;
      assert x == b * bs;
      assert x == (b * n) * m;
      MulDivExact(b * n, m);
      MulDivExact(b, n);
    }
    if x % m == 0 && (x / m) % n == 0 {
      var p := x / m;
      var b := p / n;
      assert x == p * m;
      assert p == b * n;
      assert x == b * bs;
      MulDivExact(b, bs);
    }
  }
}
