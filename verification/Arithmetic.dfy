/** The few facts about products, quotients and remainders that the layouts rest on. */
module Arithmetic {

  lemma QuotientUnique(q: int, r: nat, q': int, r': nat, bs: nat)
    requires r < bs && r' < bs && q * bs + r == q' * bs + r'
    ensures q == q' && r == r'
  {
    MulOrder(q, q', bs);
    MulOrder(q', q, bs);
    MulOrder(q + 1, q', bs);
    MulOrder(q' + 1, q, bs);
  }

  lemma MulOrder(a: int, b: int, bs: nat)
    requires bs > 0
    ensures a * bs <= b * bs <==> a <= b
  {
    MulPositive(if a <= b then b - a else a - b, bs);
  }

  lemma {:induction false} MulPositive(k: nat, bs: nat)
    ensures k * bs >= 0 && (k > 0 ==> k * bs >= bs)
  {
    if k > 0 {
      MulPositive(k - 1, bs);
      assert k * bs == (k - 1) * bs + bs;
    }
  }

  lemma Remainder(m: nat, q: int, r: nat)
    requires r < m
    ensures (q * m + r) % m == r && (q * m + r) / m == q
  {
    var x := q * m + r;
    assert x == x / m * m + x % m;
    QuotientUnique(x / m, x % m, q, r, m);
  }

  /** Reducing a part of a sum first changes nothing. */
  lemma SumRemainder(a: nat, b: nat, m: nat)
    requires m > 0
    ensures (a % m + b) % m == (a + b) % m
  {
    var x, c := a / m, a % m + b;
    assert a == x * m + a % m;
    var y, r := c / m, c % m;
    assert c == y * m + r;
    assert (x + y) * m == x * m + y * m;
    Remainder(m, x + y, r);
  }

  /** Dividing twice is dividing by the product. */
  lemma DivideTwice(v: int, a: nat, b: nat)
    requires a > 0 && b > 0
    ensures a * b > 0 && v / a / b == v / (a * b)
  {
    var q, r, t, m := v / a / b, v / a % b, v % a, a * b;
    assert v / a == q * b + r;
    assert v == v / a * a + t;
    TwoDigits(q, r, t, a, b);
    Remainder(m, q, r * a + t);
  }

  lemma TwoDigits(q: int, r: nat, t: nat, a: nat, b: nat)
    requires r < b && t < a
    ensures 0 <= r * a + t < a * b && (q * b + r) * a + t == q * (a * b) + (r * a + t)
  {
    MulPositive(r, a);
    MulPositive(b - r - 1, a);
    assert a * b == r * a + a + (b - r - 1) * a;
    assert q * b * a == q * (a * b);
  }

  /** A small negative number wraps around once. */
  lemma NegativeRemainder(v: int, m: nat)
    requires 0 - m <= v < 0
    ensures v % m == v + m
  {
    var q, r := v / m, v % m;
    assert v == q * m + r;
    MulOrder(0, q, m);
    MulOrder(q, -2, m);
  }
}
