/** Facts about quotients and remainders that several components rest on. */
module Arithmetic {
  lemma Multiple(k: int, m: int)
    requires m > 0
    ensures k >= 1 ==> k * m >= m
    ensures k <= -1 ==> k * m <= -m
  {
  }

  /** Quotient and remainder are the only numbers of their kind. */
  lemma RemainderIs(a: int, q: int, r: int, m: int)
    requires 0 <= r < m && a == q * m + r
    ensures a / m == q && a % m == r
  {
    var p := a / m;
    assert a == p * m + a % m;
    assert (p - q) * m == r - a % m;
    Multiple(p - q, m);
  }

  lemma Distribute(q: int, b: int, r: int, a: int)
    ensures (q * b + r) * a == q * (b * a) + r * a
  {
  }

  lemma QuotientOfQuotient(v: nat, a: nat, b: nat)
    requires a >= 1 && b >= 1
    ensures v / a / b == v / (b * a)
  {
    var q, r, t := v / a / b, v / a % b, v % a;
    assert v / a == q * b + r;
    assert v == (q * b + r) * a + t;
    Distribute(q, b, r, a);
    Distribute(1, b - 1, 1, a);
    MultipleGrows(r, b - 1, a);
    RemainderIs(v, q, r * a + t, b * a);
  }

  lemma QuotientBelow(v: nat, p: nat, c: nat)
    requires p >= 1
    ensures v / p < c <==> v < c * p
  {
    var q := v / p;
    assert v == q * p + v % p;
    if q < c { MultipleGrows(q + 1, c, p); } else { MultipleGrows(c, q, p); }
  }

  lemma MultipleGrows(a: nat, b: nat, p: nat)
    requires a <= b
    ensures a * p <= b * p
    ensures (a + 1) * p == a * p + p
  {
  }

  lemma Regroup(a: int, b: int, c: int)
    ensures a * (b * c) == b * (a * c) == (a * b) * c
  {
  }
}
