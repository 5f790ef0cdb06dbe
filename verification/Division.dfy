/** Quotients and remainders of natural numbers, for divisors that are not literals. */
module Division {

  function Quotient(x: nat, b: nat): nat
    requires b > 0
  {
    x / b
  }

  lemma DivMod(b: nat, hi: nat, lo: nat)
    requires lo < b
    ensures (hi * b + lo) / b == hi && (hi * b + lo) % b == lo
  {
    var x := hi * b + lo;
    assert x == b * (x / b) + x % b;
    if x / b < hi {
      Scaled(b, x / b + 1, hi);
    } else if x / b > hi {
      Scaled(b, hi + 1, x / b);
    }
  }

  lemma Scaled(b: nat, m: nat, n: nat)
    requires m <= n
    ensures b * m <= b * n
  {
  }

  lemma DivisionBelow(x: nat, b: nat, q: nat)
    requires b > 0 && x < q * b
    ensures x / b < q
  {
    assert b * (x / b) <= x;
    if q <= x / b { Scaled(b, q, x / b); }
  }

  lemma DivModOfSum(b: nat, q: nat, x: nat)
    requires b > 0
    ensures (q * b + x) % b == x % b
  {
    DivMod(b, q + x / b, x % b);
    assert q * b + x == (q + x / b) * b + x % b;
  }

  lemma NestedModulo(x: nat, a: nat, b: nat)
    requires a > 0 && b > 0
    ensures a * b > 0 && x % (a * b) % b == x % b
  {
    Scaled(b, 1, a);
    var q, r := x / (a * b), x % (a * b);
    assert x == (a * b) * q + r;
    assert x == (q * a) * b + r;
    DivModOfSum(b, q * a, r);
  }

  lemma QuotientOfNext(size: nat, n: nat)
    requires size > 0
    ensures if n % size + 1 < size then (n + 1) / size == n / size && (n + 1) % size == n % size + 1
            else (n + 1) / size == n / size + 1 && (n + 1) % size == 0
  {
    assert n == n / size * size + n % size;
    if n % size + 1 < size {
      DivMod(size, n / size, n % size + 1);
    } else {
      DivMod(size, n / size + 1, 0);
    }
  }

  lemma OneLapOn(size: nat, m: nat)
    requires size > 0
    ensures (m + size) / size == m / size + 1 && (m + size) % size == m % size
  {
    var q, r := m / size, m % size;
    NextLap(size, q, r);
    assert m == q * size + r;
    DivMod(size, q + 1, r);
  }

  lemma NextLap(size: nat, q: nat, r: nat)
    ensures (q + 1) * size + r == q * size + r + size
  {
  }

  /** Going n on without passing the end of a lap. */
  lemma WithinLap(size: nat, m: nat, n: nat)
    requires size > 0 && m % size + n <= size
    ensures n > 0 ==> (m + n - 1) % size == m % size + n - 1
    ensures (m + n) % size == if m % size + n == size then 0 else m % size + n
  {
    var q, r := m / size, m % size;
    assert m == q * size + r;
    if n > 0 { DivMod(size, q, r + n - 1); }
    if r + n == size {
      NextLap(size, q, 0);
      DivMod(size, q + 1, 0);
    } else {
      DivMod(size, q, r + n);
    }
  }

  lemma SameResidue(size: nat, a: nat, b: nat)
    requires size > 0 && a % size == b % size
    ensures a / size == b / size ==> a == b
    ensures a != b ==> a - b >= size || b - a >= size
  {
    var qa, qb, r := a / size, b / size, a % size;
    assert a == size * qa + r && b == size * qb + r;
    if qa < qb { LapsApart(size, qa, qb, r); }
    if qb < qa { LapsApart(size, qb, qa, r); }
  }

  lemma LapsApart(size: nat, m: nat, n: nat, r: nat)
    requires m < n
    ensures size * n + r >= size * m + r + size
  {
    Scaled(size, m + 1, n);
  }
}
