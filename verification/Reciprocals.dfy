/** When multiplying by a rounded reciprocal divides exactly: for every 64-bit dividend, by how large
    the rounding error is. */
module Reciprocals {
  import opened Machine

  lemma MulBound(a: nat, b: nat, x: nat, y: nat)
    requires a <= x && b <= y
    ensures a * b <= x * y
  {
    assert (x - a) * b >= 0 && x * (y - b) >= 0;
    assert x * y - a * b == (x - a) * b + x * (y - b);
  }

  lemma Distribute(x: int, y: int, b: int)
    ensures (x + y) * b == x * b + y * b
  {}

  /** A divisor of a power of two is a power of two. */
  lemma {:induction false} DivisorOfPow2(b: nat, m: nat, k: nat)
    requires m * b == Pow2(k)
    ensures IsPow2(b)
    decreases k
  {
    if k == 0 {
      if b > 1 && m > 0 { MulBound(1, 2, m, b); }
      assert b == Pow2(0);
    } else if b % 2 == 0 {
      HalfProduct(m, b);
      DivisorOfPow2(b / 2, m, k - 1);
      var j: nat :| b / 2 == Pow2(j);
      assert b == Pow2(j + 1);
    } else {
      OddProduct(m, b);
      HalfProduct(b, m);
      DivisorOfPow2(b, m / 2, k - 1);
    }
  }

  lemma HalfProduct(m: nat, b: nat)
    requires b % 2 == 0
    ensures m * b == 2 * (m * (b / 2))
  {
    assert b == 2 * (b / 2);
    DoubleProduct(b / 2, m);
  }

  lemma OddProduct(m: nat, b: nat)
    requires b % 2 == 1 && m * b % 2 == 0
    ensures m % 2 == 0
  {
    if m % 2 == 1 {
      var i, j := m / 2, b / 2;
      assert m * b == 2 * (i * b) + b by { assert m == 2 * i + 1; DoubleProduct(i, b); }
    }
  }

  /** Quotient and remainder of the dividends `qb + b - 1`, the hardest ones: `q` stops one short
      of the largest quotient because `b` does not divide 2^64. */
  lemma LastRemainder(n: nat, b: nat)
    requires 0 < b && n < U64 && !IsPow2(b) && n % b == b - 1
    ensures n / b + 1 <= (U64 - 1) / b
  {
    var q := n / b;
    assert (q + 1) * b == n + 1 by { assert n == b * q + (b - 1); }
    if n + 1 == U64 {
      WordSizes();
      DivisorOfPow2(b, q + 1, 64);
      assert false;
    }
    QuotientAtLeast(U64 - 1, b, q + 1);
  }

  lemma QuotientAtLeast(n: nat, b: nat, q: nat)
    requires b > 0 && q * b <= n
    ensures n / b >= q
  {
    var k := n / b;
    MulAtLeast(q - k, b);
    assert (q - k) * b == q * b - b * k;
  }

  lemma QuotientAtMost(n: nat, b: nat, top: nat)
    requires b > 0 && n <= top
    ensures n / b <= top / b
  {
    assert n == b * (n / b) + n % b;
    QuotientAtLeast(top, b, n / b);
  }

  /** The rounded-up reciprocal divides every 64-bit number once `Q * e < m` for the largest
      quotient `Q`. */
  lemma RoundedUpExact(n: nat, b: nat, m: nat, P: nat, e: nat)
    requires 0 < b <= m && n < U64 && !IsPow2(b)
    requires m * b == P + e && 0 < e < b && P > 0
    requires (U64 - 1) / b * e < m
    ensures m * n / P == n / b
  {
    hide IsPow2;
    QuotientAndRemainder(n, b);
    QuotientAtMost(n, b, U64 - 1);
    if n % b == b - 1 { LastRemainder(n, b); }
    UpQuotient(n, b, m, P, e, (U64 - 1) / b, n / b, n % b);
  }

  lemma QuotientAndRemainder(n: nat, b: nat)
    requires b > 0
    ensures n == b * (n / b) + n % b && 0 <= n % b < b && n / b >= 0
  {}

  lemma UpQuotient(n: int, b: int, m: int, P: int, e: int, Q: int, q: int, r: int)
    requires 0 < b <= m && m * b == P + e && 0 < e < b && P > 0 && Q * e < m
    requires n == b * q + r && 0 <= r < b && 0 <= q
    requires if r == b - 1 then q + 1 <= Q else q <= Q
    ensures m * n / P == q
  {
    UpRemainder(n, b, m, P, e, q, r);
    if r == b - 1 { LastSmall(b, m, P, e, Q, q); } else { OtherSmall(b, m, P, e, Q, q, r); }
    DivUnique(m * n, P, q, q * e + m * r);
  }

  lemma LastSmall(b: int, m: int, P: int, e: int, Q: int, q: int)
    requires 0 < b <= m && m * b == P + e && 0 < e < b && Q * e < m && 0 <= q < Q
    ensures 0 <= q * e + m * (b - 1) < P
  {
    MulBound(q + 1, e, Q, e);
    Distribute(q, 1, e);
    MulBound(0, 0, q, e);
    assert m * (b - 1) == m * b - m;
    MulBound(0, 0, m, b - 1);
  }

  lemma OtherSmall(b: int, m: int, P: int, e: int, Q: int, q: int, r: int)
    requires 0 < b <= m && m * b == P + e && 0 < e < b && Q * e < m && 0 <= q <= Q && 0 <= r < b - 1
    ensures 0 <= q * e + m * r < P
  {
    MulBound(q, e, Q, e);
    MulBound(m, r + 2, m, b);
    assert m * (r + 2) == m * r + 2 * m;
    MulBound(0, 0, q, e);
    MulBound(0, 0, m, r);
  }

  lemma UpRemainder(n: int, b: int, m: int, P: int, e: int, q: int, r: int)
    requires n == b * q + r && m * b == P + e
    ensures m * n == q * P + (q * e + m * r)
  {
    assert m * n == m * (q * b) + m * r;
    assert m * (q * b) == q * (m * b);
    assert q * (m * b) == q * P + q * e;
  }

  /** The probe: the rounded-up reciprocal is right at `x = Q * b - 1` exactly when `Q * e < m`. */
  lemma ProbeMeansSmallError(b: nat, m: nat, P: nat, e: nat, Q: nat, x: int)
    requires 1 < b < U32 && m * b == P + e && 0 < e < b && b <= m <= P
    requires Q == (U64 - 1) / b && x == Q * b - 1
    ensures 0 <= x < U64 && x / b == Q - 1
    ensures m * x / P == x / b <==> Q * e < m
  {
    QuotientAtLeast(U64 - 1, b, 1);
    MulAtLeast(Q, b);
    DivUnique(x, b, Q - 1, b - 1);
    ProbeProduct(m, b, P, e, Q);
    MulBound(0, 0, Q, e);
    ProbeQuotient(m * x, m, P, Q, Q * e);
  }

  lemma ProbeProduct(m: int, b: int, P: int, e: int, Q: int)
    requires m * b == P + e
    ensures m * (Q * b - 1) == Q * P + Q * e - m
  {
    assert m * (Q * b) == Q * (m * b);
    assert Q * (m * b) == Q * P + Q * e;
  }

  lemma ProbeQuotient(mx: int, m: int, P: int, Q: int, err: int)
    requires 0 < m <= P && 0 <= err && Q >= 1 && mx == Q * P + err - m
    ensures mx / P == Q - 1 <==> err < m
  {
    if err < m {
      DivUnique(mx, P, Q - 1, P + err - m);
    } else {
      MulAtLeast(Q, P);
      QuotientAtLeast(mx, P, Q);
    }
  }

  /** The rounded-down reciprocal with a bias divides every 64-bit number when the rounded-up one
      fails its probe. */
  lemma RoundedDownExact(n: nat, b: nat, m: nat, P: nat, e: nat)
    requires 0 < b && n < U64 && m * b == P - e && 0 < e < b && P > 0
    requires (U64 - 1) / b * e <= m
    ensures (m + m * n) / P == n / b
  {
    QuotientAtMost(n, b, U64 - 1);
    DownQuotient(n, b, m, P, e, (U64 - 1) / b, n / b, n % b);
  }

  lemma DownQuotient(n: int, b: int, m: int, P: int, e: int, Q: int, q: int, r: int)
    requires 0 <= m && m * b == P - e && 0 < e && P > 0 && Q * e <= m
    requires n == b * q + r && 0 <= r < b && 0 <= q <= Q
    ensures (m + m * n) / P == q
  {
    DownRemainder(n, b, m, P, e, q, r);
    MulBound(q, e, Q, e);
    MulBound(m, 1, m, r + 1);
    MulBound(m, r + 1, m, b);
    MulBound(0, 0, q, e);
    DivUnique(m + m * n, P, q, m * (r + 1) - q * e);
  }

  lemma DownRemainder(n: int, b: int, m: int, P: int, e: int, q: int, r: int)
    requires n == b * q + r && m * b == P - e
    ensures m + m * n == q * P + (m * (r + 1) - q * e)
  {
    assert m + m * n == m * (q * b) + m * (r + 1);
    assert m * (q * b) == q * (m * b);
    assert q * (m * b) == q * P - q * e;
  }

  /** When the odd part `c` of the divisor divides 2^64 - 1, the biased reciprocal of `c` alone is
      exact. */
  lemma SpecialExact(n: nat, c: nat, m: nat)
    requires 0 < c && n < U64 && m * c == U64 - 1
    ensures (m + m * n) / U64 == n / c
  {
    QuotientAtMost(n, c, U64 - 1);
    DivMulExact(c, m);
    DownQuotient(n, c, m, U64, 1, m, n / c, n % c);
  }
}
