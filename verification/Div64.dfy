/** Division of a 64-bit number by a constant through a reciprocal multiplication, as the 32-bit
    branch of `asm-generic/div64.h` does it.

    `p` is the power of two with `p < b < 2p`, and `P` abbreviates `p << 64`.  A reciprocal `m` is
    rounded up (`m * b` just above `P`) or rounded down (`m * b` just below `P`); the error is
    called `e`.  Everything below is about which of the two divides exactly. */
module Div64 {
  import opened Machine
  import opened Reciprocals

  /** Bits 63 and 31: when both are clear in `m`, the cross product cannot overflow. */
  const OVERFLOW_BITS: nat := U64 / 2 + U32 / 2

  // ---------------------------------------------------------------- the 64x64 high product

  lemma SplitProduct(m: nat, n: nat, mhi: nat, mlo: nat, nhi: nat, nlo: nat)
    requires m == mhi * U32 + mlo && n == nhi * U32 + nlo
    ensures m * n == mlo * nlo + U32 * (mlo * nhi + mhi * nlo) + U64 * (mhi * nhi)
  {
    assert m * n == (mhi * U32) * n + mlo * n;
    assert (mhi * U32) * n == U32 * (mhi * n);
    assert mhi * n == U32 * (mhi * nhi) + mhi * nlo;
    assert mlo * n == U32 * (mlo * nhi) + mlo * nlo;
  }

  function Mul(a: nat, b: nat): (r: nat) {
    MulBound(0, 0, a, b);
    a * b
  }

  /** The high word of `m * n + c` from the four partial products. */
  lemma HighWord(c: nat, ll: nat, lh: nat, hl: nat, hh: nat)
    ensures (c + (ll + U32 * (lh + hl) + U64 * hh)) / U64 == ((c + ll) / U32 + lh + hl) / U32 + hh
  {}

  lemma OverflowTest(m: nat)
    requires m < U64
    ensures And(m, OVERFLOW_BITS) == 0 <==> m < U64 / 2 && m % U32 < U32 / 2
  {
    WordSizes();
    TwoBitTest(m, 31, 63);
    TopBit(m, 63);
    ModBit(m, 32, 31);
    TopBit(m % U32, 31);
  }

  /** Semantics promised for `__arch_xprod_64`: the 128-bit product, biased or not, scaled down. */
  method ArchXprod64(m: nat, n: nat, bias: bool) returns (res: nat)
    requires m < U64 && n < U64
    ensures res == ((if bias then m else 0) + m * n) / U64
  {
    var mlo, mhi := m % U32, m / U32;
    var nlo, nhi := n % U32, n / U32;
    var ll, lh, hl, hh := Mul(mlo, nlo), Mul(mlo, nhi), Mul(mhi, nlo), Mul(mhi, nhi);
    OverflowTest(m);
    PartialProducts(m, n, mlo, mhi, nlo, nhi, ll, lh, hl, hh);
    HighWord(if bias then m else 0, ll, lh, hl, hh);
    res := SumPartials(m, bias, And(m, OVERFLOW_BITS) == 0, ll, lh, hl, hh);
  }

  lemma WrapCases(z: nat)
    requires z < 2 * U64
    ensures Wrap64(z) == if z < U64 then z else z - U64
  {}

  lemma DivShift(z: nat)
    requires z >= U64
    ensures (z - U64) / U32 == z / U32 - U32
  {}

  /** The carry idiom of the source: add in 64 bits, notice a wrapped sum by comparing it with an
      operand, and give the lost bit back after the shift by 32. */
  method AddHigh(x: nat, y: nat) returns (res: nat)
    requires x < U64 && y < U64
    ensures res == (x + y) / U32
  {
    WrapCases(x + y);
    res := Wrap64(x + y);
    var tmp := if res < x then U32 else 0;
    if x + y >= U64 { DivShift(x + y); }
    res := Wrap64(res / U32 + tmp);
  }

  /** `m` and the low product, shifted, leave room for one more product; with both overflow bits
      clear they leave room for two. */
  lemma SumBounds(c: nat, ll: nat, lh: nat, hl: nat)
    requires c < U64 && ll <= MAX_PRODUCT && lh <= MAX_PRODUCT
    ensures (c + ll) / U32 + lh < U64
    ensures c < U64 / 2 && ll <= HALF_PRODUCT && lh <= HALF_PRODUCT && hl <= HALF_PRODUCT ==>
              c + ll < U64 && (c + ll) / U32 + lh + hl < U64
  {}

  /** First half of the high product: the low product, biased or not, shifted down. */
  method LowStep(m: nat, bias: bool, safe: bool, ll: nat) returns (res: nat)
    requires m < U64 && ll <= MAX_PRODUCT
    requires safe ==> m < U64 / 2 && ll <= HALF_PRODUCT
    ensures res == ((if bias then m else 0) + ll) / U32
  {
    if !bias {
      res := ll / U32;
    } else if safe {
      res := Wrap64(m + ll) / U32;
    } else {
      res := AddHigh(m, ll);
    }
  }

  /** Second half: the two cross products, with or without carry handling. */
  method CrossStep(low: nat, safe: bool, lh: nat, hl: nat) returns (res: nat)
    requires low + lh < U64 && hl <= MAX_PRODUCT
    requires safe ==> low + lh + hl < U64
    ensures res == (low + lh + hl) / U32
  {
    res := Wrap64(low + lh);
    if safe {
      res := Wrap64(res + hl) / U32;
    } else {
      res := AddHigh(res, hl);
    }
  }

  method SumPartials(m: nat, bias: bool, safe: bool, ll: nat, lh: nat, hl: nat, hh: nat) returns (res: nat)
    requires m < U64
    requires ll <= MAX_PRODUCT && lh <= MAX_PRODUCT && hl <= MAX_PRODUCT && hh <= MAX_PRODUCT
    requires safe ==> m < U64 / 2 && ll <= HALF_PRODUCT && lh <= HALF_PRODUCT && hl <= HALF_PRODUCT
    requires (((if bias then m else 0) + ll) / U32 + lh + hl) / U32 + hh < U64
    ensures res == (((if bias then m else 0) + ll) / U32 + lh + hl) / U32 + hh
  {
    SumBounds(if bias then m else 0, ll, lh, hl);
    res := LowStep(m, bias, safe, ll);
    res := CrossStep(res, safe, lh, hl);
    res := Wrap64(res + hh);
  }

  /** The largest product of two 32-bit numbers, and of a 31-bit with a 32-bit number. */
  const MAX_PRODUCT: nat := (U32 - 1) * (U32 - 1)
  const HALF_PRODUCT: nat := (U32 / 2 - 1) * (U32 - 1)

  lemma PartialProducts(m: nat, n: nat, mlo: nat, mhi: nat, nlo: nat, nhi: nat,
                        ll: nat, lh: nat, hl: nat, hh: nat)
    requires m < U64 && n < U64
    requires mlo == m % U32 && mhi == m / U32 && nlo == n % U32 && nhi == n / U32
    requires ll == mlo * nlo && lh == mlo * nhi && hl == mhi * nlo && hh == mhi * nhi
    ensures m * n == ll + U32 * (lh + hl) + U64 * hh
    ensures ll <= MAX_PRODUCT && lh <= MAX_PRODUCT && hl <= MAX_PRODUCT && hh <= MAX_PRODUCT
    ensures m < U64 / 2 && mlo < U32 / 2 ==>
              ll <= HALF_PRODUCT && lh <= HALF_PRODUCT && hl <= HALF_PRODUCT
    ensures (m + m * n) / U64 < U64 && m * n / U64 < U64
  {
    SplitProduct(m, n, mhi, mlo, nhi, nlo);
    ProductBound(mlo, nlo, ll);
    ProductBound(mlo, nhi, lh);
    ProductBound(mhi, nlo, hl);
    ProductBound(mhi, nhi, hh);
    ProductFits(m, n);
  }

  lemma ProductBound(a: nat, b: nat, ab: int)
    requires a < U32 && b < U32 && ab == a * b
    ensures 0 <= ab <= MAX_PRODUCT
    ensures a < U32 / 2 || b < U32 / 2 ==> ab <= HALF_PRODUCT
  {
    MulBound(0, 0, a, b);
    MulBound(a, b, U32 - 1, U32 - 1);
    if a < U32 / 2 { MulBound(a, b, U32 / 2 - 1, U32 - 1); }
    if b < U32 / 2 { MulBound(a, b, U32 - 1, U32 / 2 - 1); }
  }

  lemma ProductFits(m: nat, n: nat)
    requires m < U64 && n < U64
    ensures (m + m * n) / U64 < U64 && m * n / U64 < U64
  {
    MulBound(m, n, U64 - 1, U64 - 1);
  }

  // ---------------------------------------------------------------- choosing the reciprocal

  /** `m` is `ceil((p << 64) / b)`, `p` the power of two below `b`. */
  ghost predicate RoundedUp(m: nat, p: nat, b: nat) {
    && p * U64 < m * b < p * U64 + b
    && p < b < 2 * p
    && U64 / 2 < m < U64
  }

  /** `m` is `floor((p << 64) / b)`. */
  ghost predicate RoundedDown(m: nat, p: nat, b: nat) {
    p * U64 - b < m * b < p * U64
  }

  lemma NotPowerFacts(b: nat)
    requires b >= 1 && !IsPow2(b)
    ensures b >= 3 && b != Pow2(Log2(b))
  {
    assert Pow2(0) == 1 && Pow2(1) == 2;
  }

  lemma PowerBelow(b: nat)
    requires 1 <= b < U32 && !IsPow2(b)
    ensures Pow2(Log2(b)) < b < 2 * Pow2(Log2(b))
    ensures 3 <= b && Log2(b) <= 31
    ensures 2 <= Pow2(Log2(b)) <= U32 / 2
  {
    NotPowerFacts(b);
    NonzeroHasBit(b);
    Log2Below32(b);
  }

  lemma Log2Below32(b: nat)
    requires 1 <= b < U32
    ensures Log2(b) <= 31 && Pow2(Log2(b)) <= U32 / 2
  {
    WordSizes();
    Log2Bound(b, 32);
    if Log2(b) < 31 { Pow2Monotone(Log2(b), 31); }
  }

  /** 2^64 split by `b`, and scaled by `p`. */
  lemma ScaledSplit(b: nat, p: nat)
    requires b > 0
    ensures (U64 - 1) / b * p * b + ((U64 - 1) % b + 1) * p == p * U64
  {
    var Q, R := (U64 - 1) / b, (U64 - 1) % b;
    assert U64 == Q * b + (R + 1);
    assert p * U64 == p * (Q * b) + p * (R + 1);
    assert p * (Q * b) == Q * p * b;
  }

  lemma CeilBounds(t: nat, b: nat)
    requires b > 0
    ensures t <= (t + b - 1) / b * b < t + b
    ensures t - b < t / b * b <= t
    ensures (t + b - 1) / b >= 0 && t / b >= 0
  {
    assert (t + b - 1) == b * ((t + b - 1) / b) + (t + b - 1) % b;
    assert t == b * (t / b) + t % b;
  }

  lemma NotDivisor(m: nat, b: nat, k: nat)
    requires !IsPow2(b)
    ensures m * b != Pow2(k)
  {
    if m * b == Pow2(k) { DivisorOfPow2(b, m, k); }
  }

  lemma ScaledPower(k: nat)
    ensures Pow2(k) * U64 == Pow2(k + 64)
  {
    WordSizes();
    Pow2Add(k, 64);
  }

  lemma ReciprocalTooLarge(m: nat, p: nat, b: nat)
    requires p < b < U32 && m >= U64
    ensures m * b >= p * U64 + b
  {
    MulBound(U64, p + 1, m, b);
  }

  lemma ReciprocalTooSmall(m: nat, p: nat, b: nat)
    requires b < 2 * p && b < U32 && m < U64 / 2
    ensures m * b <= p * U64 - b
  {
    MulBound(m + 1, b, U64 / 2, 2 * p);
    Distribute(m, 1, b);
  }

  /** Range of a rounded reciprocal: `m * b` near `p << 64` with `p < b < 2p` fixes the top bit. */
  lemma ReciprocalRange(m: nat, p: nat, b: nat)
    requires p < b < 2 * p && b < U32
    requires p * U64 - b < m * b < p * U64 + b
    ensures U64 / 2 <= m < U64
  {
    if m >= U64 { ReciprocalTooLarge(m, p, b); }
    if m < U64 / 2 { ReciprocalTooSmall(m, p, b); }
  }

  /** A reciprocal assembled from `Q * p` and a rounded fraction `f` of `t = (R + 1) * p`. */
  lemma ReciprocalParts(b: int, p: int, qp: int, t: int, f: int)
    requires 1 <= b < U32 && !IsPow2(b) && p == Pow2(Log2(b))
    requires qp == (U64 - 1) / b * p && t == ((U64 - 1) % b + 1) * p
    requires t - b < f * b < t + b && 0 <= f && 0 <= qp
    ensures (qp + f) * b != p * U64
    ensures p * U64 - b < (qp + f) * b < p * U64 + b
    ensures U64 / 2 < qp + f < U64 || (qp + f == U64 / 2 && (qp + f) * b < p * U64)
  {
    hide Pow2, Log2, IsPow2;
    PowerBelow(b);
    ScaledSplit(b, p);
    Distribute(qp, f, b);
    ReciprocalRange(qp + f, p, b);
    ScaledPower(Log2(b));
    NotDivisor(qp + f, b, Log2(b) + 64);
    HalfTooSmall(p, b);
  }

  lemma FractionFits(b: int, p: int, t: int)
    requires 1 <= b < U32 && !IsPow2(b) && p == Pow2(Log2(b))
    requires t == ((U64 - 1) % b + 1) * p
    ensures p <= t && t + b - 1 < U64
  {
    PowerBelow(b);
    var r := (U64 - 1) % b + 1;
    MulBound(r, p, U32 - 1, U32 / 2);
    MulBound(1, p, r, p);
  }

  lemma QuotientNonneg(x: nat, b: nat)
    requires b > 0
    ensures x / b >= 0
  {}

  method AddQuotient(base: nat, dividend: nat, b: nat) returns (m: nat)
    requires b > 0 && dividend < U64 && base + dividend / b < U64
    ensures m == base + dividend / b
  {
    hide Wrap64;
    WrapCases(dividend);
    QuotientNonneg(dividend, b);
    var q := Wrap64(dividend) / b;
    WrapCases(base);
    WrapCases(base + q);
    m := Wrap64(Wrap64(base) + q);
  }

  method ReciprocalUp(b: nat) returns (m: nat, p: nat)
    requires 1 <= b < U32 && !IsPow2(b)
    ensures p == Pow2(Log2(b)) && RoundedUp(m, p, b)
  {
    p := Pow2(Log2(b));
    var qp, t := Mul((U64 - 1) / b, p), Mul((U64 - 1) % b + 1, p);
    FractionFits(b, p, t);
    CeilBounds(t, b);
    UpFromParts(b, p, qp, t, (t + b - 1) / b);
    m := AddQuotient(qp, t + b - 1, b);
  }

  lemma UpFromParts(b: int, p: int, qp: int, t: int, f: int)
    requires 1 <= b < U32 && !IsPow2(b) && p == Pow2(Log2(b))
    requires qp == (U64 - 1) / b * p && t == ((U64 - 1) % b + 1) * p
    requires t <= f * b < t + b && 0 <= f && 0 <= qp
    ensures RoundedUp(qp + f, p, b)
  {
    PowerBelow(b);
    ReciprocalParts(b, p, qp, t, f);
    ScaledSplit(b, p);
    Distribute(qp, f, b);
  }

  lemma HalfTooSmall(p: nat, b: nat)
    requires b < 2 * p
    ensures U64 / 2 * b < p * U64
  {
    MulBound(U64 / 2, b, U64 / 2, 2 * p - 1);
  }

  method ReciprocalDown(b: nat) returns (m: nat)
    requires 1 <= b < U32 && !IsPow2(b)
    ensures RoundedDown(m, Pow2(Log2(b)), b) && m < U64
  {
    var p := Pow2(Log2(b));
    var qp, t := Mul((U64 - 1) / b, p), Mul((U64 - 1) % b + 1, p);
    FractionFits(b, p, t);
    CeilBounds(t, b);
    DownFromParts(b, p, qp, t, t / b);
    m := AddQuotient(qp, t, b);
  }

  lemma DownFromParts(b: int, p: int, qp: int, t: int, f: int)
    requires 1 <= b < U32 && !IsPow2(b) && p == Pow2(Log2(b))
    requires qp == (U64 - 1) / b * p && t == ((U64 - 1) % b + 1) * p
    requires t - b < f * b <= t && 0 <= f && 0 <= qp
    ensures RoundedDown(qp + f, p, b) && qp + f < U64
  {
    ReciprocalParts(b, p, qp, t, f);
    ScaledSplit(b, p);
    Distribute(qp, f, b);
  }

  /** The macro's own test product, computed on the way to a strategy. */
  method Probe(m: nat, x: nat, p: nat) returns (res: nat)
    requires m < U64 && x < U64 && p > 0
    ensures res == m * x / U64 / p
  {
    res := ProbeProductHigh(m, x);
    res := res / p;
  }

  method ProbeProductHigh(m: nat, x: nat) returns (res: nat)
    requires m < U64 && x < U64
    ensures res == m * x / U64
  {
    var mlo, mhi, xlo, xhi := m % U32, m / U32, x % U32, x / U32;
    var ll, lh, hl, hh := Mul(mlo, xlo), Mul(mlo, xhi), Mul(mhi, xlo), Mul(mhi, xhi);
    PartialProducts(m, x, mlo, mhi, xlo, xhi, ll, lh, hl, hh);
    HighWord(0, ll, lh, hl, hh);
    res := SumProbe(ll, lh, hl, hh);
  }

  method SumProbe(ll: nat, lh: nat, hl: nat, hh: nat) returns (res: nat)
    requires ll <= MAX_PRODUCT && lh <= MAX_PRODUCT && hl <= MAX_PRODUCT && hh <= MAX_PRODUCT
    requires (ll / U32 + lh + hl) / U32 + hh < U64
    ensures res == (ll / U32 + lh + hl) / U32 + hh
  {
    SumBounds(0, ll, lh, hl);
    res := CrossStep(ll / U32, false, lh, hl);
    res := Wrap64(res + hh);
  }

  /** What the generated code computes for dividend `n`: the biased or plain high product over `p`. */
  function Scaled(m: nat, n: nat, bias: bool, p: nat): nat
    requires p > 0
  {
    ProductsNonneg(m, n);
    ((if bias then m else 0) + m * n) / U64 / p
  }

  lemma ProductsNonneg(m: nat, n: nat)
    ensures m * n >= 0
  {
    MulBound(0, 0, m, n);
  }

  lemma ScaledIsQuotient(k: int, p: int)
    requires k >= 0 && p > 0
    ensures p * U64 > 0 && k / U64 / p == k / (p * U64)
  {
    DivDiv(k, U64, p);
  }

  /** The probe decides for all dividends.  Right at `x`, the rounded-up reciprocal is right for
      every 64-bit dividend; wrong at `x`, the rounded-down biased one is. */
  lemma ProbeDecides(b: nat, m: nat, p: nat, x: nat)
    requires 1 <= b < U32 && !IsPow2(b) && p == Pow2(Log2(b)) && RoundedUp(m, p, b)
    requires x == (U64 - 1) / b * b - 1
    ensures Scaled(m, x, false, p) == x / b <==>
              forall n: nat | n < U64 :: Scaled(m, n, false, p) == n / b
    ensures Scaled(m, x, false, p) != x / b ==>
              forall m': nat, n: nat | RoundedDown(m', p, b) && n < U64 ::
                Scaled(m', n, true, p) == n / b
  {
    hide Pow2, Log2, IsPow2, Scaled;
    PowerBelow(b);
    var e := m * b - p * U64;
    ProbeTells(b, m, p, e, x);
    if Scaled(m, x, false, p) == x / b {
      forall n: nat | n < U64 ensures Scaled(m, n, false, p) == n / b {
        UpWhenSmall(n, b, m, p, e);
      }
    } else {
      forall m': nat, n: nat | RoundedDown(m', p, b) && n < U64
        ensures Scaled(m', n, true, p) == n / b
      {
        DownWhenUpFails(n, b, m, m', p, e);
      }
    }
  }

  lemma ProbeTells(b: nat, m: nat, p: nat, e: int, x: int)
    requires 1 < b < U32 && 0 < p < b < 2 * p && RoundedUp(m, p, b) && e == m * b - p * U64
    requires x == (U64 - 1) / b * b - 1
    ensures 0 <= x < U64
    ensures Scaled(m, x, false, p) == x / b <==> (U64 - 1) / b * e < m
  {
    MulAtLeast(p, U64);
    ProbeMeansSmallError(b, m, p * U64, e, (U64 - 1) / b, x);
    ProductsNonneg(m, x);
    ScaledIsQuotient(m * x, p);
  }

  lemma UpWhenSmall(n: nat, b: nat, m: nat, p: nat, e: int)
    requires 1 < b < U32 && !IsPow2(b) && n < U64 && 0 < p < b < 2 * p && RoundedUp(m, p, b)
    requires e == m * b - p * U64 && (U64 - 1) / b * e < m
    ensures Scaled(m, n, false, p) == n / b
  {
    hide IsPow2;
    MulAtLeast(p, U64);
    RoundedUpExact(n, b, m, p * U64, e);
    ProductsNonneg(m, n);
    ScaledIsQuotient(m * n, p);
  }

  lemma DownWhenUpFails(n: nat, b: nat, m: nat, m': nat, p: nat, e: nat)
    requires 1 <= b < U32 && n < U64 && 0 < p && RoundedUp(m, p, b) && RoundedDown(m', p, b)
    requires e == m * b - p * U64 && (U64 - 1) / b * e >= m
    ensures Scaled(m', n, true, p) == n / b
  {
    var e' := p * U64 - m' * b;
    Neighbours(m, m', b, e, e');
    ErrorsAddUp(b, m, e, e', (U64 - 1) / b);
    MulAtLeast(p, U64);
    RoundedDownExact(n, b, m', p * U64, e');
    ProductsNonneg(m', n);
    ScaledIsQuotient(m' + m' * n, p);
  }

  /** The two roundings are one apart, and their errors add up to the divisor. */
  lemma Neighbours(m: int, m': int, b: int, e: int, e': int)
    requires b > 0 && m * b - e == m' * b + e' && 0 < e < b && 0 < e' < b
    ensures m == m' + 1 && e + e' == b
  {
    assert (m - m') * b == e + e';
    MulAtLeast(m - m', b);
    MulAtLeast(m - m' - 1, b);
    assert (m - m' - 1) * b == (m - m') * b - b;
  }

  lemma ErrorsAddUp(b: int, m: int, e: int, e': int, Q: int)
    requires b > 0 && e + e' == b && Q * e >= m && m > U64 / 2 && Q == (U64 - 1) / b
    ensures Q * e' <= m - 1
  {
    assert Q * e' == Q * b - Q * e;
    assert Q * b <= U64 - 1;
  }

  // ---------------------------------------------------------------- reducing the multiplier

  /** A rounded-up reciprocal has no more trailing zeros than its scale `p`. */
  lemma TrailingZerosBound(m: nat, p: nat, b: nat)
    requires 0 < b < U32 && p == Pow2(Log2(b)) && RoundedUp(m, p, b)
    ensures TrailingZeros(m) <= Log2(b)
  {
    hide Pow2, TrailingZeros, Log2, Shr, And;
    var s := TrailingZeros(m);
    WordSizes();
    LowestBit(m, 64);
    ShrExact(m, s);
    Pow2Divides(s, 64);
    ErrorMultiple(m, p, b, Pow2(s), Shr(m, s), Pow2(64 - s));
    Pow2Exponent(s, Log2(b));
  }

  lemma ErrorMultiple(m: int, p: int, b: int, s: int, m1: int, u: int)
    requires s > 0 && m == s * m1 && U64 == s * u && m * b - p * U64 > 0
    ensures m * b - p * U64 >= s
  {
    var k := m1 * b - p * u;
    assert m * b == s * (m1 * b);
    assert p * U64 == s * (p * u);
    assert m * b - p * U64 == s * k;
    MulAtLeast(k, s);
  }

  /** The `___bits` word: digit `j` is set when shifting by `j` is exact and clears digit 31. */
  lemma BitsMeaning(m: nat, s: nat, bits: nat, j: nat)
    requires m < U64 && s < 32 && j < 32
    requires bits == Wrap32(2 * (U32 - 1 - Or(Neg32(Pow2(s)), m / U32)))
    requires Or(Neg32(Pow2(s)), m / U32) < U32
    ensures Bit(bits, j) == (1 <= j <= s && !Bit(m, 31 + j))
  {
    hide Or, Pow2, Bit, Wrap32, Neg32, Shr;
    WordSizes();
    var b2 := Or(Neg32(Pow2(s)), m / U32);
    var y := U32 - 1 - b2;
    Wrap32Residue(2 * y);
    ModBit(2 * y, 32, j);
    DoubleBit(y, j);
    if j > 0 {
      NotBit(b2, 32, j - 1);
      OrBit(Neg32(Pow2(s)), m / U32, j - 1);
      NegativePower(s);
      NegPow2Bit(s, 32, j - 1);
      ShrDivides(m, 32);
      ShrBit(m, 32, j - 1);
    }
  }

  lemma DoubleBit(y: nat, j: nat)
    ensures Bit(2 * y, j) == (j > 0 && Bit(y, j - 1))
  {
    assert 2 * y / 2 == y;
  }

  lemma NegativePower(s: nat)
    requires s < 32
    ensures Neg32(Pow2(s)) == U32 - Pow2(s)
  {
    WordSizes();
    Pow2Monotone(s, 32);
  }

  lemma BitsFit(m: nat, s: nat)
    requires m < U64 && s < 32
    ensures Or(Neg32(Pow2(s)), m / U32) < U32
  {
    WordSizes();
    OrBound(Neg32(Pow2(s)), m / U32, 32);
  }

  /** A reduction by `d` removes the carry handling. */
  predicate AvoidsCarry(m: nat, d: nat) {
    And(Shr(m, d), OVERFLOW_BITS) == 0
  }

  /** Some shift that loses no set digit removes the carry handling. */
  ghost predicate CanAvoidCarry(m: nat)
    requires m > 0
  {
    exists k: nat :: k <= TrailingZeros(m) && AvoidsCarry(m, k)
  }

  lemma AvoidsCarryBits(m: nat, d: nat)
    requires U64 / 2 < m < U64
    ensures AvoidsCarry(m, d) <==> d >= 1 && !Bit(m, 31 + d) && !Bit(m, 63 + d)
    ensures d >= 1 ==> !Bit(m, 63 + d)
  {
    WordSizes();
    TwoBitTest(Shr(m, d), 31, 63);
    ShrBit(m, d, 31);
    ShrBit(m, d, 63);
    TopBit(m, 63);
    if d >= 1 { HighBitsClear(m, 64, 63 + d); }
  }

  /** The `___bits` word of the macro. */
  function ReductionBits(m: nat): (bits: nat)
    requires 0 < m < U64
  {
    var bits := Or(Neg32(And(m, Neg64(m))), m / U32);
    Wrap32(2 * (U32 - 1 - bits))
  }

  /** No exact shift by more than `d` avoids the carry handling. */
  ghost predicate NoLargerShift(m: nat, d: nat)
    requires m > 0
  {
    forall k: nat | k <= TrailingZeros(m) && AvoidsCarry(m, k) :: k <= d
  }

  /** When the word is zero no exact shift avoids the carry handling; otherwise its highest digit
      is the largest exact shift that does. */
  lemma BestReduction(m: nat)
    requires U64 / 2 < m < U64 && TrailingZeros(m) < 32
    ensures And(m, Neg64(m)) == Pow2(TrailingZeros(m))
    ensures ReductionBits(m) == 0 ==> !CanAvoidCarry(m)
    ensures ReductionBits(m) != 0 ==>
              Log2(ReductionBits(m)) <= TrailingZeros(m) && AvoidsCarry(m, Log2(ReductionBits(m)))
    ensures ReductionBits(m) != 0 ==> NoLargerShift(m, Log2(ReductionBits(m)))
  {
    hide And, Or, Bit, Log2, TrailingZeros, Pow2, Shr, Neg64;
    var s, bits := TrailingZeros(m), ReductionBits(m);
    WordSizes();
    LowestBit(m, 64);
    BitsFit(m, s);
    if bits == 0 {
      forall k: nat | k <= s ensures !AvoidsCarry(m, k) {
        AvoidsCarryBits(m, k);
        BitsMeaning(m, s, bits, k);
        BitOfZero(k);
      }
    } else {
      Log2Bound(bits, 32);
      NonzeroHasBit(bits);
      BitsMeaning(m, s, bits, Log2(bits));
      AvoidsCarryBits(m, Log2(bits));
      forall k: nat | k <= s && AvoidsCarry(m, k) ensures k <= Log2(bits) {
        AvoidsCarryBits(m, k);
        BitsMeaning(m, s, bits, k);
        BelowTopBit(bits, k);
      }
    }
  }

  lemma BelowTopBit(x: nat, k: nat)
    requires x > 0 && Bit(x, k)
    ensures k <= Log2(x)
  {
    NonzeroHasBit(x);
    if k > Log2(x) { HighBitsClear(x, Log2(x) + 1, k); }
  }

  lemma ExactShift(m: nat, p: nat, l: nat, d: nat)
    requires m > 0 && p == Pow2(l) && d <= TrailingZeros(m) && d <= l
    ensures m == Pow2(d) * Shr(m, d) && p == Pow2(d) * Shr(p, d) && Shr(p, d) >= 1
    ensures m / Pow2(d) == Shr(m, d) && p / Pow2(d) == Shr(p, d)
  {
    ShrExact(m, d);
    ShrDivides(m, d);
    ShrDivides(p, d);
    Pow2Divides(d, l);
  }

  /** Shifts `m` and `p` down together.  Nothing but zeros is shifted out, `p` stays at least one,
      and the carry handling is avoided whenever an exact shift can avoid it; the shift is the
      largest that does so, or else the largest exact one. */
  method Reduce(m: nat, p: nat, ghost b: nat) returns (m': nat, p': nat, ghost d: nat)
    requires 0 < b < U32 && p == Pow2(Log2(b)) && RoundedUp(m, p, b)
    ensures m == Pow2(d) * m' && p == Pow2(d) * p' && p' >= 1
    ensures m' == Shr(m, d) && d <= TrailingZeros(m)
    ensures CanAvoidCarry(m) ==> AvoidsCarry(m, d)
    ensures !CanAvoidCarry(m) ==> d == TrailingZeros(m)
    ensures NoLargerShift(m, d)
  {
    TrailingZerosBound(m, p, b);
    Log2Below32(b);
    BestReduction(m);
    var bits := ReductionBits(m);
    d := if bits == 0 then TrailingZeros(m) else Log2(bits);
    ExactShift(m, p, Log2(b), d);
    if bits == 0 {
      p' := p / And(m, Neg64(m));
      m' := m / And(m, Neg64(m));
    } else {
      p' := Shr(p, Log2(bits));
      m' := Shr(m, Log2(bits));
    }
  }

  /** Scaling multiplier and divisor by the same factor does not change the quotient. */
  lemma ReductionKeepsQuotient(m: nat, p: nat, m': nat, p': nat, D: nat, n: nat)
    requires D > 0 && p' > 0 && m == D * m' && p == D * p'
    ensures p > 0 && Scaled(m', n, false, p') == Scaled(m, n, false, p)
  {
    MulAtLeast(D, p');
    MulAtLeast(p', U64);
    ProductsNonneg(m, n);
    ProductsNonneg(m', n);
    ScaledIsQuotient(m * n, p);
    ScaledIsQuotient(m' * n, p');
    assert m * n == D * (m' * n);
    assert p * U64 == D * (p' * U64);
    DivCancel(m' * n, p' * U64, D);
  }

  lemma DivCancel(a: int, b: int, D: int)
    requires b > 0 && D > 0
    ensures D * b > 0 && D * a / (D * b) == a / b
  {
    var q, r := a / b, a % b;
    MulAtLeast(D, b);
    MulBound(0, 0, D, r);
    MulBound(D, r + 1, D, b);
    assert D * (r + 1) == D * r + D;
    assert D * a == D * (b * q) + D * r;
    assert D * (b * q) == q * (D * b);
    DivUnique(D * a, D * b, q, D * r);
  }

  // ---------------------------------------------------------------- the macros

  /** `b & -b` and the odd part of the divisor. */
  lemma OddPart(b: nat, low: nat)
    requires 0 < b < U32 && low == And(b, Neg32(b))
    ensures 0 < low <= b && b == low * (b / low) && b / low > 0
  {
    WordSizes();
    LowestBit(b, 32);
    var t := TrailingZeros(b);
    ShrExact(b, t);
    ShrDivides(b, t);
    PositiveFactors(b, low, b / low);
  }

  lemma PositiveFactors(b: int, x: int, y: int)
    requires b > 0 && b == x * y && x > 0
    ensures y > 0 && x <= b
  {
    MulAtLeast(y, x);
  }

  /** `__div64_const32`: exact division for every 64-bit dividend and every 32-bit divisor that is
      neither zero nor a power of two, through all three strategies. */
  method Div64Const32(n: nat, b: nat) returns (res: nat)
    requires n < U64 && 0 < b < U32 && !IsPow2(b)
    ensures res == n / b
  {
    hide And, Pow2, Log2, IsPow2, Neg32, CanAvoidCarry, AvoidsCarry, TrailingZeros, Shr;
    PowerBelow(b);
    var m, p := ReciprocalUp(b);
    var x := Mul((U64 - 1) / b, b) - 1;
    ProbeInRange(b, x);
    ProbeDecides(b, m, p, x);
    var probe := Probe(m, x, p);
    var low := And(b, Neg32(b));
    OddPart(b, low);
    if (U64 - 1) % (b / low) == 0 {
      res := SpecialStrategy(n, b, low);
    } else if probe != x / b {
      m := ReciprocalDown(b);
      assert Scaled(m, n, true, p) == n / b;
      res := ArchXprod64(m, n, true);
      res := res / p;
    } else {
      assert Scaled(m, n, false, p) == n / b;
      ghost var m0, p0 := m, p;
      ghost var d;
      m, p, d := Reduce(m, p, b);
      ReductionKeepsQuotient(m0, p0, m, p, Pow2(d), n);
      MulBound(1, m, Pow2(d), m);
      res := ArchXprod64(m, n, false);
      res := res / p;
    }
  }

  lemma ProbeInRange(b: nat, x: int)
    requires 1 < b < U32 && x == (U64 - 1) / b * b - 1
    ensures 0 <= x < U64
  {
    QuotientAtLeast(U64 - 1, b, 1);
    MulAtLeast((U64 - 1) / b, b);
  }

  method SpecialStrategy(n: nat, b: nat, low: nat) returns (res: nat)
    requires n < U64 && 0 < b < U32 && 0 < low && b == low * (b / low) && b / low > 0
    requires (U64 - 1) % (b / low) == 0
    ensures res == n / b
  {
    var c := b / low;
    QuotientAtMostSelf(n, low);
    var n' := n / low;
    QuotientAtMostSelf(U64 - 1, c);
    var m := (U64 - 1) / c;
    assert m * c == U64 - 1;
    SpecialExact(n', c, m);
    DivDiv(n, low, c);
    res := ArchXprod64(m, n', true);
  }

  lemma QuotientAtMostSelf(n: nat, d: nat)
    requires d > 0
    ensures 0 <= n / d <= n
  {
    MulBound(n / d, 1, n / d, d);
  }

  /** Where `do_div` ends: with quotient and remainder, or in the out-of-line `__div64_32`. */
  datatype Outcome = Divided(quotient: nat, remainder: nat) | OutOfLine

  /** `do_div` on a 32-bit machine; `isConstant` is what the compiler answers about the divisor. */
  method DoDiv(n: nat, base: nat, isConstant: bool) returns (r: Outcome)
    requires n < U64 && 0 < base < U32
    ensures r.OutOfLine? <==> !isConstant && n >= U32
    ensures r.Divided? ==>
              r.quotient == n / base && r.remainder == n % base
  {
    QuotientAtMostSelf(n, base);
    if isConstant && And(base, base - 1) == 0 {
      MaskAndShift(n, base);
      r := Divided(Shr(n, Log2(base)), And(n, base - 1));
    } else if isConstant {
      PowerOfTwoTest(base);
      NotAPower(base);
      var q := Div64Const32(n, base);
      LowWordRemainder(n, q, base);
      r := Divided(q, Wrap32(Wrap32(n) - Wrap32(Mul(Wrap32(q), base))));
    } else if n / U32 == 0 {
      r := Divided(n / base, n % base);
    } else {
      r := OutOfLine;
    }
  }

  lemma MaskAndShift(n: nat, base: nat)
    requires base > 0 && And(base, base - 1) == 0
    ensures Shr(n, Log2(base)) == n / base && And(n, base - 1) == n % base
  {
    PowerOfTwoTest(base);
    AndMask(n, Log2(base));
    ShrDivides(n, Log2(base));
  }

  lemma NotAPower(b: nat)
    requires b > 0 && b != Pow2(Log2(b))
    ensures !IsPow2(b)
  {
    if IsPow2(b) {
      var k: nat :| b == Pow2(k);
      Log2Unique(k);
    }
  }

  /** The remainder needs only the low words. */
  lemma LowWordRemainder(n: nat, q: nat, b: nat)
    requires 0 < b < U32 && q == n / b
    ensures Wrap32(Wrap32(n) - Wrap32(Wrap32(q) * b)) == n % b
  {
    Wrap32Residue(q);
    var r, k := n % b, Wrap32(q) * b;
    assert n == b * q + r;
    assert q == U32 * (q / U32) + Wrap32(q);
    assert b * q == U32 * (b * (q / U32)) + k by {
      assert b * (U32 * (q / U32)) == U32 * (b * (q / U32));
    }
    WrapDifference(n, k, b * (q / U32), r);
  }

  lemma WrapDifference(n: int, k: int, c: int, r: int)
    requires n == U32 * c + k + r && 0 <= r < U32
    ensures Wrap32(Wrap32(n) - Wrap32(k)) == r
  {
    Wrap32Residue(n);
    Wrap32Residue(k);
    Wrap32Residue(Wrap32(n) - Wrap32(k));
    var i, j := n / U32, k / U32;
    DivUnique(Wrap32(n) - Wrap32(k), U32, c + j - i, r);
  }
}
