/** Fixed-width unsigned arithmetic and bitwise operators on natural numbers.

    C's unsigned integers are modelled as natural numbers below a power of two, with every
    truncation written out.  The bitwise operators are defined one binary digit at a time, and
    each is tied to `Bit`, the digit of a number at a given position. */
module Machine {

  const U32: nat := 0x1_0000_0000
  const U64: nat := 0x1_0000_0000_0000_0000

  /** Truncation to 32 bits: whole turns of 2^32 are taken off or added. */
  function Wrap32(x: int): (r: nat)
    ensures r < U32
    decreases x < 0, if x < 0 then -x else x
  {
    if x < 0 then Wrap32(x + U32) else if x < U32 then x else Wrap32(x - U32)
  }

  function Wrap64(x: int): (r: nat)
    ensures r < U64
    decreases x < 0, if x < 0 then -x else x
  {
    if x < 0 then Wrap64(x + U64) else if x < U64 then x else Wrap64(x - U64)
  }

  lemma Wrap32Small(x: nat)
    requires x < U32
    ensures Wrap32(x) == x
  {}

  /** Truncation is the residue. */
  lemma {:induction false} Wrap32Residue(x: int)
    ensures Wrap32(x) == x % U32
    decreases x < 0, if x < 0 then -x else x
  {
    if x < 0 { Wrap32Residue(x + U32); } else if x >= U32 { Wrap32Residue(x - U32); }
  }

  /** Unary minus on an unsigned word. */
  function Neg32(x: nat): (r: nat)
    ensures r < U32
    ensures 0 < x < U32 ==> r == U32 - x
  {
    assert 0 < x < U32 ==> Wrap32(U32 - x) == U32 - x;
    Wrap32(0 - x)
  }

  function Neg64(x: nat): (r: nat)
    ensures r < U64
    ensures 0 < x < U64 ==> r == U64 - x
  {
    assert 0 < x < U64 ==> Wrap64(U64 - x) == U64 - x;
    Wrap64(0 - x)
  }

  function Min(a: int, b: int): (r: int)
    ensures r <= a && r <= b && (r == a || r == b)
  {
    if a < b then a else b
  }

  function Pow2(k: nat): (r: nat)
    ensures r >= 1
  {
    if k == 0 then 1 else 2 * Pow2(k - 1)
  }

  /** The binary digit of `x` with weight `Pow2(j)`. */
  predicate Bit(x: nat, j: nat)
    decreases j
  {
    if j == 0 then x % 2 == 1 else Bit(x / 2, j - 1)
  }

  function And(a: nat, b: nat): nat
  {
    if a == 0 || b == 0 then 0
    else 2 * And(a / 2, b / 2) + if a % 2 == 1 && b % 2 == 1 then 1 else 0
  }

  function Or(a: nat, b: nat): nat
    decreases a + b
  {
    if a == 0 && b == 0 then 0
    else 2 * Or(a / 2, b / 2) + if a % 2 == 1 || b % 2 == 1 then 1 else 0
  }

  /** `x >> d`: the digits from position `d` upward. */
  function Shr(x: nat, d: nat): nat
    decreases d
  {
    if d == 0 then x else Shr(x / 2, d - 1)
  }

  /** Number of zero digits below the lowest set digit. */
  function TrailingZeros(x: nat): nat
    requires x > 0
  {
    if x % 2 == 1 then 0 else 1 + TrailingZeros(x / 2)
  }

  /** `ilog2`: position of the highest set digit. */
  function Log2(x: nat): nat
    requires x > 0
  {
    if x == 1 then 0 else 1 + Log2(x / 2)
  }

  ghost predicate IsPow2(x: nat) {
    exists k: nat :: x == Pow2(k)
  }

  /** `n * e`, the size of `n` elements of `e` bytes, as a sum. */
  function Bytes(n: nat, e: nat): (r: nat)
    ensures e >= 1 ==> r >= n
  {
    if n == 0 then 0 else Bytes(n - 1, e) + e
  }

  lemma {:induction false} BytesProduct(n: nat, e: nat)
    ensures Bytes(n, e) == n * e
  {
    if n > 0 {
      BytesProduct(n - 1, e);
      assert n * e == (n - 1) * e + e;
    }
  }

  lemma {:induction false} BytesAdd(a: nat, b: nat, e: nat)
    ensures Bytes(a + b, e) == Bytes(a, e) + Bytes(b, e)
    decreases b
  {
    if b > 0 { BytesAdd(a, b - 1, e); }
  }

  lemma BytesZero(e: nat)
    ensures Bytes(0, e) == 0
  {}

  /** More elements are more bytes. */
  lemma BytesOrder(a: nat, b: nat, e: nat)
    requires e >= 1
    ensures a <= b <==> Bytes(a, e) <= Bytes(b, e)
  {
    if a <= b { BytesAdd(a, b - a, e); } else { BytesAdd(b, a - b, e); }
  }

  // ---------------------------------------------------------------- powers of two

  lemma {:induction false} Pow2Add(a: nat, b: nat)
    ensures Pow2(a + b) == Pow2(a) * Pow2(b)
  {
    if a > 0 {
      Pow2Add(a - 1, b);
      DoubleProduct(Pow2(a - 1), Pow2(b));
    }
  }

  lemma DoubleProduct(a: int, b: int)
    ensures 2 * (a * b) == (2 * a) * b
  {}

  lemma {:induction false} Pow2Monotone(a: nat, b: nat)
    requires a < b
    ensures 2 * Pow2(a) <= Pow2(b)
    decreases b
  {
    if a < b - 1 { Pow2Monotone(a, b - 1); }
  }

  /** A smaller power of two divides a larger one. */
  lemma Pow2Divides(a: nat, b: nat)
    requires a <= b
    ensures Pow2(b) == Pow2(a) * Pow2(b - a)
    ensures Pow2(b) % Pow2(a) == 0
    ensures Pow2(b) / Pow2(a) == Pow2(b - a)
  {
    Pow2Add(a, b - a);
    DivMulExact(Pow2(a), Pow2(b - a));
  }

  lemma Pow2Exponent(a: nat, b: nat)
    requires Pow2(a) < 2 * Pow2(b)
    ensures a <= b
  {
    if a > b { Pow2Monotone(b, a); }
  }

  // ---------------------------------------------------------------- division

  lemma MulAtLeast(k: int, d: int)
    requires d > 0
    ensures k >= 1 ==> k * d >= d
    ensures k <= -1 ==> k * d <= -d
  {}

  lemma DivUnique(n: int, d: int, q: int, r: int)
    requires d > 0 && n == q * d + r && 0 <= r < d
    ensures n / d == q && n % d == r
  {
    QuotientUnique(d, n / d, n % d, q, r);
  }

  lemma QuotientUnique(d: int, q: int, r: int, q': int, r': int)
    requires d > 0 && d * q + r == q' * d + r' && 0 <= r < d && 0 <= r' < d
    ensures q == q' && r == r'
  {
    MulAtLeast(q - q', d);
    assert (q - q') * d == r' - r;
  }

  lemma DivMulExact(d: int, q: int)
    requires d > 0
    ensures (d * q) / d == q && (d * q) % d == 0
  {
    DivUnique(d * q, d, q, 0);
  }

  lemma ModMultiple(n: int, d: int, k: int)
    requires d > 0
    ensures (n + k * d) % d == n % d
  {
    var q := n / d;
    assert n + k * d == (q + k) * d + n % d by { assert (q + k) * d == q * d + k * d; }
    DivUnique(n + k * d, d, q + k, n % d);
  }

  lemma DivDiv(n: nat, a: nat, b: nat)
    requires a > 0 && b > 0
    ensures a * b > 0
    ensures n / a / b == n / (a * b)
  {
    MulAtLeast(a, b);
    DivDivParts(n, a, b, a * b, n / a, n / a / b, n / a % b, n % a);
  }

  lemma DivDivParts(n: int, a: int, b: int, d: int, m: int, q: int, r: int, s: int)
    requires d == a * b && n == a * m + s && m == b * q + r && 0 <= r < b && 0 <= s < a && d > 0
    ensures n / d == q
  {
    assert a * m == q * d + a * r by { assert a * (b * q) == q * (a * b); }
    ScaledRemainder(a, b, r, s);
    DivUnique(n, d, q, a * r + s);
  }

  lemma ScaledRemainder(a: int, b: int, r: int, s: int)
    requires 0 <= r < b && 0 <= s < a
    ensures 0 <= a * r + s < a * b
  {
    var t := b - 1 - r;
    ProductNonneg(a, t);
    ProductNonneg(a, r);
    SumTimes(a, t, r);
    assert b == t + r + 1;
  }

  lemma ProductNonneg(x: int, y: int)
    requires x >= 0 && y >= 0
    ensures x * y >= 0
  {}

  lemma SumTimes(a: int, t: int, r: int)
    ensures a * (t + r + 1) == a * t + a * r + a
  {}

  /** Reducing modulo a multiple of `d` first does not change the residue modulo `d`. */
  lemma ModMod(n: int, d: int, k: int)
    requires d > 0 && k > 0
    ensures d * k > 0
    ensures n % (d * k) % d == n % d
  {
    assert d * k > 0;
    var q := n / (d * k);
    assert n == (d * k) * q + n % (d * k);
    assert (d * k) * q == (k * q) * d;
    ModMultiple(n % (d * k), d, k * q);
  }

  lemma WordSizes()
    ensures Pow2(31) == U32 / 2 && Pow2(32) == U32
    ensures Pow2(63) == U64 / 2 && Pow2(64) == U64
  {
    Pow2Value(0, 1);
    Pow2Value(8, 256);
    Pow2Value(16, 0x1_0000);
    Pow2Value(24, 0x100_0000);
    Pow2Value(32, 0x1_0000_0000);
    Pow2Value(40, 0x100_0000_0000);
    Pow2Value(48, 0x1_0000_0000_0000);
    Pow2Value(56, 0x100_0000_0000_0000);
  }

  lemma Pow2Value(k: nat, v: nat)
    requires Pow2(k) == v
    ensures Pow2(k + 8) == 256 * v && Pow2(k + 8 - 1) == 128 * v
  {
    assert Pow2(k + 4) == 16 * v by { assert Pow2(k + 2) == 4 * v; }
    assert Pow2(k + 6) == 64 * v;
    assert Pow2(k + 7) == 128 * v;
  }

  lemma Wrap32Mod(n: int, k: nat)
    requires k <= 32
    ensures Wrap32(n) % Pow2(k) == n % Pow2(k)
  {
    Wrap32Residue(n);
    var d, e := Pow2(k), Pow2(32 - k);
    assert U32 == d * e by { Pow2Divides(k, 32); WordSizes(); }
    ModMod(n, d, e);
  }

  /** A right shift divides. */
  lemma {:induction false} ShrDivides(x: nat, d: nat)
    ensures Shr(x, d) == x / Pow2(d)
    decreases d
  {
    if d > 0 {
      ShrDivides(x / 2, d - 1);
      DivDiv(x, 2, Pow2(d - 1));
    }
  }

  // ---------------------------------------------------------------- digits

  lemma AndDigits(a: nat, b: nat)
    ensures And(a, b) / 2 == And(a / 2, b / 2)
    ensures And(a, b) % 2 == 1 <==> a % 2 == 1 && b % 2 == 1
  {}

  lemma {:induction false} AndBit(a: nat, b: nat, j: nat)
    ensures Bit(And(a, b), j) == (Bit(a, j) && Bit(b, j))
    decreases j
  {
    AndDigits(a, b);
    if j > 0 { AndBit(a / 2, b / 2, j - 1); }
  }

  lemma OrDigits(a: nat, b: nat)
    ensures Or(a, b) / 2 == Or(a / 2, b / 2)
    ensures Or(a, b) % 2 == 1 <==> a % 2 == 1 || b % 2 == 1
  {}

  lemma {:induction false} OrBit(a: nat, b: nat, j: nat)
    ensures Bit(Or(a, b), j) == (Bit(a, j) || Bit(b, j))
    decreases j
  {
    OrDigits(a, b);
    if j > 0 { OrBit(a / 2, b / 2, j - 1); }
  }

  lemma {:induction false} OrBound(a: nat, b: nat, w: nat)
    requires a < Pow2(w) && b < Pow2(w)
    ensures Or(a, b) < Pow2(w)
    decreases w
  {
    if w > 0 && a + b > 0 { OrBound(a / 2, b / 2, w - 1); }
  }

  lemma {:induction false} BitOfZero(j: nat)
    ensures !Bit(0, j)
    decreases j
  {
    if j > 0 { BitOfZero(j - 1); }
  }

  /** Complement within `w` digits flips every one of them. */
  lemma {:induction false} NotBit(x: nat, w: nat, j: nat)
    requires x < Pow2(w) && j < w
    ensures Bit(Pow2(w) - 1 - x, j) == !Bit(x, j)
    decreases j
  {
    assert (Pow2(w) - 1 - x) / 2 == Pow2(w - 1) - 1 - x / 2;
    if j > 0 { NotBit(x / 2, w - 1, j - 1); }
  }

  lemma {:induction false} ShrBit(x: nat, d: nat, j: nat)
    ensures Bit(Shr(x, d), j) == Bit(x, j + d)
    decreases d
  {
    if d > 0 { ShrBit(x / 2, d - 1, j); }
  }

  /** Truncation to `w` digits keeps the digits below `w`. */
  lemma {:induction false} ModBit(x: nat, w: nat, j: nat)
    requires j < w
    ensures Bit(x % Pow2(w), j) == Bit(x, j)
    decreases j
  {
    HalfMod(x, w);
    if j > 0 { ModBit(x / 2, w - 1, j - 1); }
  }

  lemma HalfMod(x: nat, w: nat)
    requires w > 0
    ensures x % Pow2(w) == 2 * (x / 2 % Pow2(w - 1)) + x % 2
    ensures x % Pow2(w) / 2 == x / 2 % Pow2(w - 1)
    ensures x % Pow2(w) % 2 == x % 2
  {
    var p := Pow2(w - 1);
    var q, r := x / 2 / p, x / 2 % p;
    assert x == q * (2 * p) + (2 * r + x % 2) by {
      assert x / 2 == p * q + r;
      assert 2 * (p * q) == q * (2 * p);
    }
    DivUnique(x, 2 * p, q, 2 * r + x % 2);
  }

  /** Below `Pow2(j + 1)`, digit `j` is set exactly when the number reaches its weight. */
  lemma {:induction false} TopBit(x: nat, j: nat)
    requires x < Pow2(j + 1)
    ensures Bit(x, j) == (x >= Pow2(j))
    decreases j
  {
    if j > 0 { TopBit(x / 2, j - 1); }
  }

  lemma {:induction false} HighBitsClear(x: nat, w: nat, j: nat)
    requires x < Pow2(w) && w <= j
    ensures !Bit(x, j)
    decreases w
  {
    if w == 0 { BitOfZero(j); } else { HighBitsClear(x / 2, w - 1, j - 1); }
  }

  lemma {:induction false} Pow2Bit(s: nat, j: nat)
    ensures Bit(Pow2(s), j) == (j == s)
    decreases j
  {
    if s == 0 && j > 0 { BitOfZero(j - 1); }
    if s > 0 && j > 0 { Pow2Bit(s - 1, j - 1); }
  }

  lemma {:induction false} NonzeroHasBit(x: nat)
    requires x > 0
    ensures Bit(x, Log2(x))
    ensures Pow2(Log2(x)) <= x < Pow2(Log2(x) + 1)
    decreases x
  {
    if x > 1 { NonzeroHasBit(x / 2); }
  }

  lemma Log2Bound(x: nat, w: nat)
    requires 0 < x < Pow2(w)
    ensures Log2(x) < w
  {
    NonzeroHasBit(x);
    if Log2(x) >= w {
      if Log2(x) > w { Pow2Monotone(w, Log2(x)); }
    }
  }

  /** The digits from `s` upward: the two's complement of `Pow2(s)` within `w` digits. */
  lemma NegPow2Bit(s: nat, w: nat, j: nat)
    requires s <= w && j < w
    ensures Pow2(s) <= Pow2(w)
    ensures Bit(Pow2(w) - Pow2(s), j) == (j >= s)
  {
    if s < w { Pow2Monotone(s, w); }
    var low := Pow2(s) - 1;
    NotBit(low, w, j);
    LowOnesBit(s, j);
  }

  lemma {:induction false} LowOnesBit(s: nat, j: nat)
    ensures Bit(Pow2(s) - 1, j) == (j < s)
    decreases j
  {
    if s == 0 {
      BitOfZero(j);
    } else if j > 0 {
      assert (Pow2(s) - 1) / 2 == Pow2(s - 1) - 1;
      LowOnesBit(s - 1, j - 1);
    }
  }

  // ---------------------------------------------------------------- C idioms

  /** `x & mask` with an all-ones mask is reduction modulo the table size. */
  lemma {:induction false} AndMask(x: nat, k: nat)
    ensures And(x, Pow2(k) - 1) == x % Pow2(k)
    decreases k
  {
    if k > 0 {
      HalfMod(x, k);
      assert (Pow2(k) - 1) / 2 == Pow2(k - 1) - 1 && (Pow2(k) - 1) % 2 == 1;
      AndMask(x / 2, k - 1);
      AndOfZero(x / 2, Pow2(k - 1) - 1);
    }
  }

  lemma AndOfZero(a: nat, b: nat)
    ensures a == 0 || b == 0 ==> And(a, b) == 0
  {}

  lemma {:induction false} AndComplement(x: nat, w: nat)
    requires x < Pow2(w)
    ensures And(x, Pow2(w) - 1 - x) == 0
    decreases w
  {
    if w > 0 && x > 0 && Pow2(w) - 1 - x > 0 {
      assert (Pow2(w) - 1 - x) / 2 == Pow2(w - 1) - 1 - x / 2;
      AndComplement(x / 2, w - 1);
    }
  }

  /** `x & -x` isolates the lowest set digit. */
  lemma {:induction false} LowestBit(x: nat, w: nat)
    requires 0 < x < Pow2(w)
    ensures And(x, Pow2(w) - x) == Pow2(TrailingZeros(x))
    ensures TrailingZeros(x) < w
    decreases w
  {
    if x % 2 == 1 {
      assert (Pow2(w) - x) / 2 == Pow2(w - 1) - 1 - x / 2;
      AndComplement(x / 2, w - 1);
    } else {
      LowestBit(x / 2, w - 1);
      assert (Pow2(w) - x) / 2 == Pow2(w - 1) - x / 2;
      assert And(x, Pow2(w) - x) == 2 * And(x / 2, Pow2(w - 1) - x / 2);
    }
  }

  /** Shifting out at most the trailing zeros loses nothing. */
  lemma {:induction false} ShrExact(x: nat, d: nat)
    requires x > 0 && d <= TrailingZeros(x)
    ensures x == Pow2(d) * Shr(x, d)
    decreases d
  {
    if d > 0 {
      ShrExact(x / 2, d - 1);
      DoubleProduct(Pow2(d - 1), Shr(x / 2, d - 1));
    }
  }

  /** `n != 0 && (n & (n - 1)) == 0` recognises exactly the powers of two. */
  lemma {:induction false} PowerOfTwoTest(n: nat)
    requires n > 0
    ensures And(n, n - 1) == 0 <==> n == Pow2(Log2(n))
    decreases n
  {
    NonzeroHasBit(n);
    if n == 1 {
    } else if n % 2 == 1 {
      assert (n - 1) / 2 == n / 2;
      AndSelf(n / 2);
      assert And(n, n - 1) == 2 * And(n / 2, n / 2);
    } else {
      assert (n - 1) / 2 == n / 2 - 1;
      PowerOfTwoTest(n / 2);
      assert And(n, n - 1) == 2 * And(n / 2, n / 2 - 1);
    }
  }

  lemma {:induction false} AndSelf(n: nat)
    ensures And(n, n) == n
  {
    if n > 0 { AndSelf(n / 2); }
  }

  lemma Log2Unique(k: nat)
    ensures Log2(Pow2(k)) == k
  {
    NonzeroHasBit(Pow2(k));
    var l := Log2(Pow2(k));
    if l < k { Pow2Monotone(l, k); }
    if k < l { Pow2Monotone(k, l); }
  }

  /** Testing two digits with one mask. */
  lemma TwoBitTest(x: nat, i: nat, j: nat)
    requires i < j
    ensures And(x, Pow2(j) + Pow2(i)) == 0 <==> !Bit(x, i) && !Bit(x, j)
  {
    var mask := Pow2(j) + Pow2(i);
    if Bit(x, i) || Bit(x, j) {
      var k := if Bit(x, i) then i else j;
      TwoBits(i, j, k);
      CommonBit(x, mask, k);
    } else {
      forall k ensures !(Bit(x, k) && Bit(mask, k)) { TwoBits(i, j, k); }
      NoCommonBit(x, mask);
    }
  }

  lemma CommonBit(a: nat, b: nat, k: nat)
    requires Bit(a, k) && Bit(b, k)
    ensures And(a, b) != 0
  {
    AndBit(a, b, k);
    BitOfZero(k);
  }

  lemma NoCommonBit(a: nat, b: nat)
    requires forall k :: !(Bit(a, k) && Bit(b, k))
    ensures And(a, b) == 0
  {
    if And(a, b) != 0 {
      NonzeroHasBit(And(a, b));
      AndBit(a, b, Log2(And(a, b)));
    }
  }

  lemma {:induction false} TwoBits(i: nat, j: nat, k: nat)
    requires i < j
    ensures Bit(Pow2(j) + Pow2(i), k) == (k == i || k == j)
    decreases k
  {
    if k > 0 {
      if i == 0 {
        assert (Pow2(j) + Pow2(i)) / 2 == Pow2(j - 1);
        Pow2Bit(j - 1, k - 1);
      } else {
        assert (Pow2(j) + Pow2(i)) / 2 == Pow2(j - 1) + Pow2(i - 1);
        TwoBits(i - 1, j - 1, k - 1);
      }
    }
  }
}
