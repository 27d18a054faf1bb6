/**
 lib/Analysis/BlockFrequencyInfoImpl.cpp: products and quotients of 64-bit numbers as 64 digits and a
 binary exponent, and lib/Support/BranchProbability.cpp: exact scaling by a 32-bit fraction.
 */
module FloatArithmetic {
  import opened Arithmetic

  /** digits * 2^exponent */
  datatype Scaled = Scaled(digits: uint64, exponent: int)

  /** The number of binary digits of `n`. */
  function Bits(n: nat): nat {
    if n == 0 then 0 else 1 + Bits(n / 2)
  }

  lemma {:induction false} BitsBound(n: nat)
    ensures n < Pow2(Bits(n)) && (n > 0 ==> Pow2(Bits(n) - 1) <= n)
  {
    if n > 0 {
      BitsBound(n / 2);
    }
  }

  lemma BitsOfWord(n: uint64)
    ensures Bits(n) <= 64
  {
    BitsBound(n);
    Pow2Words();
    if Bits(n) > 64 {
      Pow2AtMost(64, Bits(n) - 1);
    }
  }

  function CountLeadingZeros(n: uint64): (z: nat)
    ensures z <= 64
  {
    BitsOfWord(n);
    64 - Bits(n)
  }

  function CountTrailingZeros(n: uint64): nat
    requires n > 0
  {
    if n % 2 == 1 then 0 else 1 + CountTrailingZeros(n / 2)
  }

  ghost function OddPart(n: uint64): (r: uint64)
    requires n > 0
    ensures r % 2 == 1
  {
    if n % 2 == 1 then n else OddPart(n / 2)
  }

  lemma {:induction false} OddTimesPow2(n: uint64)
    requires n > 0
    ensures n == OddPart(n) * Pow2(CountTrailingZeros(n))
  {
    if n % 2 == 0 {
      OddTimesPow2(n / 2);
      var z := CountTrailingZeros(n / 2);
      assert OddPart(n) * (2 * Pow2(z)) == 2 * (OddPart(n) * Pow2(z));
    }
  }

  lemma TrailingZeros(n: uint64)
    requires n > 0
    ensures n == n / Pow2(CountTrailingZeros(n)) * Pow2(CountTrailingZeros(n))
    ensures n / Pow2(CountTrailingZeros(n)) % 2 == 1
  {
    OddTimesPow2(n);
    hide OddPart, CountTrailingZeros, Pow2;
    DivisionUnique(n, Pow2(CountTrailingZeros(n)), OddPart(n), 0);
  }

  function Minus(n: nat): int {
    var i: int := n;
    -i
  }

  // ---------------------------------------------------------------- rounding

  /** One more if `shouldRound`; the digits of 2^64 do not fit (BlockFrequencyInfoImpl.cpp:219-226). */
  function GetRounded(n: uint64, shouldRound: bool, shift: int): Scaled {
    if shouldRound then
      if n + 1 == W then Scaled(1, shift + 64) else Scaled(n + 1, shift)
    else Scaled(n, shift)
  }

  /** `r` stands for `n` units of 2^shift, where `n` may be 2^64. */
  ghost predicate Denotes(r: Scaled, n: nat, shift: int) {
    (r.digits == n && r.exponent == shift) || (n == W && r == Scaled(1, shift + 64))
  }

  // ---------------------------------------------------------------- multiplication

  /** Adds `n` * 2^32 to a number of two 64-bit digits. */
  method AddWithCarry(upper: uint64, lower: uint64, n: uint64) returns (upper': uint64, lower': uint64)
    requires upper * W + lower + n * B < W * W
    ensures upper' * W + lower' == upper * W + lower + n * B
  {
    var high, low := n / B, n % B;
    assert n * B == high * W + low * B;
    var newLower := (lower + low * B) % W;
    var carry := if newLower < lower then 1 else 0;
    assert lower + low * B == carry * W + newLower;
    assert (upper + high + carry) * W + newLower == upper * W + lower + n * B;
    FactorLess(upper + high + carry, W, W);
    upper', lower' := upper + high + carry, newLower;
  }

  lemma CrossProducts(ul: int, ll: int, ur: int, lr: int)
    ensures (ul * B + ll) * (ur * B + lr) == (ul * ur) * W + (ll * lr) + (ul * lr) * B + (ll * ur) * B
  {
    var l, r := ul * B + ll, ur * B + lr;
    assert l * r == ul * B * r + ll * r;
    assert ul * B * r == (ul * r) * B;
    assert ul * r == (ul * ur) * B + ul * lr;
    assert ll * r == (ll * ur) * B + ll * lr;
    assert ((ul * ur) * B + ul * lr) * B == (ul * ur) * W + (ul * lr) * B;
  }

  lemma ProductFits(a: int, b: int, m: int)
    requires 0 <= a < m && 0 <= b < m
    ensures 0 <= a * b <= (m - 1) * (m - 1) && (m - 1) * (m - 1) < m * m
  {
    MulAtMost(b, m - 1, a);
    MulAtMost(a, m - 1, m - 1);
    MulAtMost(0, b, a);
    MulSum(m, 1, m - 1);
    MulSum(m, 1, m);
  }

  /** The exact product as two 64-bit digits (BlockFrequencyInfoImpl.cpp:281-295). */
  method Product(l: uint64, r: uint64) returns (upper: uint64, lower: uint64)
    ensures upper * W + lower == l * r
  {
    var ul, ll, ur, lr := l / B, l % B, r / B, r % B;
    ProductFits(ul, ur, B);
    ProductFits(ul, lr, B);
    ProductFits(ll, ur, B);
    ProductFits(ll, lr, B);
    var p1, p2, p3, p4 := ul * ur, ul * lr, ll * ur, ll * lr;
    CrossProducts(ul, ll, ur, lr);
    ProductFits(l, r, W);
    assert l == ul * B + ll && r == ur * B + lr;
    upper, lower := p1, p4;
    upper, lower := AddWithCarry(upper, lower, p2);
    upper, lower := AddWithCarry(upper, lower, p3);
  }

  /** `r` is the product `p` rounded half up to 64 digits: `s` digits are dropped, no more than necessary. */
  ghost predicate RoundedTo64(p: nat, r: Scaled, s: nat) {
    && (p < W ==> s == 0)
    && (p >= W ==> s > 0 && Pow2(63 + s) <= p < Pow2(64 + s))
    && Denotes(r, if s == 0 then p else (p + Pow2(s - 1)) / Pow2(s), s)
  }

  lemma HalfBit(x: nat, h: int)
    requires h > 0
    ensures x / h % 2 == 1 <==> x % (2 * h) >= h
  {
    var q, r := x / h, x % h;
    var q2, b := q / 2, q % 2;
    assert x == q * h + r && q == 2 * q2 + b;
    MulSum(2 * q2, b, h);
    MulAssoc(q2, 2, h);
    assert (2 * q2) * h == q2 * (2 * h);
    MulAtMost(0, b, h);
    MulAtMost(b, 1, h);
    DivisionUnique(x, 2 * h, q2, b * h + r);
  }

  lemma RoundHalfUp(x: nat, h: int)
    requires h > 0
    ensures (x + h) / (2 * h) == x / (2 * h) + if x % (2 * h) >= h then 1 else 0
  {
    var q, r := x / (2 * h), x % (2 * h);
    assert x == q * (2 * h) + r;
    if r >= h {
      MulSum(q, 1, 2 * h);
      DivisionUnique(x + h, 2 * h, q + 1, r - h);
    } else {
      DivisionUnique(x + h, 2 * h, q, r + h);
    }
  }

  /** Dividing a number of two digits by a divisor `b` of the base. */
  lemma DivideTwoDigits(upper: nat, lower: nat, a: int, b: int)
    requires a > 0 && b > 0 && a * b == W
    ensures (upper * W + lower) / b == upper * a + lower / b && (upper * W + lower) % b == lower % b
  {
    var q, r := lower / b, lower % b;
    assert lower == q * b + r;
    MulAssoc(upper, a, b);
    MulSum(upper * a, q, b);
    DivisionUnique(upper * W + lower, b, upper * a + q, r);
  }

  lemma TwoDigitsRange(upper: nat, lower: uint64, low: int, high: int)
    requires low <= upper < high
    ensures low * W <= upper * W + lower < high * W
  {
    MulAtMost(low, upper, W);
    MulAtMost(upper, high - 1, W);
    MulSum(high, 1, W);
  }

  lemma SplitProduct(upper: uint64, lower: uint64, s: nat)
    requires upper > 0 && s == Bits(upper)
    ensures 1 <= s <= 64 && 0 <= upper * Pow2(64 - s) < W
    ensures Pow2(63 + s) <= upper * W + lower < Pow2(64 + s)
    ensures (upper * W + lower) / Pow2(s) == upper * Pow2(64 - s) + lower / Pow2(s)
    ensures (upper * W + lower) % Pow2(s) == lower % Pow2(s)
  {
    hide Bits, Pow2;
    BitsRange(upper);
    WordParts(s);
    DivideTwoDigits(upper, lower, Pow2(64 - s), Pow2(s));
    TwoDigitsRange(upper, lower, Pow2(s - 1), Pow2(s));
    UnderWord(upper, Pow2(64 - s), Pow2(s));
  }

  lemma UnderWord(u: nat, a: int, b: int)
    requires u < b && a > 0 && a * b == W
    ensures 0 <= u * a < W
  {
    MulAtMost(u, b - 1, a);
    MulSum(b, 1, a);
    MulAtMost(0, u, a);
  }

  lemma BitsRange(n: uint64)
    requires n > 0
    ensures 1 <= Bits(n) <= 64 && Pow2(Bits(n) - 1) <= n < Pow2(Bits(n))
  {
    BitsBound(n);
    BitsOfWord(n);
  }

  lemma WordParts(s: nat)
    requires 1 <= s <= 64
    ensures Pow2(64 - s) * Pow2(s) == W && Pow2(63 + s) == Pow2(s - 1) * W && Pow2(64 + s) == Pow2(s) * W
  {
    Pow2Words();
    Pow2Sum(64 - s, s);
    Pow2Sum(s - 1, 64);
    Pow2Sum(s, 64);
  }

  /** Whether the first digit that is dropped is one. */
  lemma DroppedDigit(p: nat, lower: nat, s: nat)
    requires s > 0 && p % Pow2(s) == lower % Pow2(s)
    ensures (p + Pow2(s - 1)) / Pow2(s) == p / Pow2(s) + if lower / Pow2(s - 1) % 2 == 1 then 1 else 0
  {
    RoundHalfUp(p, Pow2(s - 1));
    HalfBit(lower, Pow2(s - 1));
  }

  /** The product of two 64-bit numbers, rounded half up to 64 digits (BlockFrequencyInfoImpl.cpp:279-308). */
  method Multiply64(l: uint64, r: uint64) returns (product: Scaled)
    ensures l * r >= 0 && exists s: nat :: RoundedTo64(l * r, product, s)
  {
    hide RoundedTo64, Bits, Pow2, GetRounded;
    var upper, lower := Product(l, r);
    ProductFits(l, r, W);
    ghost var p := l * r;
    if upper == 0 {
      product := Scaled(lower, 0);
      SmallProduct(p, product);
      return;
    }
    var leadingZeros := CountLeadingZeros(upper);
    var shift := 64 - leadingZeros;
    SplitProduct(upper, lower, shift);
    var top := upper;
    if leadingZeros > 0 {
      top := (upper * Pow2(leadingZeros)) % W + lower / Pow2(shift);
    } else {
      NoZeros(upper, lower);
    }
    assert top == p / Pow2(shift);
    DroppedDigit(p, lower, shift);
    var shouldRound := shift != 0 && lower / Pow2(shift - 1) % 2 == 1;
    TopFits(p, top, shift);
    product := GetRounded(top, shouldRound, shift);
    LargeProduct(p, top, shouldRound, shift);
  }

  lemma NoZeros(upper: uint64, lower: uint64)
    ensures upper * Pow2(0) == upper && lower / Pow2(64) == 0
  {
    Pow2Words();
  }

  lemma SmallProduct(p: nat, r: Scaled)
    requires p < W && r == Scaled(p, 0)
    ensures RoundedTo64(p, r, 0)
  {
  }

  lemma TopFits(p: nat, top: int, s: nat)
    requires s > 0 && p < Pow2(64 + s) && top == p / Pow2(s)
    ensures 0 <= top < W
  {
    Pow2Words();
    Pow2Sum(64, s);
    QuotientFits(p, top, Pow2(s));
  }

  lemma QuotientFits(p: nat, top: int, d: int)
    requires d > 0 && p < W * d && top == p / d
    ensures 0 <= top < W
  {
    assert p == top * d + p % d;
    FactorLess(top, W, d);
  }

  lemma LargeProduct(p: nat, top: uint64, shouldRound: bool, s: nat)
    requires s > 0 && Pow2(63 + s) <= p < Pow2(64 + s) && top == p / Pow2(s)
    requires (p + Pow2(s - 1)) / Pow2(s) == top + if shouldRound then 1 else 0
    ensures RoundedTo64(p, GetRounded(top, shouldRound, s), s)
  {
    Pow2Words();
    Pow2AtMost(64, 63 + s);
  }

  // ---------------------------------------------------------------- division

  /** The smallest remainder that is rounded up. */
  function GetHalf(n: uint64): uint64 {
    n / 2 + n % 2
  }

  /** Long division has come to quotient `q` and remainder `d` after `t` binary digits. */
  ghost predicate Divided(dividend: nat, v: nat, t: nat, q: int, d: int) {
    dividend * Pow2(t) == q * v + d && 0 <= d < v
  }

  lemma OneMoreDigit(dividend: nat, v: nat, t: nat, q: int, d: int, does: int)
    requires Divided(dividend, v, t, q, d) && does == if 2 * d >= v then 1 else 0
    ensures Divided(dividend, v, t + 1, 2 * q + does, 2 * d - does * v)
  {
    var a := Pow2(t);
    assert dividend * (2 * a) == 2 * (dividend * a);
    MulSum(2 * q, does, v);
    assert 2 * q * v == 2 * (q * v);
  }

  /** The quotient that is rounded: nothing, or two units, or one unit if that overflows. */
  ghost predicate RoundedFrom(n: nat, q: nat, d: nat, v: uint64) {
    if d < GetHalf(v) then n == q else n == q + 2 || n == q + 1 == W
  }

  lemma RoundingError(n: nat, q: nat, d: nat, v: uint64)
    requires d < v && RoundedFrom(n, q, d, v)
    ensures -3 * v <= 2 * (n * v - (q * v + d)) <= 3 * v
    ensures n * v == q * v + d <==> d == 0
  {
    if n == q + 2 {
      MulSum(q, 2, v);
    } else if n == q + 1 {
      MulSum(q, 1, v);
    }
  }

  /** `n` units of 2^-s are within three halves of a unit of the quotient of `a` by `b`. */
  ghost predicate CloseQuotient(n: nat, s: nat, a: nat, b: nat) {
    -3 * b <= 2 * (n * b - a * Pow2(s)) <= 3 * b
  }

  ghost predicate ExactQuotient(n: nat, s: nat, a: nat, b: nat) {
    n * b == a * Pow2(s)
  }

  /**
   `r` stands for `n` units of 2^-s that are close to the quotient of `a` by `b`, and it has at least 64 digits
   unless it is exact; it is exact if 64 digits can hold the quotient.
   */
  ghost predicate QuotientIs(r: Scaled, a: nat, b: nat, n: nat, s: nat)
    requires b > 0
  {
    && Denotes(r, n, Minus(s)) && CloseQuotient(n, s, a, b) && RoundedTwice(n, a * Pow2(s), b)
    && (n >= H || ExactQuotient(n, s, a, b))
    && (Representable(a, b) ==> ExactQuotient(n, s, a, b))
  }

  /** The whole part of `x` by `b`; or two more, the first of which may be the last that fits, if half or more remains. */
  ghost predicate RoundedTwice(n: nat, x: int, b: int)
    requires b > 0
  {
    n == if 2 * (x % b) < b then x / b else if x / b == W - 1 then W else x / b + 2
  }

  lemma RoundedAsDivided(a: nat, v: uint64, z: nat, t: nat, q: uint64, d: nat, n: nat, r: Scaled, shift: int)
    requires Divided(a, v, t, q, d) && d < v && RoundedFrom(n, q, d, v) && Denotes(r, n, shift)
    ensures v * Pow2(z) > 0 && RoundedTwice(n, a * Pow2(t + z), v * Pow2(z))
  {
    var p := Pow2(z);
    assert 2 * d < v <==> d < GetHalf(v);
    DividendScaled(a, v, z, t, q, d);
    hide Divided, GetHalf, Pow2, Denotes;
    MulAtMost(1, v, p);
    MulSum(q * v, d, p);
    MulAssoc(q, v, p);
    MulAtMost(0, d, p);
    MulAtMost(d + 1, v, p);
    MulSum(d, 1, p);
    DivisionUnique(a * Pow2(t + z), v * p, q, d * p);
    MulAssoc(2, d, p);
    if 2 * d < v {
      MulAtMost(2 * d + 1, v, p);
      MulSum(2 * d, 1, p);
    } else {
      MulAtMost(v, 2 * d, p);
    }
    TooManyUnits(n, r, shift);
  }

  lemma TooManyUnits(n: nat, r: Scaled, shift: int)
    ensures Denotes(r, n, shift) ==> n <= W
  {
  }

  /** The quotient is a number of at most 64 digits times a power of two. */
  ghost predicate Representable(a: nat, b: nat) {
    exists m: uint64, j: nat, k: nat :: RepresentedBy(a, b, m, j, k)
  }

  ghost predicate RepresentedBy(a: nat, b: nat, m: uint64, j: nat, k: nat) {
    a * Pow2(j) == b * m * Pow2(k)
  }

  lemma ScaleError(n: nat, q: nat, d: nat, v: nat, p: int, a: nat, w: nat, u: int)
    requires p >= 1 && w == v * p && a * u == (q * v + d) * p
    requires -3 * v <= 2 * (n * v - (q * v + d)) <= 3 * v
    ensures -3 * w <= 2 * (n * w - a * u) <= 3 * w
  {
    var x := n * v - (q * v + d);
    MulSum(n * v, q * v + d, p);
    MulAssoc(n, v, p);
    assert n * w - a * u == x * p;
    MulAtMost(-3 * v, 2 * x, p);
    MulAtMost(2 * x, 3 * v, p);
    MulAssoc(2, x, p);
    MulAssoc(3, v, p);
    MulAssoc(-3, v, p);
  }

  lemma DividendScaled(a: nat, v: nat, z: nat, t: nat, q: nat, d: nat)
    requires Divided(a, v, t, q, d)
    ensures a * Pow2(t + z) == (q * v + d) * Pow2(z)
  {
    Pow2Sum(t, z);
    MulAssoc(a, Pow2(t), Pow2(z));
  }

  /** Rounded or not, the quotient is within three halves of a unit, and it is exact if nothing remains. */
  lemma DivisionClose(a: nat, v: uint64, z: nat, t: nat, q: nat, d: nat, n: nat)
    requires v > 0 && Divided(a, v, t, q, d) && RoundedFrom(n, q, d, v)
    ensures v * Pow2(z) > 0 && CloseQuotient(n, t + z, a, v * Pow2(z))
    ensures d == 0 ==> ExactQuotient(n, t + z, a, v * Pow2(z))
  {
    MulAtMost(1, Pow2(z), v);
    assert 0 <= d < v;
    RoundingError(n, q, d, v);
    DividendScaled(a, v, z, t, q, d);
    hide Divided, RoundedFrom, Pow2, GetHalf;
    ScaleError(n, q, d, v, Pow2(z), a, v * Pow2(z), Pow2(t + z));
    if d == 0 {
      MulAssoc(n, v, Pow2(z));
    }
  }

  /** If something remains although the quotient has 64 digits, the true quotient has more. */
  lemma RemainderNeedsDigits(a: nat, v: uint64, z: nat, t: nat, q: nat, d: nat, m: uint64, j: nat, k: nat)
    requires Divided(a, v, t, q, d) && q >= H && d > 0
    ensures !RepresentedBy(a, v * Pow2(z), m, j, k)
  {
    if RepresentedBy(a, v * Pow2(z), m, j, k) {
      RepresentedDigits(a, v, z, t, q, d, m, j, k);
      var x := q * v + d;
      var l, r := j, k + z + t;
      // x * 2^l == v * m * 2^r
      if l <= r {
        Divides(x, v, m, l, r);
        DivisionUnique(x, v, q, d);
      } else {
        TooFewDigits(x, v, q, d, m, l, r);
      }
    }
  }

  lemma Regroup(a: int, pt: int, pj: int, v: int, pz: int, m: int, pk: int)
    requires a * pj == v * pz * m * pk
    ensures (a * pt) * pj == v * m * (pk * pz * pt)
  {
    calc {
      (a * pt) * pj;
    == { MulAssoc(a, pt, pj); }
      a * (pt * pj);
    ==
      a * (pj * pt);
    == { MulAssoc(a, pj, pt); }
      (v * pz * m * pk) * pt;
    == { assert v * pz * m == v * m * pz by { MulAssoc(v, pz, m); MulAssoc(v, m, pz); } }
      (v * m * pz * pk) * pt;
    == { MulAssoc(v * m, pz, pk); }
      (v * m * (pz * pk)) * pt;
    == { MulAssoc(v * m, pz * pk, pt); }
      v * m * (pz * pk * pt);
    }
    assert pz * pk == pk * pz;
  }

  lemma RepresentedDigits(a: nat, v: uint64, z: nat, t: nat, q: nat, d: nat, m: uint64, j: nat, k: nat)
    requires Divided(a, v, t, q, d) && RepresentedBy(a, v * Pow2(z), m, j, k)
    ensures (q * v + d) * Pow2(j) == v * m * Pow2(k + z + t)
  {
    Pow2Sum(k, z);
    Pow2Sum(k + z, t);
    hide Pow2;
    Regroup(a, Pow2(t), Pow2(j), v, Pow2(z), m, Pow2(k));
  }

  lemma CancelPow(x: int, y: int, l: nat, r: nat)
    requires x * Pow2(l) == y * Pow2(r) && l <= r
    ensures x == y * Pow2(r - l)
  {
    Pow2Sum(r - l, l);
    MulAssoc(y, Pow2(r - l), Pow2(l));
    EqualFactor(x, y * Pow2(r - l), Pow2(l));
  }

  lemma Divides(x: nat, v: nat, m: nat, l: nat, r: nat)
    requires v > 0 && l <= r && x * Pow2(l) == v * m * Pow2(r)
    ensures x % v == 0
  {
    CancelPow(x, v * m, l, r);
    var c := m * Pow2(r - l);
    MulAssoc(v, m, Pow2(r - l));
    assert x == c * v + 0;
    DivisionUnique(x, v, c, 0);
  }

  lemma TooFewDigits(x: nat, v: uint64, q: nat, d: nat, m: uint64, l: nat, r: nat)
    requires v > 0 && x == q * v + d && q >= H && d >= 0 && r < l && x * Pow2(l) == v * m * Pow2(r)
    ensures false
  {
    CancelPow(v * m, x, r, l);
    Pow2AtMost(1, l - r);
    assert Pow2(1) == 2;
    MulAtMost(2, Pow2(l - r), x);
    MulAtMost(H, q, v);
    MulAtMost(m, W - 1, v);
  }

  /** How the quotient is rounded: twice, with the same remainder (BlockFrequencyInfoImpl.cpp:270-276). */
  method RoundQuotient(quotient0: uint64, remainder: uint64, divisor: uint64, shift: int) returns (r: Scaled)
    requires remainder < divisor
    ensures exists n: nat :: RoundedFrom(n, quotient0, remainder, divisor) && Denotes(r, n, shift)
  {
    var quotient := quotient0;
    if remainder >= GetHalf(divisor) {
      if quotient == W - 1 {
        r := Scaled(1, shift + 64);
        assert RoundedFrom(W, quotient0, remainder, divisor) && Denotes(r, W, shift);
        return;
      }
      quotient := quotient + 1;
    }
    r := GetRounded(quotient, remainder >= GetHalf(divisor), shift);
    ghost var n: nat := quotient;
    n := n + if remainder >= GetHalf(divisor) then 1 else 0;
    assert RoundedFrom(n, quotient0, remainder, divisor) && Denotes(r, n, shift);
  }

  lemma Normalized(n: uint64, z: nat)
    requires n > 0 && z == CountLeadingZeros(n)
    ensures H <= n * Pow2(z) < W
  {
    BitsRange(n);
    var s := Bits(n);
    WordParts(s);
    Pow2Sum(s - 1, z);
    Pow2Words();
    hide Bits, Pow2;
    MulAtMost(Pow2(s - 1), n, Pow2(z));
    UnderWord(n, Pow2(z), Pow2(s));
  }

  lemma DivisionStarts(dividend: uint64, v: uint64, z: nat)
    requires v > 0
    ensures Divided(dividend, v, z, dividend * Pow2(z) / v, dividend * Pow2(z) % v)
  {
    var x := dividend * Pow2(z);
    assert x == x / v * v + x % v;
  }

  /** One more digit of the quotient (BlockFrequencyInfoImpl.cpp:259-267). */
  method NextDigit(quotient0: uint64, remainder0: uint64, divisor: uint64) returns (quotient: uint64, remainder: uint64)
    requires remainder0 < divisor && quotient0 < H
    ensures var does := if 2 * remainder0 >= divisor then 1 else 0;
      quotient == 2 * quotient0 + does && remainder == 2 * remainder0 - does * divisor
    ensures remainder < divisor
  {
    var isOverflow := remainder0 >= H;
    var shifted := (2 * remainder0) % W;
    var doesDivide := isOverflow || divisor <= shifted;
    quotient, remainder := 2 * quotient0, shifted;
    if doesDivide {
      quotient := quotient + 1;
      remainder := (W + remainder - divisor) % W;
    }
  }

  /** Long division until the quotient has 64 digits or nothing remains (BlockFrequencyInfoImpl.cpp:251-268). */
  method LongDivide(dividend0: uint64, divisor: uint64) returns (quotient: uint64, remainder: uint64, shift: nat)
    requires dividend0 > 0 && divisor > 1
    ensures Divided(dividend0, divisor, shift, quotient, remainder)
    ensures quotient >= H || remainder == 0
  {
    hide Divided, Pow2;
    shift := CountLeadingZeros(dividend0);
    Normalized(dividend0, shift);
    DivisionStarts(dividend0, divisor, shift);
    var dividend := dividend0 * Pow2(shift);
    FirstDigits(dividend, divisor);
    quotient, remainder := dividend / divisor, dividend % divisor;
    while quotient < H && remainder != 0
      invariant remainder < divisor && Divided(dividend0, divisor, shift, quotient, remainder)
      invariant quotient > 0 || remainder >= H
      decreases H - quotient
    {
      OneMoreDigit(dividend0, divisor, shift, quotient, remainder, if 2 * remainder >= divisor then 1 else 0);
      quotient, remainder := NextDigit(quotient, remainder, divisor);
      shift := shift + 1;
    }
  }

  lemma FirstDigits(dividend: uint64, divisor: uint64)
    requires dividend >= H && divisor > 1
    ensures 0 <= dividend / divisor < W && 0 <= dividend % divisor < divisor
    ensures dividend / divisor > 0 || dividend % divisor >= H
  {
    var q, r := dividend / divisor, dividend % divisor;
    assert dividend == q * divisor + r;
    MulAtMost(1, divisor, q);
  }

  /**
   The quotient of two numbers (BlockFrequencyInfoImpl.cpp:228-277): `n` units of 2^-s that are within three
   halves of a unit of the true quotient, and the true quotient itself whenever 64 digits can hold it.
   */
  method Divide64(dividend: uint64, divisor0: uint64) returns (r: Scaled)
    requires dividend > 0 && divisor0 > 0
    ensures exists n: nat, s: nat :: QuotientIs(r, dividend, divisor0, n, s)
  {
    hide RoundedTwice, Divided, RoundedFrom, Denotes, CloseQuotient, ExactQuotient, Representable, Pow2;
    var zeros := CountTrailingZeros(divisor0);
    TrailingZeros(divisor0);
    var divisor := divisor0 / Pow2(zeros);
    if divisor == 1 {
      r := Scaled(dividend, Minus(zeros));
      PowerOfTwo(dividend, divisor0, zeros);
      assert QuotientIs(r, dividend, divisor0, dividend, zeros);
      return;
    }
    var quotient, remainder, shift;
    quotient, remainder, shift := LongDivide(dividend, divisor);
    DividedParts(dividend, divisor, shift, quotient, remainder);
    r := RoundQuotient(quotient, remainder, divisor, Minus(shift + zeros));
    ghost var s := shift + zeros;
    ghost var n: nat :| RoundedFrom(n, quotient, remainder, divisor) && Denotes(r, n, Minus(s));
    RoundedUpwards(n, quotient, remainder, divisor);
    DivisionClose(dividend, divisor, zeros, shift, quotient, remainder, n);
    RoundedAsDivided(dividend, divisor, zeros, shift, quotient, remainder, n, r, Minus(s));
    if remainder != 0 {
      NotRepresentable(dividend, divisor, zeros, shift, quotient, remainder);
    }
    assert QuotientIs(r, dividend, divisor0, n, s);
  }

  lemma RoundedUpwards(n: nat, q: nat, d: nat, v: uint64)
    requires RoundedFrom(n, q, d, v)
    ensures n >= q
  {
  }

  lemma DividedParts(a: nat, v: nat, t: nat, q: int, d: int)
    requires Divided(a, v, t, q, d)
    ensures d < v
  {
  }

  lemma NotRepresentable(a: nat, v: uint64, z: nat, t: nat, q: nat, d: nat)
    requires Divided(a, v, t, q, d) && q >= H && d > 0
    ensures v * Pow2(z) >= 0 && !Representable(a, v * Pow2(z))
  {
    MulAtMost(0, v, Pow2(z));
    forall m: uint64, j: nat, k: nat ensures !RepresentedBy(a, v * Pow2(z), m, j, k) {
      RemainderNeedsDigits(a, v, z, t, q, d, m, j, k);
    }
  }

  lemma PowerOfTwo(dividend: uint64, divisor: uint64, z: nat)
    requires divisor == 1 * Pow2(z)
    ensures Denotes(Scaled(dividend, Minus(z)), dividend, Minus(z))
    ensures CloseQuotient(dividend, z, dividend, divisor) && ExactQuotient(dividend, z, dividend, divisor)
    ensures RoundedTwice(dividend, dividend * Pow2(z), divisor)
  {
    hide Pow2;
    DivisionUnique(dividend * divisor, divisor, dividend, 0);
  }

  // ---------------------------------------------------------------- scaling by a fraction

  /**
   floor(num * n / d), or the largest number if that does not fit (BranchProbability.cpp:28-65): a product
   of three 32-bit digits divided by one digit.
   */
  method Scale(num: uint64, n: uint32, d: uint32) returns (q: uint64)
    requires d > 0
    ensures num * n >= 0 && q == if num * n / d >= W then W - 1 else num * n / d
  {
    MulAtMost(0, n, num);
    if num == 0 || d == n {
      DivisionUnique(num * n, d, num, 0);
      return num;
    }
    var upper32, mid32, lower32 := ThreeDigits(num, n);
    q := DivideDigits(upper32, mid32, lower32, d);
  }

  /** Two digits of the quotient, one after the other; the later checks for overflow (lines 55-57, 63-64) never fire. */
  method DivideDigits(upper32: uint32, mid32: uint32, lower32: uint32, d: uint32) returns (q: uint64)
    requires d > 0
    ensures var p := (upper32 * B + mid32) * B + lower32; q == if p / d >= W then W - 1 else p / d
  {
    var top := upper32 * B + mid32;
    TwoDigits(upper32, mid32, lower32, d);
    if upper32 >= d {
      return W - 1;
    }
    var upperQ, upperR := top / d, top % d;
    var lowerQ := (upperR * B + lower32) / d;
    q := upperQ * B + lowerQ;
  }

  /** The product of a 64-bit and a 32-bit number as three 32-bit digits (BranchProbability.cpp:35-46). */
  method ThreeDigits(num: uint64, n: uint32) returns (upper32: uint32, mid32: uint32, lower32: uint32)
    ensures (upper32 * B + mid32) * B + lower32 == num * n
  {
    var high, low := num / B, num % B;
    ProductFits(high, n, B);
    ProductFits(low, n, B);
    var productHigh, productLow := high * n, low * n;
    MulSum(high * B, low, n);
    MulAssoc(high, B, n);
    MulAssoc(high, n, B);
    ghost var p := num * n;
    assert p == productHigh * B + productLow;
    lower32 := productLow % B;
    var upper := productHigh / B;
    var mid32Partial := productHigh % B;
    mid32 := (mid32Partial + productLow / B) % B;
    if mid32 < mid32Partial {
      upper := upper + 1;
    }
    ThreeJoined(productHigh, productLow, upper, mid32, lower32);
    ThreeFit(p, num, n, upper, mid32, lower32);
    upper32 := upper;
  }

  /** Adding the halves in the middle digit carries at most once. */
  lemma ThreeJoined(high: nat, low: uint64, upper: nat, mid: nat, lower: nat)
    requires lower == low % B && mid == (high % B + low / B) % B && upper == high / B + if mid < high % B then 1 else 0
    ensures (upper * B + mid) * B + lower == high * B + low
  {
    var a, b := high % B, low / B;
    assert b < B;
    assert mid == if a + b < B then a + b else a + b - B;
    assert high == high / B * B + a;
    assert low == b * B + lower;
  }

  lemma ThreeFit(p: nat, num: uint64, n: uint32, upper: nat, mid: nat, low: nat)
    requires p == num * n && p == (upper * B + mid) * B + low
    ensures upper < B
  {
    MulAtMost(num, W - 1, n);
    MulAtMost(n, B - 1, W - 1);
    assert p < B * W;
    FactorLess(upper, B, W);
  }

  lemma ScaleOverflows(p: nat, upper: nat, mid: nat, low: nat, d: nat)
    requires 0 < d <= upper && p == (upper * B + mid) * B + low
    ensures p / d >= W
  {
    MulAtMost(d, upper, W);
    assert p >= d * W;
    assert p == p / d * d + p % d;
    MulSum(p / d, 1, d);
    assert W * d < (p / d + 1) * d;
    FactorLess(W, p / d + 1, d);
  }

  lemma TwoDigits(upper: uint32, mid: uint32, lower: uint32, d: uint32)
    requires d > 0
    ensures var top := upper * B + mid;
            var q := (top * B + lower) / d;
      if upper >= d then q >= W
      else top / d < B && (top % d * B + lower) / d < B && q == top / d * B + (top % d * B + lower) / d < W
  {
    var top := upper * B + mid;
    if upper >= d {
      ScaleOverflows(top * B + lower, upper, mid, lower, d);
    } else {
      UpperFits(upper, mid, d);
      UpperFits(top % d, lower, d);
      TwoStepDivision(top * B + lower, top, lower, d);
    }
  }

  /** One digit of the quotient. */
  lemma UpperFits(upper: nat, low: nat, d: nat)
    requires upper < d && low < B
    ensures (upper * B + low) / d < B
  {
    var x := upper * B + low;
    MulAtMost(upper, d - 1, B);
    MulSum(d, 1, B);
    assert x < d * B;
    assert x == x / d * d + x % d;
    FactorLess(x / d, B, d);
  }

  lemma TwoStepDivision(p: nat, top: nat, low: nat, d: nat)
    requires d > 0 && p == top * B + low
    ensures p / d == top / d * B + (top % d * B + low) / d
  {
    var q1, r1 := top / d, top % d;
    assert top == q1 * d + r1;
    var x := r1 * B + low;
    var q2, r2 := x / d, x % d;
    assert x == q2 * d + r2;
    MulSum(q1 * d, r1, B);
    MulSum(q1 * B, q2, d);
    assert q1 * d * B == q1 * B * d;
    DivisionUnique(p, d, q1 * B + q2, r2);
  }

  /** Scaling by a probability takes no more than there is, and everything at probability one. */
  lemma ScaleAtMost(num: nat, n: nat, d: nat)
    requires 0 < d && n <= d
    ensures num * n / d <= num && (n == d ==> num * n / d == num)
  {
    MulAtMost(n, d, num);
    var q := num * n / d;
    assert num * n == q * d + num * n % d;
    MulSum(num, 1, d);
    if n == d {
      DivisionUnique(num * n, d, num, 0);
    } else {
      FactorLess(q, num + 1, d);
    }
  }
}
