/**
 Powers of two, machine words, bit operations, and the facts about products and quotients that the arithmetic
 of the other modules rests on.  The solver is not asked to multiply two unknowns on its own: a proof names the
 products it means and calls the lemma that relates them, with everything else hidden.  `Wrap` cuts to 64 bits;
 `BitOr`, `BitAnd` and `BitXor` are defined bit by bit on natural numbers of any size.
 */
module Arithmetic {
  const B: int := 0x1_0000_0000                      // 2^32
  const W: int := 0x1_0000_0000_0000_0000            // 2^64
  const H: int := 0x8000_0000_0000_0000              // 2^63

  type uint32 = x: int | 0 <= x < B
  type uint64 = x: int | 0 <= x < W

  function Pow2(n: nat): (r: int)
    ensures r >= 1
  {
    if n == 0 then 1 else 2 * Pow2(n - 1)
  }

  lemma {:induction false} Pow2Sum(a: nat, b: nat)
    ensures Pow2(a + b) == Pow2(a) * Pow2(b)
  {
    if a != 0 {
      Pow2Sum(a - 1, b);
      assert 2 * (Pow2(a - 1) * Pow2(b)) == (2 * Pow2(a - 1)) * Pow2(b);
    }
  }

  lemma Pow2Words()
    ensures Pow2(32) == B && Pow2(63) == H && Pow2(64) == W
  {
    assert Pow2(8) == 256;
    Pow2Sum(8, 8);
    Pow2Sum(16, 16);
    Pow2Sum(32, 32);
    assert Pow2(64) == 2 * Pow2(63);
  }

  lemma {:induction false} Pow2Less(a: nat, b: nat)
    requires a < b
    ensures Pow2(a) < Pow2(b)
  {
    if a < b - 1 {
      Pow2Less(a, b - 1);
    }
  }

  lemma Pow2AtMost(a: nat, b: nat)
    requires a <= b
    ensures Pow2(a) <= Pow2(b)
  {
    if a < b {
      Pow2Less(a, b);
    }
  }

  lemma MulAtMost(a: int, b: int, m: int)
    requires a <= b && m >= 0
    ensures a * m <= b * m
  {
  }

  lemma MulAssoc(a: int, b: int, c: int)
    ensures a * b * c == a * (b * c)
  {
  }

  lemma MulSum(a: int, b: int, m: int)
    ensures (a + b) * m == a * m + b * m
    ensures (a - b) * m == a * m - b * m
  {
  }

  lemma FactorLess(a: int, b: int, m: int)
    requires a * m < b * m && m > 0
    ensures a < b
  {
    if a >= b {
      MulAtMost(b, a, m);
    }
  }

  /** Quotient and remainder are determined by what they are for. */
  lemma DivisionUnique(n: int, d: int, q: int, r: int)
    requires d > 0 && n == q * d + r && 0 <= r < d
    ensures n / d == q && n % d == r
  {
    var q', r' := n / d, n % d;
    assert n == q' * d + r';
    MulSum(q', q, d);
    MulSum(q', 1, d);
    MulSum(q, 1, d);
    FactorLess(q', q + 1, d);
    FactorLess(q, q' + 1, d);
  }

  lemma DivTwice(n: nat, a: int, b: int)
    requires a > 0 && b > 0
    ensures a * b > 0 && n / (a * b) == n / a / b
  {
    var m := n / a;
    var q, r := m / b, m % b;
    assert n == m * a + n % a;
    assert m == q * b + r;
    MulSum(q * b, r, a);
    MulAssoc(q, b, a);
    MulAtMost(r, b - 1, a);
    MulSum(b, 1, a);
    MulAtMost(1, a, b);
    MulAtMost(0, r, a);
    assert b * a == a * b;
    DivisionUnique(n, a * b, q, r * a + n % a);
  }

  lemma DivMod(n: nat, d: int)
    requires d > 0
    ensures n == n / d * d + n % d && 0 <= n % d < d && 0 <= n / d
  {
  }

  lemma QuotientLess(n: nat, d: int, q: int)
    requires d > 0 && n < q * d
    ensures 0 <= n / d < q
  {
    DivMod(n, d);
    FactorLess(n / d, q, d);
  }

  lemma EqualFactor(x: int, y: int, p: int)
    requires p > 0 && x * p == y * p
    ensures x == y
  {
    MulSum(x, y, p);
    if x > y {
      MulAtMost(1, x - y, p);
    } else if x < y {
      MulSum(y, x, p);
      MulAtMost(1, y - x, p);
    }
  }

  // ---------------------------------------------------------------- words

  /** The 64-bit word of a number. */
  function Wrap(x: int): uint64 {
    x % W
  }

  lemma WrapPlus(x: int, q: int)
    ensures Wrap(x + q * W) == Wrap(x)
  {
    MulSum(x / W, q, W);
    DivisionUnique(x + q * W, W, x / W + q, x % W);
  }

  lemma WrapSum(a: int, b: int)
    ensures Wrap(Wrap(a) + b) == Wrap(a + b) && Wrap(a + Wrap(b)) == Wrap(a + b)
    ensures Wrap(a - Wrap(b)) == Wrap(a - b)
  {
    WrapPlus(Wrap(a) + b, a / W);
    WrapPlus(a + Wrap(b), b / W);
    WrapPlus(a - Wrap(b), -(b / W));
  }

  lemma WrapProduct(a: int, c: int)
    ensures Wrap(Wrap(a) * c) == Wrap(a * c) && Wrap(c * Wrap(a)) == Wrap(c * a)
  {
    var q := a / W;
    assert a == q * W + Wrap(a);
    MulSum(q * W, Wrap(a), c);
    MulAssoc(q, W, c);
    MulAssoc(q, c, W);
    assert a * c == Wrap(a) * c + q * c * W;
    WrapPlus(Wrap(a) * c, q * c);
  }

  // ---------------------------------------------------------------- bits

  function BitOr(a: nat, b: nat): nat {
    if a == 0 && b == 0 then 0
    else 2 * BitOr(a / 2, b / 2) + if a % 2 == 1 || b % 2 == 1 then 1 else 0
  }

  function BitAnd(a: nat, b: nat): nat
    decreases a
  {
    if a == 0 then 0
    else 2 * BitAnd(a / 2, b / 2) + if a % 2 == 1 && b % 2 == 1 then 1 else 0
  }

  function BitXor(a: nat, b: nat): nat {
    if a == 0 && b == 0 then 0
    else 2 * BitXor(a / 2, b / 2) + if a % 2 != b % 2 then 1 else 0
  }

  /** Without common bits, `or` adds. */
  lemma {:induction false} OrAdds(a: nat, b: nat)
    requires BitAnd(a, b) == 0
    ensures BitOr(a, b) == a + b
  {
    if a != 0 || b != 0 {
      if a == 0 {
        OrAdds(0, b / 2);
      } else {
        OrAdds(a / 2, b / 2);
      }
    }
  }

  lemma {:induction false} ApartBits(a: nat, b: nat, k: nat)
    requires a < Pow2(k)
    ensures b * Pow2(k) >= 0 && BitAnd(a, b * Pow2(k)) == 0
    decreases k
  {
    MulAtMost(0, b, Pow2(k));
    if a != 0 {
      var c, p := b * Pow2(k), Pow2(k - 1);
      assert c == 2 * (b * p);
      ApartBits(a / 2, b, k - 1);
    }
  }

  /** `or` with bits above all those of `a` adds them. */
  lemma OrShifted(a: nat, b: nat, k: nat)
    requires a < Pow2(k)
    ensures b * Pow2(k) >= 0 && BitOr(a, b * Pow2(k)) == a + b * Pow2(k)
  {
    ApartBits(a, b, k);
    OrAdds(a, b * Pow2(k));
  }

  lemma {:induction false} OrSwaps(a: nat, b: nat)
    ensures BitOr(a, b) == BitOr(b, a)
  {
    if a != 0 || b != 0 {
      OrSwaps(a / 2, b / 2);
    }
  }

  lemma Pow2Times(a: nat, b: nat)
    ensures Pow2(a * (b + 1)) == Pow2(a * b) * Pow2(a) && a * b >= 0
  {
    Pow2Sum(a * b, a);
  }
}
