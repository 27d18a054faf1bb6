/**
 Numbers as strings of digits of `b` bits, the lowest digit first (little endian) or last (big endian): how
 integers lie in memory and in vectors.  `Join` gives the number that a string of digits stands for, `Split` the
 lowest digits of a number; they are inverse to each other, digit by digit and in parts.  Both byte orders are
 treated alike, so that what uses them need not tell them apart.
 */
module DigitStrings {
  import opened Arithmetic

  ghost predicate Digits(xs: seq<nat>, b: nat) {
    forall i :: 0 <= i < |xs| ==> xs[i] < Pow2(b)
  }

  function JoinLow(xs: seq<nat>, b: nat): nat {
    if xs == [] then 0 else
      MulAtMost(0, JoinLow(xs[1..], b), Pow2(b));
      xs[0] + JoinLow(xs[1..], b) * Pow2(b)
  }

  function JoinHigh(xs: seq<nat>, b: nat): nat {
    if xs == [] then 0 else
      MulAtMost(0, JoinHigh(xs[..|xs| - 1], b), Pow2(b));
      JoinHigh(xs[..|xs| - 1], b) * Pow2(b) + xs[|xs| - 1]
  }

  lemma NothingJoined(b: nat)
    ensures JoinLow([], b) == 0 && JoinHigh([], b) == 0
  {
  }

  /** The number that the digits `xs` stand for. */
  function Join(xs: seq<nat>, b: nat, little: bool): nat {
    if little then JoinLow(xs, b) else JoinHigh(xs, b)
  }

  function SplitLow(v: nat, b: nat, n: nat): (xs: seq<nat>)
    ensures |xs| == n
    decreases n
  {
    if n == 0 then [] else
      DivMod(v, Pow2(b));
      [v % Pow2(b)] + SplitLow(v / Pow2(b), b, n - 1)
  }

  function SplitHigh(v: nat, b: nat, n: nat): (xs: seq<nat>)
    ensures |xs| == n
    decreases n
  {
    if n == 0 then [] else
      DivMod(v, Pow2(b));
      SplitHigh(v / Pow2(b), b, n - 1) + [v % Pow2(b)]
  }

  /** The lowest `n` digits of `v`. */
  function Split(v: nat, b: nat, n: nat, little: bool): (xs: seq<nat>)
    ensures |xs| == n
  {
    if little then SplitLow(v, b, n) else SplitHigh(v, b, n)
  }

  lemma {:induction false} SplitOfJoinLow(xs: seq<nat>, b: nat)
    requires Digits(xs, b)
    ensures SplitLow(JoinLow(xs, b), b, |xs|) == xs
  {
    if xs != [] {
      SplitOfJoinLow(xs[1..], b);
      var v, n := JoinLow(xs, b), |xs| - 1;
      DivisionUnique(v, Pow2(b), JoinLow(xs[1..], b), xs[0]);
      assert SplitLow(v, b, n + 1) == [v % Pow2(b)] + SplitLow(v / Pow2(b), b, n);
      assert xs == [xs[0]] + xs[1..];
    }
  }

  lemma {:induction false} SplitOfJoinHigh(xs: seq<nat>, b: nat)
    requires Digits(xs, b)
    ensures SplitHigh(JoinHigh(xs, b), b, |xs|) == xs
  {
    if xs != [] {
      var n := |xs| - 1;
      SplitOfJoinHigh(xs[..n], b);
      var v := JoinHigh(xs, b);
      DivisionUnique(v, Pow2(b), JoinHigh(xs[..n], b), xs[n]);
      assert SplitHigh(v, b, n + 1) == SplitHigh(v / Pow2(b), b, n) + [v % Pow2(b)];
      assert xs == xs[..n] + [xs[n]];
    }
  }

  /** Splitting what has been joined gives the digits back, in both orders. */
  lemma SplitOfJoin(xs: seq<nat>, b: nat, little: bool)
    requires Digits(xs, b)
    ensures Split(Join(xs, b, little), b, |xs|, little) == xs
  {
    if little {
      SplitOfJoinLow(xs, b);
    } else {
      SplitOfJoinHigh(xs, b);
    }
  }

  lemma {:induction false} JoinOfSplitLow(v: nat, b: nat, n: nat)
    requires v < Pow2(b * n)
    ensures JoinLow(SplitLow(v, b, n), b) == v && Digits(SplitLow(v, b, n), b)
    decreases n
  {
    hide Pow2;
    if n == 0 {
      ZeroDigits(b);
    } else {
      QuotientSmaller(v, b, n);
      DivMod(v, Pow2(b));
      JoinOfSplitLow(v / Pow2(b), b, n - 1);
      assert SplitLow(v, b, n)[1..] == SplitLow(v / Pow2(b), b, n - 1);
    }
  }

  lemma {:induction false} JoinOfSplitHigh(v: nat, b: nat, n: nat)
    requires v < Pow2(b * n)
    ensures JoinHigh(SplitHigh(v, b, n), b) == v && Digits(SplitHigh(v, b, n), b)
    decreases n
  {
    hide Pow2;
    if n == 0 {
      ZeroDigits(b);
    } else {
      QuotientSmaller(v, b, n);
      DivMod(v, Pow2(b));
      JoinOfSplitHigh(v / Pow2(b), b, n - 1);
      assert SplitHigh(v, b, n)[..n - 1] == SplitHigh(v / Pow2(b), b, n - 1);
    }
  }

  lemma ZeroDigits(b: nat)
    ensures Pow2(b * 0) == 1
  {
  }

  lemma QuotientSmaller(v: nat, b: nat, n: nat)
    requires n > 0 && v < Pow2(b * n)
    ensures b * (n - 1) >= 0 && v / Pow2(b) < Pow2(b * (n - 1)) && v / Pow2(b) >= 0
  {
    hide *;
    Pow2Times(b, n - 1);
    QuotientLess(v, Pow2(b), Pow2(b * (n - 1)));
  }

  /** Joining the digits of a number gives the number back, in both orders. */
  lemma JoinOfSplit(v: nat, b: nat, n: nat, little: bool)
    requires v < Pow2(b * n)
    ensures Join(Split(v, b, n, little), b, little) == v && Digits(Split(v, b, n, little), b)
  {
    if little {
      JoinOfSplitLow(v, b, n);
    } else {
      JoinOfSplitHigh(v, b, n);
    }
  }

  /** What is left above one digit is cut at the next. */
  lemma DigitAbove(v: nat, b: nat, e: nat)
    ensures b * e >= 0 && b * (e + 1) >= 0 && v / Pow2(b) >= 0 && v / Pow2(b) / Pow2(b * e) == v / Pow2(b * (e + 1))
  {
    Pow2Times(b, e);
    MulAtMost(0, b, e + 1);
    hide *;
    DivideTwice(v, Pow2(b), Pow2(b * e), Pow2(b * (e + 1)));
  }

  lemma DivideTwice(v: nat, p: int, q: int, r: int)
    requires p > 0 && q > 0 && r == q * p
    ensures r > 0 && v / p >= 0 && v / p / q == v / r
  {
    DivMod(v, p);
    DivTwice(v, p, q);
    assert p * q == q * p;
  }

  lemma {:induction false} DigitAtLow(v: nat, b: nat, n: nat, k: nat)
    requires k < n
    ensures b * k >= 0 && SplitLow(v, b, n)[k] == v / Pow2(b * k) % Pow2(b)
    decreases n
  {
    hide Pow2;
    if k > 0 {
      DigitAbove(v, b, k - 1);
      DigitAtLow(v / Pow2(b), b, n - 1, k - 1);
      assert k - 1 + 1 == k;
    } else {
      ZeroDigits(b);
    }
  }

  lemma {:induction false} DigitAtHigh(v: nat, b: nat, n: nat, k: nat)
    requires k < n
    ensures b * (n - 1 - k) >= 0 && SplitHigh(v, b, n)[k] == v / Pow2(b * (n - 1 - k)) % Pow2(b)
    decreases n
  {
    hide Pow2;
    if k < n - 1 {
      DigitAbove(v, b, n - 2 - k);
      DigitAtHigh(v / Pow2(b), b, n - 1, k);
      assert n - 2 - k + 1 == n - 1 - k;
    } else {
      ZeroDigits(b);
    }
  }

  lemma DigitAt(v: nat, b: nat, n: nat, little: bool, k: nat, e: nat)
    requires k < n && e == if little then k else n - 1 - k
    ensures b * e >= 0 && Split(v, b, n, little)[k] == v / Pow2(b * e) % Pow2(b)
  {
    if little {
      DigitAtLow(v, b, n, k);
    } else {
      DigitAtHigh(v, b, n, k);
    }
  }

  /** The lowest digit comes first in little-endian order and last in big-endian order. */
  lemma LowDigit(v: nat, b: nat, n: nat)
    requires n > 0
    ensures Split(v, b, n, true)[0] == v % Pow2(b) && Split(v, b, n, false)[n - 1] == v % Pow2(b)
  {
    hide Pow2;
    ZeroDigits(b);
    DigitAt(v, b, n, true, 0, 0);
    DigitAt(v, b, n, false, n - 1, 0);
  }

  lemma {:induction false} JoinLowBound(xs: seq<nat>, b: nat)
    requires Digits(xs, b)
    ensures JoinLow(xs, b) < Pow2(b * |xs|)
  {
    if xs != [] {
      JoinLowBound(xs[1..], b);
      Pow2Times(b, |xs| - 1);
      DigitOnTop(xs[0], JoinLow(xs[1..], b), Pow2(b), Pow2(b * (|xs| - 1)));
    }
  }

  lemma {:induction false} JoinHighBound(xs: seq<nat>, b: nat)
    requires Digits(xs, b)
    ensures JoinHigh(xs, b) < Pow2(b * |xs|)
  {
    if xs != [] {
      var n := |xs| - 1;
      JoinHighBound(xs[..n], b);
      Pow2Times(b, n);
      DigitOnTop(xs[n], JoinHigh(xs[..n], b), Pow2(b), Pow2(b * n));
    }
  }

  lemma DigitOnTop(x: nat, y: nat, p: int, q: int)
    requires x < p && y < q
    ensures x + y * p < q * p
  {
    MulAtMost(y, q - 1, p);
    MulSum(q, 1, p);
  }

  lemma JoinBound(xs: seq<nat>, b: nat, little: bool)
    requires Digits(xs, b)
    ensures Join(xs, b, little) < Pow2(b * |xs|)
  {
    if little {
      JoinLowBound(xs, b);
    } else {
      JoinHighBound(xs, b);
    }
  }

  // ---------------------------------------------------------------- joining in parts

  lemma {:induction false} JoinLowBoth(xs: seq<nat>, ys: seq<nat>, b: nat)
    ensures JoinLow(xs + ys, b) == JoinLow(xs, b) + JoinLow(ys, b) * Pow2(b * |xs|)
  {
    if xs == [] {
      assert xs + ys == ys && Pow2(b * 0) == 1;
    } else {
      JoinLowBoth(xs[1..], ys, b);
      assert (xs + ys)[1..] == xs[1..] + ys;
      Pow2Times(b, |xs| - 1);
      var p, q, u, w := Pow2(b), Pow2(b * (|xs| - 1)), JoinLow(xs[1..], b), JoinLow(ys, b);
      MulSum(u, w * q, p);
      MulAssoc(w, q, p);
    }
  }

  lemma {:induction false} JoinHighBoth(xs: seq<nat>, ys: seq<nat>, b: nat)
    ensures JoinHigh(xs + ys, b) == JoinHigh(xs, b) * Pow2(b * |ys|) + JoinHigh(ys, b)
    decreases |ys|
  {
    if ys == [] {
      assert xs + ys == xs && Pow2(b * 0) == 1;
    } else {
      var n := |ys| - 1;
      JoinHighBoth(xs, ys[..n], b);
      assert (xs + ys)[..|xs + ys| - 1] == xs + ys[..n];
      Pow2Times(b, n);
      var p, q, u, w := Pow2(b), Pow2(b * n), JoinHigh(xs, b), JoinHigh(ys[..n], b);
      MulSum(u * q, w, p);
      MulAssoc(u, q, p);
    }
  }
}
