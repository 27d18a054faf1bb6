/**
 lib/Analysis/ConstantFolding.cpp, FoldBitCast: casting constant integers and vectors of them to integers and
 vectors of other elements, in both byte orders.
 */
module VectorCasts {
  import opened Arithmetic
  import opened DigitStrings
  import opened Wrappers

  /** Groups of `ratio` elements, each joined to one (ConstantFolding.cpp:171-195). */
  ghost function Widened(xs: seq<nat>, b: nat, ratio: nat, little: bool): seq<nat>
    requires ratio > 0
    decreases |xs|
  {
    if |xs| < ratio then [] else [Join(xs[..ratio], b, little)] + Widened(xs[ratio..], b, ratio, little)
  }

  /** Each element split into `ratio` elements (ConstantFolding.cpp:198-218). */
  ghost function Narrowed(xs: seq<nat>, b: nat, ratio: nat, little: bool): seq<nat> {
    if xs == [] then [] else Split(xs[0], b, ratio, little) + Narrowed(xs[1..], b, ratio, little)
  }

  lemma {:induction false} NarrowedLength(xs: seq<nat>, b: nat, ratio: nat, little: bool)
    ensures |Narrowed(xs, b, ratio, little)| == |xs| * ratio
  {
    if xs != [] {
      NarrowedLength(xs[1..], b, ratio, little);
      MulSum(|xs| - 1, 1, ratio);
    }
  }

  /** Casting to wider elements and back is the identity. */
  lemma {:induction false} NarrowedWidened(xs: seq<nat>, b: nat, ratio: nat, n: nat, little: bool)
    requires ratio > 0 && |xs| == n * ratio && Digits(xs, b)
    ensures Narrowed(Widened(xs, b, ratio, little), b, ratio, little) == xs
    decreases n
  {
    if n == 0 {
    } else {
      MulSum(n, 1, ratio);
      MulAtMost(0, n - 1, ratio);
      var first, rest := xs[..ratio], xs[ratio..];
      SplitOfJoin(first, b, little);
      NarrowedWidened(rest, b, ratio, n - 1, little);
      var wide := Widened(xs, b, ratio, little);
      assert wide[0] == Join(first, b, little) && wide[1..] == Widened(rest, b, ratio, little);
      assert xs == first + rest;
    }
  }

  /** Casting to narrower elements and back is the identity. */
  lemma {:induction false} WidenedNarrowed(xs: seq<nat>, b: nat, ratio: nat, little: bool)
    requires ratio > 0 && Digits(xs, b * ratio)
    ensures Widened(Narrowed(xs, b, ratio, little), b, ratio, little) == xs
    decreases |xs|
  {
    if xs != [] {
      JoinOfSplit(xs[0], b, ratio, little);
      WidenedNarrowed(xs[1..], b, ratio, little);
      var narrow := Narrowed(xs, b, ratio, little);
      assert narrow[..ratio] == Split(xs[0], b, ratio, little) && narrow[ratio..] == Narrowed(xs[1..], b, ratio, little);
      assert xs == [xs[0]] + xs[1..];
    }
  }

  /** The vector as one integer does not depend on how it is cut into elements. */
  lemma {:induction false} WidenedSameNumber(xs: seq<nat>, b: nat, ratio: nat, n: nat, little: bool)
    requires ratio > 0 && |xs| == n * ratio
    ensures |Widened(xs, b, ratio, little)| == n
    ensures b * ratio >= 0 && Join(Widened(xs, b, ratio, little), b * ratio, little) == Join(xs, b, little)
    decreases n
  {
    hide Pow2, JoinLow, JoinHigh;
    MulAtMost(0, b, ratio);
    if n == 0 {
      NothingJoined(b);
      NothingJoined(b * ratio);
    } else {
      MulSum(n, 1, ratio);
      MulAtMost(0, n - 1, ratio);
      var first, rest := xs[..ratio], xs[ratio..];
      WidenedSameNumber(rest, b, ratio, n - 1, little);
      assert xs == first + rest;
      OneMoreWide(first, rest, Widened(rest, b, ratio, little), b, ratio, b * ratio, little);
    }
  }

  lemma OneMoreWide(first: seq<nat>, rest: seq<nat>, tail: seq<nat>, b: nat, ratio: nat, wide: nat, little: bool)
    requires wide == b * ratio && |first| == ratio && |rest| == |tail| * ratio && Join(tail, wide, little) == Join(rest, b, little)
    ensures Join([Join(first, b, little)] + tail, wide, little) == Join(first + rest, b, little)
  {
    hide Pow2, JoinLow, JoinHigh;
    var x := Join(first, b, little);
    JoinOfOne(x, wide, little);
    MulAssoc(b, ratio, |tail|);
    assert wide * |tail| == b * |rest| && wide * 1 == b * |first|;
    if little {
      JoinLowBoth(first, rest, b);
      JoinLowBoth([x], tail, wide);
    } else {
      JoinHighBoth(first, rest, b);
      JoinHighBoth([x], tail, wide);
    }
  }

  lemma JoinOfOne(x: nat, b: nat, little: bool)
    ensures Join([x], b, little) == x
  {
    JoinLowFirst(x, [], b);
    JoinHighLast([], x, b);
    assert [x] + [] == [x] && [] + [x] == [x];
    assert JoinLow([], b) == 0 && JoinHigh([], b) == 0;
  }

  /** Joining the groups keeps all digits below the new base. */
  lemma {:induction false} WidenedDigits(xs: seq<nat>, b: nat, ratio: nat, little: bool)
    requires ratio > 0 && Digits(xs, b)
    ensures b * ratio >= 0 && Digits(Widened(xs, b, ratio, little), b * ratio)
    decreases |xs|
  {
    hide Pow2;
    MulAtMost(0, b, ratio);
    if |xs| >= ratio {
      JoinBound(xs[..ratio], b, little);
      WidenedDigits(xs[ratio..], b, ratio, little);
    }
  }

  lemma {:induction false} NarrowedDigits(xs: seq<nat>, b: nat, ratio: nat, little: bool)
    requires Digits(xs, b * ratio)
    ensures Digits(Narrowed(xs, b, ratio, little), b)
    decreases |xs|
  {
    hide Pow2;
    if xs != [] {
      JoinOfSplit(xs[0], b, ratio, little);
      NarrowedDigits(xs[1..], b, ratio, little);
    }
  }

  /** A bit cast: the vector as one number, cut into `n` elements of `width` bits. */
  ghost function Recut(xs: seq<nat>, b: nat, n: nat, width: nat, little: bool): (r: seq<nat>)
    ensures |r| == n
  {
    Split(Join(xs, b, little), width, n, little)
  }

  lemma WidenedIsRecut(xs: seq<nat>, b: nat, ratio: nat, n: nat, little: bool)
    requires ratio > 0 && |xs| == n * ratio && Digits(xs, b)
    ensures b * ratio >= 0 && Widened(xs, b, ratio, little) == Recut(xs, b, n, b * ratio, little)
  {
    MulAtMost(0, b, ratio);
    WidenedSameNumber(xs, b, ratio, n, little);
    WidenedDigits(xs, b, ratio, little);
    SplitOfJoin(Widened(xs, b, ratio, little), b * ratio, little);
  }

  lemma NarrowedIsRecut(xs: seq<nat>, b: nat, ratio: nat, little: bool)
    requires ratio > 0 && Digits(xs, b * ratio)
    ensures |xs| * ratio >= 0 && Narrowed(xs, b, ratio, little) == Recut(xs, b * ratio, |xs| * ratio, b, little)
  {
    var narrow := Narrowed(xs, b, ratio, little);
    NarrowedLength(xs, b, ratio, little);
    NarrowedDigits(xs, b, ratio, little);
    WidenedNarrowed(xs, b, ratio, little);
    WidenedSameNumber(narrow, b, ratio, |xs|, little);
    SplitOfJoin(narrow, b, little);
  }

  /** Cutting a vector into other elements and back is the identity, whatever the shapes. */
  lemma RecutBack(xs: seq<nat>, b: nat, n: nat, width: nat, little: bool)
    requires Digits(xs, b) && |xs| * b == n * width
    ensures Recut(Recut(xs, b, n, width, little), width, |xs|, b, little) == xs
  {
    JoinBound(xs, b, little);
    assert b * |xs| == width * n;
    JoinOfSplit(Join(xs, b, little), width, n, little);
    SplitOfJoin(xs, b, little);
  }

  lemma JoinLowFirst(x: nat, xs: seq<nat>, b: nat)
    ensures JoinLow([x] + xs, b) == x + JoinLow(xs, b) * Pow2(b)
  {
    assert ([x] + xs)[1..] == xs;
  }

  lemma JoinHighLast(xs: seq<nat>, x: nat, b: nat)
    ensures JoinHigh(xs + [x], b) == JoinHigh(xs, b) * Pow2(b) + x
  {
    assert (xs + [x])[..|xs|] == xs;
  }

  /**
   A vector of integers as one integer (ConstantFolding.cpp:84-97): shifting never loses a bit, and `or` never
   meets one.
   */
  method FoldToInteger(xs: seq<nat>, b: nat, width: nat, little: bool) returns (result: nat)
    requires Digits(xs, b) && width == b * |xs|
    ensures result == Join(xs, b, little)
  {
    hide Pow2, JoinLow, JoinHigh, BitOr;
    var n := |xs|;
    result := 0;
    assert xs[n..] == [] && xs[..0] == [] && xs[0..] == xs && xs[..n] == xs;
    NothingJoined(b);
    for i := 0 to n
      invariant little ==> result == JoinLow(xs[n - i..], b)
      invariant !little ==> result == JoinHigh(xs[..i], b)
    {
      var x := if little then xs[n - i - 1] else xs[i];
      if little {
        assert xs[n - i - 1..] == [x] + xs[n - i..];
        JoinLowFirst(x, xs[n - i..], b);
        JoinLowBound(xs[n - i..], b);
      } else {
        assert xs[..i + 1] == xs[..i] + [x];
        JoinHighLast(xs[..i], x, b);
        JoinHighBound(xs[..i], b);
      }
      InsertLow(result, x, b, i, n);
      result := BitOr(result * Pow2(b) % Pow2(width), x);
    }
  }

  lemma InsertLow(r: nat, x: nat, b: nat, i: nat, n: nat)
    requires i < n && b * i >= 0 && r < Pow2(b * i) && x < Pow2(b)
    ensures b * n >= 0 && r * Pow2(b) >= 0 && BitOr(r * Pow2(b) % Pow2(b * n), x) == r * Pow2(b) + x
  {
    hide Pow2, BitOr;
    Pow2Times(b, i);
    MulAtMost(0, r, Pow2(b));
    MulAtMost(r + 1, Pow2(b * i), Pow2(b));
    MulSum(r, 1, Pow2(b));
    MulAtMost(i + 1, n, b);
    assert b * (i + 1) == (i + 1) * b && b * n == n * b;
    Pow2AtMost(b * (i + 1), b * n);
    DivisionUnique(r * Pow2(b), Pow2(b * n), 0, r * Pow2(b));
    OrShifted(x, r, b);
    OrSwaps(x, r * Pow2(b));
  }

  // ---------------------------------------------------------------- constants as vectors

  /** An integer type, or a vector of `n` integers. */
  datatype Shape = Scalar(bits: nat) | Vector(n: nat, bits: nat) {
    function Count(): nat {
      if Scalar? then 1 else n
    }
  }

  /** Elements of a constant vector; `None` is an element that is not an integer constant. */
  type Elements = seq<Option<nat>>

  ghost predicate AllInts(c: Elements) {
    forall i :: 0 <= i < |c| ==> c[i].Some?
  }

  function ValueOf(x: Option<nat>): nat {
    match x
    case Some(v) => v
    case None => 0
  }

  ghost function Values(c: Elements): (xs: seq<nat>)
    ensures |xs| == |c| && forall i :: 0 <= i < |c| ==> xs[i] == ValueOf(c[i])
  {
    seq(|c|, (i: nat) requires i < |c| => ValueOf(c[i]))
  }

  /** Where a piece belongs: upwards for little endian, downwards for big endian. */
  function ShiftAt(b: nat, ratio: nat, j: nat, little: bool): nat
    requires j < ratio
  {
    if little then b * j else b * (ratio - 1 - j)
  }

  /** The pieces mixed in so far, in place. */
  ghost predicate MixedIn(elt: nat, xs: seq<nat>, b: nat, ratio: nat, little: bool)
    requires |xs| <= ratio
  {
    if little then elt == JoinLow(xs, b)
    else b * (ratio - |xs|) >= 0 && elt == JoinHigh(xs, b) * Pow2(b * (ratio - |xs|))
  }

  /** One more piece: shifted to its place it loses no bit and meets none. */
  lemma MixIn(elt: nat, xs: seq<nat>, x: nat, b: nat, ratio: nat, little: bool)
    requires |xs| < ratio && Digits(xs, b) && x < Pow2(b) && MixedIn(elt, xs, b, ratio, little)
    ensures b * ratio >= 0
    ensures var piece: nat := ShiftLeft(x, ShiftAt(b, ratio, |xs|, little), b * ratio);
            MixedIn(BitOr(elt, piece), xs + [x], b, ratio, little)
  {
    hide Pow2, BitOr, JoinLow, JoinHigh;
    var j := |xs|;
    var shift := ShiftAt(b, ratio, j, little);
    PieceFits(x, b, ratio, if little then j else ratio - 1 - j);
    if little {
      JoinLowBound(xs, b);
      OrShifted(elt, x, b * j);
      JoinLowBoth(xs, [x], b);
      JoinOfOne(x, b, true);
    } else {
      var k := ratio - 1 - j;
      MixHigh(JoinHigh(xs, b), x, b, k);
      JoinHighLast(xs, x, b);
      assert ratio - |xs| == k + 1 && ratio - |xs + [x]| == k;
    }
  }

  /** `shl` in a type of `width` bits. */
  function ShiftLeft(x: nat, shift: nat, width: nat): nat {
    MulAtMost(0, x, Pow2(shift));
    DivMod(x * Pow2(shift), Pow2(width));
    x * Pow2(shift) % Pow2(width)
  }

  lemma PieceFits(x: nat, b: nat, ratio: nat, k: nat)
    requires x < Pow2(b) && k < ratio
    ensures b * k >= 0 && b * ratio >= 0 && x * Pow2(b * k) >= 0
    ensures ShiftLeft(x, b * k, b * ratio) == x * Pow2(b * k) < Pow2(b * (k + 1))
  {
    hide Pow2;
    Pow2Times(b, k);
    MulAtMost(0, x, Pow2(b * k));
    MulAtMost(x + 1, Pow2(b), Pow2(b * k));
    MulSum(x, 1, Pow2(b * k));
    assert Pow2(b) * Pow2(b * k) == Pow2(b * k) * Pow2(b);
    MulAtMost(k + 1, ratio, b);
    assert b * (k + 1) == (k + 1) * b && b * ratio == ratio * b;
    Pow2AtMost(b * (k + 1), b * ratio);
    DivisionUnique(x * Pow2(b * k), Pow2(b * ratio), 0, x * Pow2(b * k));
  }

  lemma MixHigh(joined: nat, x: nat, b: nat, k: nat)
    requires x < Pow2(b)
    ensures b * (k + 1) >= 0 && b * k >= 0 && joined * Pow2(b * (k + 1)) >= 0 && x * Pow2(b * k) >= 0
    ensures BitOr(joined * Pow2(b * (k + 1)), x * Pow2(b * k)) == (joined * Pow2(b) + x) * Pow2(b * k)
  {
    hide Pow2, BitOr;
    PieceFits(x, b, k + 1, k);
    Pow2Times(b, k);
    MulAtMost(0, joined, Pow2(b * (k + 1)));
    OrShifted(x * Pow2(b * k), joined, b * (k + 1));
    OrSwaps(x * Pow2(b * k), joined * Pow2(b * (k + 1)));
    MulSum(joined * Pow2(b), x, Pow2(b * k));
    MulAssoc(joined, Pow2(b), Pow2(b * k));
    assert Pow2(b) * Pow2(b * k) == Pow2(b * k) * Pow2(b);
  }

  lemma DigitsWithin(xs: seq<nat>, lo: nat, hi: nat, b: nat)
    requires lo <= hi <= |xs| && Digits(xs, b)
    ensures Digits(xs[lo..hi], b)
  {
    forall i | 0 <= i < hi - lo ensures xs[lo..hi][i] < Pow2(b) {
      assert xs[lo..hi][i] == xs[lo + i];
    }
  }

  /** Shifts and mixes `ratio` elements into one (ConstantFolding.cpp:174-193). */
  method MixElement(c: Elements, srcElt: nat, b: nat, ratio: nat, little: bool) returns (result: Option<nat>)
    requires srcElt + ratio <= |c| && Digits(Values(c), b)
    ensures (forall k :: srcElt <= k < srcElt + ratio ==> c[k].Some?) <==> result.Some?
    ensures result.Some? ==> result.value == Join(Values(c)[srcElt..srcElt + ratio], b, little)
  {
    hide Pow2, BitOr, Join, ShiftAt, MixedIn, ShiftLeft;
    ghost var xs := Values(c)[srcElt..srcElt + ratio];
    MulAtMost(0, b, ratio);
    var elt: nat := 0;
    NothingMixedIn(b, ratio, little);
    for j := 0 to ratio
      invariant forall k :: srcElt <= k < srcElt + j ==> c[k].Some?
      invariant MixedIn(elt, xs[..j], b, ratio, little)
    {
      if c[srcElt + j].None? {
        return None;
      }
      assert xs[..j] == Values(c)[srcElt..srcElt + j];
      DigitsWithin(Values(c), srcElt, srcElt + j, b);
      MixIn(elt, xs[..j], xs[j], b, ratio, little);
      assert xs[..j + 1] == xs[..j] + [xs[j]];
      elt := BitOr(elt, ShiftLeft(c[srcElt + j].value, ShiftAt(b, ratio, j, little), b * ratio));
    }
    assert xs[..ratio] == xs;
    AllMixedIn(elt, xs, b, little);
    return Some(elt);
  }

  /** Fewer, wider elements, from `ratio` old ones each (ConstantFolding.cpp:167-196). */
  method FoldToWider(c: Elements, b: nat, ratio: nat, numDstElt: nat, little: bool) returns (result: Option<seq<nat>>)
    requires ratio > 0 && |c| == numDstElt * ratio && Digits(Values(c), b)
    ensures AllInts(c) <==> result.Some?
    ensures result.Some? ==> result.value == Widened(Values(c), b, ratio, little)
  {
    hide Pow2, Join, Widened, Digits;
    ghost var xs := Values(c);
    var elts: seq<nat> := [];
    var srcElt: nat := 0;
    assert xs[0..] == xs;
    for i := 0 to numDstElt
      invariant srcElt == i * ratio <= |c|
      invariant forall k :: 0 <= k < srcElt ==> c[k].Some?
      invariant elts + Widened(xs[srcElt..], b, ratio, little) == Widened(xs, b, ratio, little)
    {
      RoomForGroup(i, numDstElt, ratio);
      var elt := MixElement(c, srcElt, b, ratio, little);
      if elt.None? {
        return None;
      }
      NextGroup(xs, srcElt, b, ratio, little);
      srcElt := srcElt + ratio;
      AppendOne(elts, elt.value, Widened(xs[srcElt..], b, ratio, little));
      elts := elts + [elt.value];
    }
    NoGroup(xs[srcElt..], b, ratio, little);
    return Some(elts);
  }

  lemma RoomForGroup(i: nat, n: nat, ratio: nat)
    requires i < n
    ensures i * ratio + ratio == (i + 1) * ratio <= n * ratio
  {
    MulSum(i, 1, ratio);
    MulAtMost(i + 1, n, ratio);
  }

  lemma AppendOne(xs: seq<nat>, x: nat, ys: seq<nat>)
    ensures xs + ([x] + ys) == xs + [x] + ys
  {
  }

  lemma NoGroup(xs: seq<nat>, b: nat, ratio: nat, little: bool)
    requires xs == [] && ratio > 0
    ensures forall ys: seq<nat> :: ys + Widened(xs, b, ratio, little) == ys
  {
    forall ys: seq<nat> ensures ys + Widened(xs, b, ratio, little) == ys {
    }
  }

  lemma NothingMixedIn(b: nat, ratio: nat, little: bool)
    ensures MixedIn(0, [], b, ratio, little)
  {
    MulAtMost(0, b, ratio);
  }

  lemma AllMixedIn(elt: nat, xs: seq<nat>, b: nat, little: bool)
    requires MixedIn(elt, xs, b, |xs|, little)
    ensures elt == Join(xs, b, little)
  {
    ZeroDigits(b);
  }

  lemma NextGroup(xs: seq<nat>, base: nat, b: nat, ratio: nat, little: bool)
    requires ratio > 0 && base + ratio <= |xs|
    ensures Widened(xs[base..], b, ratio, little) ==
            [Join(xs[base..base + ratio], b, little)] + Widened(xs[base + ratio..], b, ratio, little)
  {
    assert xs[base..][..ratio] == xs[base..base + ratio] && xs[base..][ratio..] == xs[base + ratio..];
  }

  /** More, narrower elements: each one is shifted and cut `ratio` times (ConstantFolding.cpp:198-220). */
  method FoldToNarrower(c: Elements, b: nat, ratio: nat, little: bool) returns (result: Option<seq<nat>>)
    requires ratio > 0
    ensures AllInts(c) <==> result.Some?
    ensures result.Some? ==> result.value == Narrowed(Values(c), b, ratio, little)
  {
    hide Pow2, Narrowed;
    ghost var xs := Values(c);
    var elts: seq<nat> := [];
    assert xs[0..] == xs;
    for i := 0 to |c|
      invariant forall k :: 0 <= k < i ==> c[k].Some?
      invariant elts + Narrowed(xs[i..], b, ratio, little) == Narrowed(xs, b, ratio, little)
    {
      if c[i].None? {
        return None;
      }
      elts := Pieces(elts, c[i].value, b, ratio, little);
      NextSplit(xs, i, b, ratio, little);
    }
    NothingSplit(xs[|c|..], b, ratio, little);
    return Some(elts);
  }

  /** Appends the pieces of one element (ConstantFolding.cpp:207-217). */
  method Pieces(elts: seq<nat>, src: nat, b: nat, ratio: nat, little: bool) returns (result: seq<nat>)
    ensures result == elts + Split(src, b, ratio, little)
  {
    hide Pow2, ShiftAt, Split;
    ghost var pieces := Split(src, b, ratio, little);
    result := elts;
    for j := 0 to ratio
      invariant result == elts + pieces[..j]
    {
      PieceAt(src, b, ratio, j, little);
      DivMod(src, Pow2(ShiftAt(b, ratio, j, little)));
      result := result + [src / Pow2(ShiftAt(b, ratio, j, little)) % Pow2(b)];
    }
    assert pieces[..ratio] == pieces;
  }

  lemma NextSplit(xs: seq<nat>, i: nat, b: nat, ratio: nat, little: bool)
    requires i < |xs|
    ensures forall ys: seq<nat> :: ys + Narrowed(xs[i..], b, ratio, little) ==
                                   ys + Split(xs[i], b, ratio, little) + Narrowed(xs[i + 1..], b, ratio, little)
  {
    assert xs[i..][0] == xs[i] && xs[i..][1..] == xs[i + 1..];
    forall ys: seq<nat>
      ensures ys + Narrowed(xs[i..], b, ratio, little) ==
              ys + Split(xs[i], b, ratio, little) + Narrowed(xs[i + 1..], b, ratio, little)
    {
    }
  }

  lemma NothingSplit(xs: seq<nat>, b: nat, ratio: nat, little: bool)
    requires xs == []
    ensures forall ys: seq<nat> :: ys + Narrowed(xs, b, ratio, little) == ys
  {
    forall ys: seq<nat> ensures ys + Narrowed(xs, b, ratio, little) == ys {
    }
  }

  lemma PieceAt(v: nat, b: nat, ratio: nat, j: nat, little: bool)
    requires j < ratio
    ensures Split(v, b, ratio, little)[j] == v / Pow2(ShiftAt(b, ratio, j, little)) % Pow2(b)
  {
    DigitAt(v, b, ratio, little, j, if little then j else ratio - 1 - j);
  }

  ghost predicate ElementsFit(c: Elements, b: nat) {
    Digits(Values(c), b)
  }

  predicate IsSplat(c: Elements, v: nat) {
    forall i :: 0 <= i < |c| ==> c[i] == Some(v)
  }

  /** The widths of data vectors. */
  predicate DataElement(bits: nat) {
    bits == 8 || bits == 16 || bits == 32 || bits == 64
  }

  /** All zeros stay all zeros, and all ones stay all ones. */
  lemma ZerosStay(c: Elements, b: nat, n: nat, width: nat, little: bool)
    requires IsSplat(c, 0)
    ensures Recut(Values(c), b, n, width, little) == seq(n, i => 0)
  {
    JoinZeros(Values(c), b);
    SplitZero(width, n);
  }

  lemma {:induction false} JoinZeros(xs: seq<nat>, b: nat)
    requires forall i :: 0 <= i < |xs| ==> xs[i] == 0
    ensures JoinLow(xs, b) == 0 && JoinHigh(xs, b) == 0
  {
    if xs != [] {
      JoinZeros(xs[1..], b);
      JoinZeros(xs[..|xs| - 1], b);
    }
  }

  lemma {:induction false} SplitZero(b: nat, n: nat)
    ensures SplitLow(0, b, n) == SplitHigh(0, b, n) == seq(n, i => 0)
  {
    if n > 0 {
      SplitZero(b, n - 1);
      assert 0 / Pow2(b) == 0 && 0 % Pow2(b) == 0;
      assert [0] + seq(n - 1, i => 0) == seq(n, i => 0) == seq(n - 1, i => 0) + [0];
    }
  }

  lemma OnesStay(c: Elements, b: nat, n: nat, width: nat, little: bool)
    requires IsSplat(c, Pow2(b) - 1) && |c| * b == n * width
    ensures Recut(Values(c), b, n, width, little) == seq(n, i => Pow2(width) - 1)
  {
    var xs, ys: seq<nat> := Values(c), seq(n, i => Pow2(width) - 1);
    JoinOnes(xs, b);
    JoinOnes(ys, width);
    assert b * |xs| == width * |ys|;
    SplitOfJoin(ys, width, little);
  }

  lemma {:induction false} JoinOnes(xs: seq<nat>, b: nat)
    requires forall i :: 0 <= i < |xs| ==> xs[i] == Pow2(b) - 1
    ensures JoinLow(xs, b) == JoinHigh(xs, b) == Pow2(b * |xs|) - 1
  {
    hide Pow2;
    if xs == [] {
      ZeroDigits(b);
    } else {
      var n := |xs| - 1;
      JoinOnes(xs[1..], b);
      JoinOnes(xs[..n], b);
      Pow2Times(b, n);
      MulSum(Pow2(b * n), 1, Pow2(b));
    }
  }

  /**
   The integer part of `FoldBitCast` (ConstantFolding.cpp:53-221), from elements of `b` bits to a type of the
   same width whose element count divides the old one or is divided by it: whichever branch is taken, the
   result is the constant as one number, cut into the elements of the new type.
   */
  method FoldBitCast(c: Elements, isVector: bool, b: nat, dst: Shape, little: bool) returns (result: Option<seq<nat>>)
    requires b > 0 && dst.bits > 0 && |c| > 0 && (!isVector ==> |c| == 1) && ElementsFit(c, b)
    requires |c| * b == dst.Count() * dst.bits && (|c| % dst.Count() == 0 || dst.Count() % |c| == 0)
    ensures result.Some? ==> AllInts(c) && result.value == Recut(Values(c), b, dst.Count(), dst.bits, little)
    ensures AllInts(c) && (dst.Scalar? && isVector ==> DataElement(b)) ==> result.Some?
  {
    hide Pow2, Join, Split, Digits;
    var n, width := dst.Count(), dst.bits;
    if IsSplat(c, 0) {
      ZerosStay(c, b, n, width, little);
      return Some(seq(n, i => 0));
    }
    if IsSplat(c, Pow2(b) - 1) {
      OnesStay(c, b, n, width, little);
      return Some(seq(n, i => Pow2(width) - 1));
    }
    if dst.Scalar? && isVector {
      if !DataElement(b) || exists i :: 0 <= i < |c| && c[i].None? {
        return None;
      }
      var xs := seq(|c|, (i: nat) requires i < |c| => ValueOf(c[i]));
      assert xs == Values(c);
      var number := FoldToInteger(xs, b, width, little);
      OnePiece(number, xs, b, width, little);
      return Some([number]);
    }
    if n == |c| {
      if exists i :: 0 <= i < |c| && c[i].None? {
        return None;
      }
      EqualFactor(b, width, n);
      SplitOfJoin(Values(c), b, little);
      return Some(seq(|c|, (i: nat) requires i < |c| => ValueOf(c[i])));
    }
    if n < |c| {
      var ratio := |c| / n;
      WholeRatio(|c|, n, b, width);
      result := FoldToWider(c, b, ratio, n, little);
      WidenedIsRecut(Values(c), b, ratio, n, little);
    } else {
      var ratio := n / |c|;
      WholeRatio(n, |c|, width, b);
      result := FoldToNarrower(c, width, ratio, little);
      NarrowedIsRecut(Values(c), width, ratio, little);
    }
  }

  lemma OnePiece(number: nat, xs: seq<nat>, b: nat, width: nat, little: bool)
    requires number == Join(xs, b, little) && Digits(xs, b) && width == b * |xs|
    ensures [number] == Recut(xs, b, 1, width, little)
  {
    JoinBound(xs, b, little);
    DivisionUnique(number, Pow2(width), 0, number);
    assert SplitLow(number, width, 1) == SplitHigh(number, width, 1) == [number];
  }

  /** If the smaller count divides the larger one, the elements of the smaller are that much wider. */
  lemma WholeRatio(more: nat, fewer: nat, narrow: nat, wide: nat)
    requires more > fewer > 0 && narrow > 0 && more * narrow == fewer * wide && (more % fewer == 0 || fewer % more == 0)
    ensures more / fewer > 0 && more == fewer * (more / fewer) && wide == narrow * (more / fewer)
  {
    DivMod(more, fewer);
    var q := more / fewer;
    assert more % fewer == 0 by {
      if more % fewer != 0 {
        DivisionUnique(fewer, more, 0, fewer);
      }
    }
    assert more == fewer * q;
    MulAssoc(fewer, q, narrow);
    assert fewer * (q * narrow) == fewer * wide;
    EqualFactor(q * narrow, wide, fewer);
  }
}
