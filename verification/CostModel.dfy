/**
 lib/Analysis/CostModel.cpp, the matchers of vector reductions: what they accept, and what the trees they accept
 compute.  Values are numbered, operands before their users; being the same value is having the same number.
 */
module CostModel {
  import opened Arithmetic
  import opened Wrappers

  type Id = nat
  type Opcode = nat

  /** Vector values; a mask element of -1 is undefined, others count through both operands. */
  datatype Value =
    | Binary(op: Opcode, left: Id, right: Id, width: nat)
    | Shuffle(first: Id, second: Id, mask: seq<int>)
    | Other(width: nat)

  type Program = seq<Value>

  function Width(v: Value): nat {
    match v
    case Shuffle(_, _, mask) => |mask|
    case _ => v.width
  }

  predicate Typed(p: Program) {
    forall i: nat :: i < |p| ==> TypedAt(p, i)
  }

  predicate TypedAt(p: Program, i: Id)
    requires i < |p|
  {
    Width(p[i]) > 0 &&
    match p[i]
    case Binary(_, l, r, width) => l < i && r < i && Width(p[l]) == Width(p[r]) == width
    case Shuffle(first, second, mask) =>
      && first < i && second < i && Width(p[first]) == Width(p[second])
      && forall k :: 0 <= k < |mask| ==> -1 <= mask[k] < 2 * Width(p[first])
    case Other(_) => true
  }

  // ---------------------------------------------------------------- what values mean

  /** Any operators over any lanes; an undefined lane may hold anything. */
  datatype Meaning<!T> = Meaning(apply: (Opcode, T, T) -> T, leaf: (Id, nat) -> T, undef: (Id, nat) -> T)

  ghost function Lanes<T(!new)>(p: Program, i: Id, m: Meaning<T>): (xs: seq<T>)
    requires Typed(p) && i < |p|
    ensures |xs| == Width(p[i])
    decreases i
  {
    assert TypedAt(p, i);
    match p[i]
    case Binary(op, l, r, _) => Both(Lanes(p, l, m), Lanes(p, r, m), op, m)
    case Shuffle(first, second, mask) => Picked(Lanes(p, first, m) + Lanes(p, second, m), mask, i, m)
    case Other(width) => seq(width, (k: nat) => m.leaf(i, k))
  }

  ghost function Both<T(!new)>(xs: seq<T>, ys: seq<T>, op: Opcode, m: Meaning<T>): (zs: seq<T>)
    requires |xs| == |ys|
    ensures |zs| == |xs| && forall k :: 0 <= k < |xs| ==> zs[k] == m.apply(op, xs[k], ys[k])
  {
    seq(|xs|, k requires 0 <= k < |xs| => m.apply(op, xs[k], ys[k]))
  }

  ghost function Picked<T(!new)>(xs: seq<T>, mask: seq<int>, i: Id, m: Meaning<T>): (zs: seq<T>)
    requires forall k :: 0 <= k < |mask| ==> -1 <= mask[k] < |xs|
    ensures |zs| == |mask| && forall k :: 0 <= k < |mask| ==> mask[k] >= 0 ==> zs[k] == xs[mask[k]]
  {
    seq(|mask|, (k: nat) requires k < |mask| => if mask[k] < 0 then m.undef(i, k) else xs[mask[k]])
  }

  /** The operator folded over the lanes. */
  ghost function Fold<T(!new)>(xs: seq<T>, op: Opcode, m: Meaning<T>): T
    requires xs != []
  {
    if |xs| == 1 then xs[0] else m.apply(op, Fold(xs[..|xs| - 1], op, m), xs[|xs| - 1])
  }

  ghost predicate Associative<T(!new)>(op: Opcode, m: Meaning<T>) {
    forall x, y, z :: m.apply(op, m.apply(op, x, y), z) == m.apply(op, x, m.apply(op, y, z))
  }

  ghost predicate Commutative<T(!new)>(op: Opcode, m: Meaning<T>) {
    forall x, y :: m.apply(op, x, y) == m.apply(op, y, x)
  }

  lemma FoldNext<T(!new)>(xs: seq<T>, x: T, op: Opcode, m: Meaning<T>)
    requires xs != []
    ensures Fold(xs + [x], op, m) == m.apply(op, Fold(xs, op, m), x)
  {
    assert (xs + [x])[..|xs|] == xs;
  }

  /** Neighbours combined first. */
  ghost predicate PairsOf<T(!new)>(xs: seq<T>, ys: seq<T>, op: Opcode, m: Meaning<T>) {
    |ys| == 2 * |xs| && forall k :: 0 <= k < |xs| ==> xs[k] == m.apply(op, ys[2 * k], ys[2 * k + 1])
  }

  lemma {:induction false} FoldPairs<T(!new)>(xs: seq<T>, ys: seq<T>, op: Opcode, m: Meaning<T>)
    requires xs != [] && PairsOf(xs, ys, op, m) && Associative(op, m)
    ensures Fold(xs, op, m) == Fold(ys, op, m)
    decreases |xs|
  {
    var n := |xs| - 1;
    var a, b := ys[2 * n], ys[2 * n + 1];
    if n == 0 {
      assert ys[..1] == [a];
    } else {
      hide Associative, Fold;
      var xs', ys' := xs[..n], ys[..2 * n];
      FewerPairs(xs, ys, n, op, m);
      hide PairsOf;
      FoldPairs(xs', ys', op, m);
      FoldNext(ys', a, op, m);
      FoldNext(ys' + [a], b, op, m);
      assert ys == ys' + [a] + [b];
      FoldNext(xs', xs[n], op, m);
      assert xs == xs' + [xs[n]];
      Regrouped(Fold(xs', op, m), a, b, op, m);
    }
  }

  lemma FewerPairs<T(!new)>(xs: seq<T>, ys: seq<T>, n: nat, op: Opcode, m: Meaning<T>)
    requires PairsOf(xs, ys, op, m) && n < |xs|
    ensures |ys| == 2 * |xs| && xs[n] == m.apply(op, ys[2 * n], ys[2 * n + 1])
    ensures PairsOf(xs[..n], ys[..2 * n], op, m)
  {
  }

  lemma Regrouped<T(!new)>(x: T, y: T, z: T, op: Opcode, m: Meaning<T>)
    requires Associative(op, m)
    ensures m.apply(op, m.apply(op, x, y), z) == m.apply(op, x, m.apply(op, y, z))
  {
  }

  /** Halves combined lane by lane. */
  ghost predicate HalvesOf<T(!new)>(xs: seq<T>, ys: seq<T>, op: Opcode, m: Meaning<T>) {
    |ys| == 2 * |xs| && forall k :: 0 <= k < |xs| ==> xs[k] == m.apply(op, ys[k], ys[|xs| + k])
  }

  lemma {:induction false} FoldBoth<T(!new)>(xs: seq<T>, ys: seq<T>, op: Opcode, m: Meaning<T>)
    requires |xs| == |ys| > 0 && Associative(op, m) && Commutative(op, m)
    ensures Fold(Both(xs, ys, op, m), op, m) == m.apply(op, Fold(xs, op, m), Fold(ys, op, m))
    decreases |xs|
  {
    var n := |xs| - 1;
    if n > 0 {
      FoldBoth(xs[..n], ys[..n], op, m);
      assert Both(xs, ys, op, m)[..n] == Both(xs[..n], ys[..n], op, m);
      FourSwap(Fold(xs[..n], op, m), Fold(ys[..n], op, m), xs[n], ys[n], op, m);
    }
  }

  lemma FourSwap<T(!new)>(a: T, b: T, c: T, d: T, op: Opcode, m: Meaning<T>)
    requires Associative(op, m) && Commutative(op, m)
    ensures m.apply(op, m.apply(op, a, b), m.apply(op, c, d)) == m.apply(op, m.apply(op, a, c), m.apply(op, b, d))
  {
    calc {
      m.apply(op, m.apply(op, a, b), m.apply(op, c, d));
      m.apply(op, a, m.apply(op, b, m.apply(op, c, d)));
      m.apply(op, a, m.apply(op, m.apply(op, b, c), d));
      m.apply(op, a, m.apply(op, m.apply(op, c, b), d));
      m.apply(op, a, m.apply(op, c, m.apply(op, b, d)));
      m.apply(op, m.apply(op, a, c), m.apply(op, b, d));
    }
  }

  lemma {:induction false} FoldConcat<T(!new)>(xs: seq<T>, ys: seq<T>, op: Opcode, m: Meaning<T>)
    requires xs != [] && ys != [] && Associative(op, m)
    ensures Fold(xs + ys, op, m) == m.apply(op, Fold(xs, op, m), Fold(ys, op, m))
    decreases |ys|
  {
    var n := |ys| - 1;
    if n == 0 {
      assert ys == [ys[0]];
      FoldNext(xs, ys[0], op, m);
    } else {
      FoldConcat(xs, ys[..n], op, m);
      assert xs + ys == xs + ys[..n] + [ys[n]];
      FoldNext(xs + ys[..n], ys[n], op, m);
    }
  }

  lemma FoldHalves<T(!new)>(xs: seq<T>, ys: seq<T>, op: Opcode, m: Meaning<T>)
    requires xs != [] && HalvesOf(xs, ys, op, m) && Associative(op, m) && Commutative(op, m)
    ensures Fold(xs, op, m) == Fold(ys, op, m)
  {
    var low, high := ys[..|xs|], ys[|xs|..];
    assert xs == Both(low, high, op, m) && ys == low + high;
    FoldBoth(low, high, op, m);
    FoldConcat(low, high, op, m);
  }

  // ---------------------------------------------------------------- pairwise reductions

  datatype Match = Yes | No | OutOfBounds   // a mask element is written behind the end of the mask

  /** 0, 2, 4, ... or 1, 3, 5, ..., and nothing behind the lanes of the level. */
  function PairMask(width: nat, level: nat, isLeft: bool): seq<int> {
    seq(width, (k: nat) => if k < Pow2(level) then 2 * k + (if isLeft then 0 else 1) else -1)
  }

  /** Operand `v` gives the even or the odd lanes of `next`. */
  predicate Takes(p: Program, v: Id, next: Id, level: nat, isLeft: bool)
    requires v < |p|
  {
    if p[v].Shuffle? then
      p[v].first == next && Pow2(level) <= |p[v].mask| && p[v].mask == PairMask(|p[v].mask|, level, isLeft)
    else isLeft && level == 0 && v == next
  }

  /** The value whose lanes a level combines. */
  function NextOp(p: Program, i: Id): Id
    requires Typed(p) && i < |p| && p[i].Binary?
  {
    assert TypedAt(p, i);
    if p[p[i].left].Shuffle? then p[p[i].left].first
    else if p[p[i].right].Shuffle? then p[p[i].right].first
    else p[i].left
  }

  predicate PairLevel(p: Program, i: Id, level: nat)
    requires Typed(p) && i < |p| && p[i].Binary?
  {
    assert TypedAt(p, i);
    var next := NextOp(p, i);
    || (Takes(p, p[i].left, next, level, true) && Takes(p, p[i].right, next, level, false))
    || (Takes(p, p[i].right, next, level, true) && Takes(p, p[i].left, next, level, false))
  }

  /** Element `k` of the mask of `v` is lane `2 * k + odd` of `next`, up to the lanes of the level. */
  ghost predicate EverySecond(p: Program, v: Id, next: Id, level: nat, odd: nat)
    requires v < |p|
  {
    && p[v].Shuffle? && p[v].first == next && Pow2(level) <= |p[v].mask|
    && forall k :: 0 <= k < |p[v].mask| ==> p[v].mask[k] == if k < Pow2(level) then 2 * k + odd else -1
  }

  /** What a level looks like from its operands, in either order. */
  ghost predicate EvenAndOdd(p: Program, even: Id, odd: Id, level: nat)
    requires even < |p| && odd < |p|
  {
    && p[odd].Shuffle? && EverySecond(p, odd, p[odd].first, level, 1)
    && if p[even].Shuffle? then EverySecond(p, even, p[odd].first, level, 0) else level == 0 && even == p[odd].first
  }

  lemma PairLevelExact(p: Program, i: Id, level: nat)
    requires Typed(p) && i < |p| && p[i].Binary? && p[i].left < |p| && p[i].right < |p|
    ensures PairLevel(p, i, level) <==> EvenAndOdd(p, p[i].left, p[i].right, level) || EvenAndOdd(p, p[i].right, p[i].left, level)
    ensures EvenAndOdd(p, p[i].left, p[i].right, level) ==> NextOp(p, i) == p[p[i].right].first
    ensures EvenAndOdd(p, p[i].right, p[i].left, level) ==> NextOp(p, i) == p[p[i].left].first
  {
    hide Pow2;
    var l, r, next := p[i].left, p[i].right, NextOp(p, i);
    TakesExact(p, l, next, level);
    TakesExact(p, r, next, level);
    hide Takes, EverySecond;
  }

  lemma TakesExact(p: Program, v: Id, next: Id, level: nat)
    requires v < |p|
    ensures Takes(p, v, next, level, true) <==>
      if p[v].Shuffle? then EverySecond(p, v, next, level, 0) else level == 0 && v == next
    ensures Takes(p, v, next, level, false) <==> p[v].Shuffle? && EverySecond(p, v, next, level, 1)
  {
    hide Pow2;
    if p[v].Shuffle? {
      PairMaskIs(p[v].mask, level, true);
      PairMaskIs(p[v].mask, level, false);
    }
  }

  lemma PairMaskIs(mask: seq<int>, level: nat, isLeft: bool)
    ensures mask == PairMask(|mask|, level, isLeft) <==>
      forall k :: 0 <= k < |mask| ==> mask[k] == if k < Pow2(level) then 2 * k + (if isLeft then 0 else 1) else -1
  {
  }

  lemma NextBelow(p: Program, i: Id)
    requires Typed(p) && i < |p| && p[i].Binary?
    ensures NextOp(p, i) < i
  {
    assert TypedAt(p, i) && TypedAt(p, p[i].left) && TypedAt(p, p[i].right);
  }

  /** A tree of pairwise levels, all with the same operator. */
  ghost predicate PairTree(p: Program, i: Id, level: nat, levels: nat)
    requires Typed(p) && i < |p| && p[i].Binary?
    decreases i
  {
    NextBelow(p, i);
    var next := NextOp(p, i);
    && PairLevel(p, i, level)
    && (level + 1 == levels || (p[next].Binary? && p[next].op == p[i].op && PairTree(p, next, level + 1, levels)))
  }

  /**
   The matcher comes to a level whose masks are too short for it: it has found the operands of the level, and all
   levels above match.
   */
  ghost predicate WritesBehind(p: Program, i: Id, level: nat, levels: nat)
    requires Typed(p) && i < |p| && p[i].Binary?
    decreases i
  {
    NextBelow(p, i);
    var next := NextOp(p, i);
    && Feeds(p, i, level)
    && (level + 1 == levels || (p[next].Binary? && p[next].op == p[i].op))
    && (p[i].width < Pow2(level) || (level + 1 != levels && PairLevel(p, i, level) && WritesBehind(p, next, level + 1, levels)))
  }

  ghost function PairBottom(p: Program, i: Id, level: nat, levels: nat): (b: Id)
    requires Typed(p) && i < |p| && p[i].Binary? && PairTree(p, i, level, levels)
    ensures b < i
    decreases i
  {
    NextBelow(p, i);
    if level + 1 == levels then NextOp(p, i) else PairBottom(p, NextOp(p, i), level + 1, levels)
  }

  /** Builds the mask of a level and compares (CostModel.cpp:112-133). */
  method MatchPairwiseShuffleMask(shuffle: Option<Value>, isLeft: bool, level: nat) returns (r: Match)
    requires shuffle.Some? ==> shuffle.value.Shuffle?
    ensures shuffle.None? ==> r == if level == 0 && isLeft then Yes else No
    ensures shuffle.Some? ==> (r.OutOfBounds? <==> Pow2(level) > |shuffle.value.mask|)
    ensures shuffle.Some? && !r.OutOfBounds? ==>
      (r.Yes? <==> shuffle.value.mask == PairMask(|shuffle.value.mask|, level, isLeft))
  {
    if shuffle.None? {
      return if level == 0 && isLeft then Yes else No;
    }
    var actual := shuffle.value.mask;
    var n := |actual|;
    var mask := new int[n](k => -1);
    var val := if isLeft then 0 else 1;
    var i := 0;
    while i != Pow2(level)
      invariant i <= Pow2(level) && i <= n && val == 2 * i + (if isLeft then 0 else 1)
      invariant forall k :: 0 <= k < n ==> mask[k] == if k < i then 2 * k + (if isLeft then 0 else 1) else -1
      decreases Pow2(level) - i
    {
      if i >= n {
        return OutOfBounds;
      }
      mask[i] := val;
      i, val := i + 1, val + 2;
    }
    assert mask[..] == PairMask(n, level, isLeft);
    r := if mask[..] == actual then Yes else No;
  }

  function AsShuffle(v: Value): (s: Option<Value>)
    ensures s.Some? <==> v.Shuffle?
    ensures s.Some? ==> s.value == v
  {
    if v.Shuffle? then Some(v) else None
  }

  /** The value that both operands take their lanes from (CostModel.cpp:148-187). */
  method NextLevelOperand(p: Program, i: Id, level: nat) returns (next: Option<Id>)
    requires Typed(p) && i < |p| && p[i].Binary?
    ensures next.Some? ==> next.value == NextOp(p, i)
    ensures next.Some? <==> Feeds(p, i, level)
  {
    assert TypedAt(p, i);
    var l, r := p[i].left, p[i].right;
    var ls, rs := AsShuffle(p[l]), AsShuffle(p[r]);
    if (ls.None? && level != 0) || (rs.None? && level != 0) || (level == 0 && rs.None? && ls.None?) {
      return None;
    }
    if ls.Some? && rs.Some? {
      if ls.value.first != rs.value.first {
        return None;
      }
      return Some(ls.value.first);
    }
    if ls.Some? && ls.value.first != r {
      return None;
    }
    if rs.Some? && rs.value.first != l {
      return None;
    }
    next := Some(if ls.Some? then r else l);
  }

  /** The operands are shuffles of one value, or on level 0 one of them is that value. */
  predicate Feeds(p: Program, i: Id, level: nat)
    requires Typed(p) && i < |p| && p[i].Binary?
  {
    assert TypedAt(p, i);
    var l, r := p[i].left, p[i].right;
    if p[l].Shuffle? && p[r].Shuffle? then p[l].first == p[r].first
    else level == 0 && if p[l].Shuffle? then p[l].first == r else p[r].Shuffle? && p[r].first == l
  }

  lemma MaskSides(width: nat, level: nat)
    requires width > 0
    ensures PairMask(width, level, true) != PairMask(width, level, false)
  {
    assert PairMask(width, level, true)[0] == 0;
    assert PairMask(width, level, false)[0] == 1;
  }

  /**
   Matches a level and those below it (CostModel.cpp:135-214): accepted exactly if they form a tree of pairwise
   levels.
   */
  method MatchPairwiseReductionAtLevel(p: Program, i: Id, level: nat, levels: nat) returns (r: Match)
    requires Typed(p) && i < |p| && p[i].Binary?
    ensures r.Yes? <==> PairTree(p, i, level, levels)
    ensures r.OutOfBounds? <==> WritesBehind(p, i, level, levels)
    ensures r.OutOfBounds? && level < levels && KeepsWidth(p) ==> p[i].width < Pow2(levels)
    decreases i
  {
    hide Pow2;
    assert TypedAt(p, i);
    NextBelow(p, i);
    var ls, rs := AsShuffle(p[p[i].left]), AsShuffle(p[p[i].right]);
    var next := NextLevelOperand(p, i, level);
    if next.None? {
      return No;
    }
    if level + 1 != levels && !(p[next.value].Binary? && p[next.value].op == p[i].op) {
      return No;
    }
    r := MatchMasks(p, i, level, ls, rs);
    if !r.Yes? {
      if level < levels {
        Pow2AtMost(level, levels);
      }
      return;
    }
    if level + 1 == levels {
      return Yes;
    }
    r := MatchPairwiseReductionAtLevel(p, next.value, level + 1, levels);
    NextWidth(p, i, level);
  }

  /** No shuffle changes the width, as in the trees that the vectorizers build. */
  ghost predicate KeepsWidth(p: Program)
    requires Typed(p)
  {
    forall i: nat :: i < |p| && p[i].Shuffle? ==> SameWidth(p, i)
  }

  ghost predicate SameWidth(p: Program, i: Id)
    requires Typed(p) && i < |p| && p[i].Shuffle?
  {
    assert TypedAt(p, i);
    |p[i].mask| == Width(p[p[i].first])
  }

  lemma NextWidth(p: Program, i: Id, level: nat)
    requires Typed(p) && i < |p| && p[i].Binary?
    ensures NextOp(p, i) < |p| && (KeepsWidth(p) ==> Width(p[NextOp(p, i)]) == p[i].width)
  {
    assert TypedAt(p, i) && TypedAt(p, p[i].left) && TypedAt(p, p[i].right);
    if KeepsWidth(p) {
      assert p[p[i].left].Shuffle? ==> SameWidth(p, p[i].left);
      assert p[p[i].right].Shuffle? ==> SameWidth(p, p[i].right);
    }
  }

  /** The masks of both operands, in either order (CostModel.cpp:199-207). */
  method MatchMasks(p: Program, i: Id, level: nat, ls: Option<Value>, rs: Option<Value>) returns (r: Match)
    requires Typed(p) && i < |p| && p[i].Binary? && Feeds(p, i, level)
    requires p[i].left < |p| && p[i].right < |p| && ls == AsShuffle(p[p[i].left]) && rs == AsShuffle(p[p[i].right])
    ensures r.Yes? <==> PairLevel(p, i, level)
    ensures r.OutOfBounds? <==> p[i].width < Pow2(level)
  {
    hide Pow2, PairMask;
    assert TypedAt(p, i);
    MaskSides(p[i].width, level);
    r := MatchPairwiseShuffleMask(ls, true, level);
    if r.OutOfBounds? {
      return;
    }
    if r.Yes? {
      r := MatchPairwiseShuffleMask(rs, false, level);
      return;
    }
    r := MatchPairwiseShuffleMask(rs, true, level);
    if r.Yes? {
      r := MatchPairwiseShuffleMask(ls, false, level);
    }
  }

  // ---------------------------------------------------------------- what a pairwise tree computes

  /** `x` is a lane of some value. */
  ghost predicate SomeLane<T(!new)>(p: Program, x: T, m: Meaning<T>)
    requires Typed(p)
  {
    exists v: Id, k: nat :: v < |p| && k < Width(p[v]) && Lanes(p, v, m)[k] == x
  }

  /** `zs` are the lanes `ys` as far as they go, and lanes of other values behind them. */
  ghost predicate Gathered<T(!new)>(p: Program, ys: seq<T>, zs: seq<T>, m: Meaning<T>)
    requires Typed(p)
  {
    forall j :: 0 <= j < |zs| ==> SomeLane(p, zs[j], m) && (j < |ys| ==> zs[j] == ys[j])
  }

  /** Lane `k` of an even or odd operand; the value below may be too narrow. */
  lemma TakenFrom<T(!new)>(p: Program, v: Id, next: Id, level: nat, isLeft: bool, k: nat, m: Meaning<T>)
    requires Typed(p) && v < |p| && next < |p| && Takes(p, v, next, level, isLeft) && k < Pow2(level)
    ensures k < Width(p[v]) && SomeLane(p, Lanes(p, v, m)[k], m)
    ensures var j := 2 * k + if isLeft then 0 else 1;
            j < Width(p[next]) ==> Lanes(p, v, m)[k] == Lanes(p, next, m)[j]
  {
    assert TypedAt(p, v);
    assert k < Width(p[v]);
  }

  ghost function Interleaved<T>(es: seq<T>, os: seq<T>): (xs: seq<T>)
    requires |es| == |os|
    ensures |xs| == 2 * |es| && forall k :: 0 <= k < |es| ==> xs[2 * k] == es[k] && xs[2 * k + 1] == os[k]
    decreases |es|
  {
    if es == [] then []
    else
      var n := |es| - 1;
      Interleaved(es[..n], os[..n]) + [es[n], os[n]]
  }

  lemma CombinedLanes<T(!new)>(p: Program, i: Id, even: Id, odd: Id, m: Meaning<T>)
    requires Typed(p) && i < |p| && p[i].Binary? && even < |p| && odd < |p| && Commutative(p[i].op, m)
    requires (even == p[i].left && odd == p[i].right) || (even == p[i].right && odd == p[i].left)
    ensures Width(p[even]) == Width(p[odd]) == p[i].width
    ensures forall k :: 0 <= k < p[i].width ==> Lanes(p, i, m)[k] == m.apply(p[i].op, Lanes(p, even, m)[k], Lanes(p, odd, m)[k])
  {
    assert TypedAt(p, i);
  }

  /** A level combines neighbouring lanes of the value below, in either order. */
  lemma LevelLane<T(!new)>(p: Program, i: Id, level: nat, k: nat, m: Meaning<T>)
    requires Typed(p) && i < |p| && p[i].Binary? && PairLevel(p, i, level) && k < Pow2(level)
    requires NextOp(p, i) < |p| && 2 * k + 1 < Width(p[NextOp(p, i)]) && Commutative(p[i].op, m)
    ensures k < p[i].width
    ensures var ys := Lanes(p, NextOp(p, i), m);
            Lanes(p, i, m)[k] == m.apply(p[i].op, ys[2 * k], ys[2 * k + 1])
  {
    hide Takes, Pow2, Lanes, NextOp, SomeLane, Commutative;
    assert TypedAt(p, i);
    var l, r, next := p[i].left, p[i].right, NextOp(p, i);
    if Takes(p, l, next, level, true) && Takes(p, r, next, level, false) {
      TakenFrom(p, l, next, level, true, k, m);
      TakenFrom(p, r, next, level, false, k, m);
      CombinedLanes(p, i, l, r, m);
    } else {
      TakenFrom(p, r, next, level, true, k, m);
      TakenFrom(p, l, next, level, false, k, m);
      CombinedLanes(p, i, r, l, m);
    }
  }

  lemma OperandsGathered<T(!new)>(p: Program, i: Id, level: nat, even: Id, odd: Id, m: Meaning<T>) returns (zs: seq<T>)
    requires Typed(p) && i < |p| && p[i].Binary? && even < |p| && odd < |p| && NextOp(p, i) < |p|
    requires (even == p[i].left && odd == p[i].right) || (even == p[i].right && odd == p[i].left)
    requires Takes(p, even, NextOp(p, i), level, true) && Takes(p, odd, NextOp(p, i), level, false)
    requires Commutative(p[i].op, m)
    ensures Pow2(level) <= p[i].width && |zs| == Pow2(level + 1) && PairsOf(Lanes(p, i, m)[..Pow2(level)], zs, p[i].op, m)
    ensures Gathered(p, Lanes(p, NextOp(p, i), m), zs, m)
  {
    hide Takes, NextOp, Lanes, Pow2, Interleaved, SomeLane, Commutative;
    var n, next := Pow2(level), NextOp(p, i);
    assert Pow2(level + 1) == 2 * n by { TwiceAsMany(level); }
    CombinedLanes(p, i, even, odd, m);
    TakenFrom(p, even, next, level, true, n - 1, m);
    zs := Interleaved(Lanes(p, even, m)[..n], Lanes(p, odd, m)[..n]);
    forall j | 0 <= j < 2 * n ensures SomeLane(p, zs[j], m) && (j < Width(p[next]) ==> zs[j] == Lanes(p, next, m)[j]) {
      TakenFrom(p, even, next, level, true, j / 2, m);
      TakenFrom(p, odd, next, level, false, j / 2, m);
      assert j == 2 * (j / 2) || j == 2 * (j / 2) + 1;
    }
  }

  lemma TwiceAsMany(level: nat)
    ensures Pow2(level + 1) == 2 * Pow2(level)
  {
  }

  lemma LevelGathers<T(!new)>(p: Program, i: Id, level: nat, m: Meaning<T>) returns (zs: seq<T>)
    requires Typed(p) && i < |p| && p[i].Binary? && PairLevel(p, i, level) && NextOp(p, i) < |p|
    requires Associative(p[i].op, m) && Commutative(p[i].op, m)
    ensures Pow2(level) <= p[i].width && |zs| == Pow2(level + 1) && Gathered(p, Lanes(p, NextOp(p, i), m), zs, m)
    ensures Fold(Lanes(p, i, m)[..Pow2(level)], p[i].op, m) == Fold(zs, p[i].op, m)
  {
    hide Takes, NextOp, Lanes, Pow2, Gathered, Fold, PairsOf;
    assert TypedAt(p, i);
    var l, r, next := p[i].left, p[i].right, NextOp(p, i);
    if Takes(p, l, next, level, true) && Takes(p, r, next, level, false) {
      zs := OperandsGathered(p, i, level, l, r, m);
    } else {
      zs := OperandsGathered(p, i, level, r, l, m);
    }
    FoldPairs(Lanes(p, i, m)[..Pow2(level)], zs, p[i].op, m);
  }

  lemma GatheredWhole<T(!new)>(p: Program, ys: seq<T>, zs: seq<T>, m: Meaning<T>)
    requires Typed(p) && Gathered(p, ys, zs, m) && |zs| <= |ys|
    ensures zs == ys[..|zs|]
  {
  }

  /** What a tree gives is the fold over as many lanes as it has leaves: those of the bottom, and others if it has fewer. */
  lemma {:induction false} TreeFolds<T(!new)>(p: Program, i: Id, level: nat, levels: nat, m: Meaning<T>) returns (zs: seq<T>)
    requires Typed(p) && i < |p| && p[i].Binary? && level < levels && PairTree(p, i, level, levels)
    requires PairBottom(p, i, level, levels) < |p| && Associative(p[i].op, m) && Commutative(p[i].op, m)
    ensures Pow2(level) <= p[i].width && |zs| == Pow2(levels) && Gathered(p, Lanes(p, PairBottom(p, i, level, levels), m), zs, m)
    ensures Fold(Lanes(p, i, m)[..Pow2(level)], p[i].op, m) == Fold(zs, p[i].op, m)
    decreases i
  {
    hide PairLevel, Lanes, NextOp, Fold, Gathered, Associative, Commutative;
    NextBelow(p, i);
    var ys := LevelGathers(p, i, level, m);
    if level + 1 < levels {
      zs := TreeFolds(p, NextOp(p, i), level + 1, levels, m);
      GatheredWhole(p, Lanes(p, NextOp(p, i), m), ys, m);
    } else {
      zs := ys;
    }
  }

  // ---------------------------------------------------------------- the roots

  predicate IsPowerOf2(n: nat) {
    n > 0 && (n == 1 || (n % 2 == 0 && IsPowerOf2(n / 2)))
  }

  function Log2(n: nat): nat {
    if n <= 1 then 0 else 1 + Log2(n / 2)
  }

  lemma {:induction false} PowersOfTwo(n: nat)
    ensures IsPowerOf2(n) <==> exists k: nat :: n == Pow2(k)
  {
    if IsPowerOf2(n) {
      PowerOfLog(n);
    } else if k: nat :| n == Pow2(k) {
      PowerOfTwo(k);
    }
  }

  lemma {:induction false} PowerOfTwo(k: nat)
    ensures IsPowerOf2(Pow2(k))
  {
    if k > 0 {
      PowerOfTwo(k - 1);
    }
  }

  lemma {:induction false} PowerOfLog(n: nat)
    requires IsPowerOf2(n)
    ensures Pow2(Log2(n)) == n
  {
    if n > 1 {
      PowerOfLog(n / 2);
    }
  }

  /** The vector whose first lane is extracted, if it is a binary operation (the index is cut to 32 bits). */
  function RootOf(p: Program, vector: Id, index: Option<nat>): (r: Option<Id>)
    requires vector < |p|
  {
    if index.Some? && index.value % B == 0 && p[vector].Binary? then Some(vector) else None
  }

  datatype Reduction = Reduction(opcode: Opcode, width: nat)

  ghost predicate PairwiseReduction(p: Program, vector: Id, index: Option<nat>)
    requires Typed(p) && vector < |p|
  {
    && index.Some? && index.value % B == 0 && p[vector].Binary? && IsPowerOf2(p[vector].width)
    && PairTree(p, vector, 0, Log2(p[vector].width))
  }

  ghost predicate PairwiseOverrun(p: Program, vector: Id, index: Option<nat>)
    requires Typed(p) && vector < |p|
  {
    && index.Some? && index.value % B == 0 && p[vector].Binary? && IsPowerOf2(p[vector].width)
    && WritesBehind(p, vector, 0, Log2(p[vector].width))
  }

  /** A root of four lanes on an operation of one lane: the masks of the second level have no room for two elements. */
  function ShortMasks(): Program {
    [Other(1), Shuffle(0, 0, [0]), Shuffle(0, 0, [1]), Binary(0, 1, 2, 1),
     Shuffle(3, 3, [0, -1, -1, -1]), Shuffle(3, 3, [1, -1, -1, -1]), Binary(0, 4, 5, 4)]
  }

  lemma ShortMasksOverrun()
    ensures Typed(ShortMasks()) && PairwiseOverrun(ShortMasks(), 6, Some(0))
  {
    var p := ShortMasks();
    assert PairMask(4, 0, true) == [0, -1, -1, -1] && PairMask(4, 0, false) == [1, -1, -1, -1];
    assert Log2(4) == 2 && Log2(2) == 1 && Pow2(1) == 2;
    assert WritesBehind(p, 3, 1, 2);
  }

  /** lib/Analysis/CostModel.cpp:216-263; `Match.OutOfBounds` stands for an access behind the end of a mask. */
  method MatchPairwiseReduction(p: Program, enabled: bool, vector: Id, index: Option<nat>)
    returns (r: Match, reduction: Reduction)
    requires Typed(p) && vector < |p|
    ensures r.Yes? <==> enabled && PairwiseReduction(p, vector, index)
    ensures r.Yes? ==> reduction == Reduction(p[vector].op, p[vector].width)
    ensures r.OutOfBounds? <==> enabled && PairwiseOverrun(p, vector, index)
    ensures r.OutOfBounds? ==> Width(p[vector]) == 1 || !KeepsWidth(p)
  {
    r, reduction := No, Reduction(0, 0);
    if !enabled {
      return;
    }
    var root := RootOf(p, vector, index);
    if root.None? {
      return;
    }
    var width := p[vector].width;
    if !IsPowerOf2(width) {
      return;
    }
    PowerOfLog(width);
    r := MatchPairwiseReductionAtLevel(p, vector, 0, Log2(width));
    if r.Yes? {
      reduction := Reduction(p[vector].op, width);
    }
  }

  ghost function Bottom(p: Program, root: Id): (b: Id)
    requires Typed(p) && root < |p| && p[root].Binary? && PairTree(p, root, 0, Log2(p[root].width))
    ensures b < |p|
  {
    PairBottom(p, root, 0, Log2(p[root].width))
  }

  /** A vector of one lane is never accepted: there is no tree of no levels. */
  lemma {:induction false} NoTreeWithoutLevels(p: Program, i: Id, level: nat)
    requires Typed(p) && i < |p| && p[i].Binary?
    ensures !PairTree(p, i, level, 0)
    decreases i
  {
    hide PairLevel, NextOp;
    NextBelow(p, i);
    if p[NextOp(p, i)].Binary? {
      NoTreeWithoutLevels(p, NextOp(p, i), level + 1);
    }
  }

  /**
   The first lane of an accepted expression is the operator folded over as many lanes `zs` as the root has: those
   of the bottom vector, all of them if it is as wide, and lanes of other values if it is too narrow.
   */
  lemma PairwiseComputes<T(!new)>(p: Program, vector: Id, index: Option<nat>, m: Meaning<T>) returns (zs: seq<T>)
    requires Typed(p) && vector < |p| && PairwiseReduction(p, vector, index)
    requires Associative(p[vector].op, m) && Commutative(p[vector].op, m)
    ensures |zs| == p[vector].width > 0 && Gathered(p, Lanes(p, Bottom(p, vector), m), zs, m)
    ensures Lanes(p, vector, m)[0] == Fold(zs, p[vector].op, m)
    ensures Width(p[Bottom(p, vector)]) == p[vector].width ==> zs == Lanes(p, Bottom(p, vector), m)
  {
    hide PairTree, Lanes, PairBottom, Gathered;
    var width, levels := p[vector].width, Log2(p[vector].width);
    PowerOfLog(width);
    if levels == 0 {
      NoTreeWithoutLevels(p, vector, 0);
    } else {
      zs := TreeFolds(p, vector, 0, levels, m);
      assert Lanes(p, vector, m)[..1] == [Lanes(p, vector, m)[0]];
      if Width(p[Bottom(p, vector)]) == width {
        GatheredWhole(p, Lanes(p, Bottom(p, vector), m), zs, m);
      }
    }
  }

  // ---------------------------------------------------------------- when all lanes are folded

  /** Every operator adds, and every lane that is not computed holds 1. */
  ghost function Ones(): Meaning<int> {
    Meaning((op, x, y) => x + y, (i, k) => 1, (i, k) => 1)
  }

  ghost predicate AllFrom(xs: seq<int>, least: int) {
    forall k :: 0 <= k < |xs| ==> xs[k] >= least
  }

  lemma {:induction false} OnesPositive(p: Program, i: Id)
    requires Typed(p) && i < |p|
    ensures AllFrom(Lanes(p, i, Ones()), 1)
    decreases i
  {
    assert TypedAt(p, i);
    match p[i]
    case Binary(op, l, r, _) =>
      OnesPositive(p, l);
      OnesPositive(p, r);
    case Shuffle(first, second, mask) =>
      OnesPositive(p, first);
      OnesPositive(p, second);
      PickedPositive(Lanes(p, first, Ones()) + Lanes(p, second, Ones()), mask, i);
    case Other(_) =>
  }

  lemma PickedPositive(xs: seq<int>, mask: seq<int>, i: Id)
    requires AllFrom(xs, 1) && forall k :: 0 <= k < |mask| ==> -1 <= mask[k] < |xs|
    ensures AllFrom(Picked(xs, mask, i, Ones()), 1)
  {
  }

  lemma {:induction false} SumAtLeast(xs: seq<int>, least: int, op: Opcode)
    requires xs != [] && AllFrom(xs, least)
    ensures Fold(xs, op, Ones()) >= |xs| * least
    decreases |xs|
  {
    if |xs| > 1 {
      SumAtLeast(xs[..|xs| - 1], least, op);
    }
  }

  /** A sum of positive numbers is more than that of the first ones. */
  lemma MoreThanPart(zs: seq<int>, ys: seq<int>, op: Opcode)
    requires 0 < |ys| < |zs| && AllFrom(zs, 1) && forall j :: 0 <= j < |ys| ==> zs[j] == ys[j]
    ensures Fold(zs, op, Ones()) > Fold(ys, op, Ones())
  {
    var rest := zs[|ys|..];
    assert zs == ys + rest;
    FoldConcat(ys, rest, op, Ones());
    SumAtLeast(rest, 1, op);
  }

  /** For integers, every meaning of the lanes, and addition: the first lane is the sum of all bottom lanes. */
  ghost predicate SumsAllLanes(p: Program, root: Id, bottom: Id)
    requires Typed(p) && root < |p| && bottom < |p| && Width(p[root]) > 0 && Width(p[bottom]) > 0
  {
    forall leaf: (Id, nat) -> int, undef: (Id, nat) -> int :: SumsLanes(p, root, bottom, leaf, undef)
  }

  ghost predicate SumsLanes(p: Program, root: Id, bottom: Id, leaf: (Id, nat) -> int, undef: (Id, nat) -> int)
    requires Typed(p) && root < |p| && bottom < |p| && Width(p[root]) > 0 && Width(p[bottom]) > 0
  {
    var m := Meaning((op: Opcode, x: int, y: int) => x + y, leaf, undef);
    Lanes(p, root, m)[0] == Fold(Lanes(p, bottom, m), 0, m)
  }

  lemma GatheredOnes(p: Program, ys: seq<int>, zs: seq<int>)
    requires Typed(p) && Gathered(p, ys, zs, Ones())
    ensures AllFrom(zs, 1)
  {
    hide Lanes;
    forall j | 0 <= j < |zs| ensures zs[j] >= 1 {
      assert SomeLane(p, zs[j], Ones());
      var v: Id, k: nat :| v < |p| && k < Width(p[v]) && Lanes(p, v, Ones())[k] == zs[j];
      OnesPositive(p, v);
    }
  }

  /** With other lanes below than above, lanes are missing in the sum or there are more in it. */
  lemma OtherWidth(p: Program, vector: Id, index: Option<nat>)
    requires Typed(p) && vector < |p| && PairwiseReduction(p, vector, index)
    requires 0 < Width(p[Bottom(p, vector)]) && Width(p[Bottom(p, vector)]) != p[vector].width && p[vector].width > 0
    ensures Lanes(p, vector, Ones())[0] != Fold(Lanes(p, Bottom(p, vector), Ones()), p[vector].op, Ones())
  {
    hide PairTree, PairBottom, Lanes;
    var ys := Lanes(p, Bottom(p, vector), Ones());
    var zs := PairwiseComputes(p, vector, index, Ones());
    GatheredOnes(p, ys, zs);
    OnesPositive(p, Bottom(p, vector));
    if |zs| < |ys| {
      MoreThanPart(ys, zs, p[vector].op);
    } else {
      MoreThanPart(zs, ys, p[vector].op);
    }
  }

  lemma HasLanes(p: Program, i: Id)
    requires Typed(p) && i < |p|
    ensures Width(p[i]) > 0
  {
    assert TypedAt(p, i);
  }

  /** The shuffles of the last level may take lanes of a wider or narrower vector: then not all lanes are folded. */
  lemma PairwiseAllLanes(p: Program, vector: Id, index: Option<nat>)
    requires Typed(p) && vector < |p| && PairwiseReduction(p, vector, index)
    ensures Width(p[vector]) > 0 && Width(p[Bottom(p, vector)]) > 0
    ensures SumsAllLanes(p, vector, Bottom(p, vector)) <==> Width(p[Bottom(p, vector)]) == p[vector].width
  {
    hide PairTree, PairBottom;
    var bottom, width := Bottom(p, vector), p[vector].width;
    HasLanes(p, vector);
    HasLanes(p, bottom);
    if Width(p[bottom]) == width {
      forall leaf: (Id, nat) -> int, undef: (Id, nat) -> int ensures SumsLanes(p, vector, bottom, leaf, undef) {
        AdditionFolds(p, vector, index, leaf, undef);
      }
    } else {
      OtherWidth(p, vector, index);
      SameFold(Lanes(p, bottom, Ones()), p[vector].op, 0, Ones());
      SumsOnes(p, vector, bottom);
    }
  }

  /** Two lanes summed of a vector of four: accepted as a reduction, but the other two are not in the sum. */
  function TwoOfFour(): Program {
    [Other(4), Shuffle(0, 0, [0, -1]), Shuffle(0, 0, [1, -1]), Binary(0, 1, 2, 2)]
  }

  lemma TwoOfFourAccepted()
    ensures Typed(TwoOfFour()) && PairwiseReduction(TwoOfFour(), 3, Some(0)) && Bottom(TwoOfFour(), 3) == 0
    ensures Width(TwoOfFour()[3]) > 0 && !SumsAllLanes(TwoOfFour(), 3, 0)
  {
    var p := TwoOfFour();
    assert PairMask(2, 0, true) == [0, -1] && PairMask(2, 0, false) == [1, -1];
    assert Log2(2) == 1;
    assert PairTree(p, 3, 0, 1);
    PairwiseAllLanes(p, 3, Some(0));
  }

  lemma SumsOnes(p: Program, root: Id, bottom: Id)
    requires Typed(p) && root < |p| && bottom < |p| && Width(p[root]) > 0 && Width(p[bottom]) > 0
    requires Lanes(p, root, Ones())[0] != Fold(Lanes(p, bottom, Ones()), 0, Ones())
    ensures !SumsAllLanes(p, root, bottom)
  {
    assert !SumsLanes(p, root, bottom, Ones().leaf, Ones().undef);
  }

  lemma AdditionFolds(p: Program, vector: Id, index: Option<nat>, leaf: (Id, nat) -> int, undef: (Id, nat) -> int)
    requires Typed(p) && vector < |p| && PairwiseReduction(p, vector, index)
    requires Width(p[Bottom(p, vector)]) == p[vector].width > 0
    ensures SumsLanes(p, vector, Bottom(p, vector), leaf, undef)
  {
    hide PairTree, PairBottom;
    var m := Meaning((op: Opcode, x: int, y: int) => x + y, leaf, undef);
    var lanes := PairwiseComputes(p, vector, index, m);
    SameFold(Lanes(p, Bottom(p, vector), m), p[vector].op, 0, m);
  }

  lemma {:induction false} SameFold(xs: seq<int>, op: Opcode, op': Opcode, m: Meaning<int>)
    requires xs != [] && forall x, y :: m.apply(op, x, y) == m.apply(op', x, y)
    ensures Fold(xs, op, m) == Fold(xs, op', m)
    decreases |xs|
  {
    if |xs| > 1 {
      SameFold(xs[..|xs| - 1], op, op', m);
    }
  }

  // ---------------------------------------------------------------- splitting reductions

  /** The upper half of the lanes in use, and nothing behind it. */
  function SplitMask(width: nat, start: nat): seq<int> {
    seq(width, (k: nat) => if k < start then start + k else -1)
  }

  /** Some operand that is a shuffle, the left one first, and the other operand (CostModel.cpp:265-277). */
  function ShuffleAndOther(p: Program, i: Id): (r: (Id, Option<Id>))
    requires Typed(p) && i < |p| && p[i].Binary?
    ensures r.0 < i && (r.1.Some? ==> r.1.value < i && p[r.1.value].Shuffle?)
    ensures r.0 == p[i].left || r.0 == p[i].right
    ensures r.1.Some? ==> {p[i].left, p[i].right} == {r.0, r.1.value}
    ensures r.1.None? ==> !p[r.0].Shuffle?
    ensures Width(p[r.0]) == p[i].width && (r.1.Some? ==> |p[r.1.value].mask| == p[i].width)
  {
    assert TypedAt(p, i);
    var l, r := p[i].left, p[i].right;
    if p[l].Shuffle? then (r, Some(l)) else (l, if p[r].Shuffle? then Some(r) else None)
  }

  /** `s` is a shuffle that moves the upper half of the lanes in use of `v` down. */
  ghost predicate MovesHalf(p: Program, s: Id, v: Id, start: nat)
    requires s < |p|
  {
    && p[s].Shuffle? && p[s].first == v
    && forall k :: 0 <= k < |p[s].mask| ==> p[s].mask[k] == if k < start then start + k else -1
  }

  /** The left operand moves the right one, or is no shuffle and is moved by the right one. */
  ghost predicate SplitLevel(p: Program, i: Id, start: nat)
    requires Typed(p) && i < |p| && p[i].Binary?
  {
    assert TypedAt(p, i);
    var l, r := p[i].left, p[i].right;
    MovesHalf(p, l, r, start) || (!p[l].Shuffle? && MovesHalf(p, r, l, start))
  }

  /** The value that a level splits. */
  ghost function SplitSource(p: Program, i: Id): (v: Id)
    requires Typed(p) && i < |p| && p[i].Binary?
    ensures v < i && Width(p[v]) == p[i].width
  {
    assert TypedAt(p, i);
    if p[p[i].left].Shuffle? then p[i].right else p[i].left
  }

  /**
   With one shuffle among the operands, the order of the operands does not matter; of two shuffles the left one has
   to be one of the right one.
   */
  lemma SplitLevelExact(p: Program, i: Id, s: Id, v: Id, start: nat)
    requires Typed(p) && i < |p| && p[i].Binary? && s < |p| && v < |p|
    requires (p[i].left == s && p[i].right == v) || (p[i].left == v && p[i].right == s && !p[v].Shuffle?)
    requires p[s].Shuffle?
    ensures SplitSource(p, i) == v
    ensures SplitLevel(p, i, start) <==>
      && p[s].first == v
      && forall k :: 0 <= k < |p[s].mask| ==> p[s].mask[k] == if k < start then start + k else -1
  {
  }

  lemma FoundHalf(p: Program, i: Id, start: nat)
    requires Typed(p) && i < |p| && p[i].Binary?
    ensures ShuffleAndOther(p, i).0 == SplitSource(p, i)
    ensures var (next, shuffle) := ShuffleAndOther(p, i);
            SplitLevel(p, i, start) <==>
              && shuffle.Some? && p[shuffle.value].first == next
              && p[shuffle.value].mask == SplitMask(|p[shuffle.value].mask|, start)
  {
    var (next, shuffle) := ShuffleAndOther(p, i);
    if shuffle.Some? {
      SplitLevelExact(p, i, shuffle.value, next, start);
      SplitMaskIs(p[shuffle.value].mask, start);
    }
  }

  lemma SplitMaskIs(mask: seq<int>, start: nat)
    ensures mask == SplitMask(|mask|, start) <==>
      forall k :: 0 <= k < |mask| ==> mask[k] == if k < start then start + k else -1
  {
  }

  ghost predicate SplitTree(p: Program, i: Id, op: Opcode, start: nat, remain: nat)
    requires Typed(p) && i < |p|
    decreases i
  {
    remain == 1 ||
    (p[i].Binary? && p[i].op == op && SplitLevel(p, i, start) && SplitTree(p, SplitSource(p, i), op, 2 * start, remain / 2))
  }

  ghost function SplitBottom(p: Program, i: Id, op: Opcode, start: nat, remain: nat): (b: Id)
    requires Typed(p) && i < |p| && SplitTree(p, i, op, start, remain)
    ensures b <= i
    decreases i
  {
    if remain == 1 then i else SplitBottom(p, SplitSource(p, i), op, 2 * start, remain / 2)
  }

  ghost predicate SplittingReduction(p: Program, vector: Id, index: Option<nat>)
    requires Typed(p) && vector < |p|
  {
    && index.Some? && index.value % B == 0 && p[vector].Binary? && IsPowerOf2(p[vector].width)
    && SplitTree(p, vector, p[vector].op, 1, p[vector].width)
  }

  /** Writes the mask of a level (CostModel.cpp:335-339). */
  method WriteSplitMask(mask: array<int>, start: nat)
    requires start <= mask.Length
    modifies mask
    ensures mask[..] == SplitMask(mask.Length, start)
  {
    for j := 0 to start
      invariant forall k :: 0 <= k < j ==> mask[k] == start + k
    {
      mask[j] := start + j;
    }
    for j := start to mask.Length
      invariant forall k :: 0 <= k < j ==> mask[k] == if k < start then start + k else -1
    {
      mask[j] := -1;
    }
  }

  lemma Halve(remain: nat, start: nat, width: nat)
    requires remain > 1 && IsPowerOf2(remain) && start * remain == width
    ensures IsPowerOf2(remain / 2) && 2 * start * (remain / 2) == width && 2 * start <= width && start >= 0
  {
    var h := remain / 2;
    assert remain == 2 * h;
    MulAssoc(start, 2, h);
    MulAtMost(2, remain, start);
  }

  /** lib/Analysis/CostModel.cpp:279-353: accepted exactly if there is a tree of splitting levels. */
  method MatchVectorSplittingReduction(p: Program, enabled: bool, vector: Id, index: Option<nat>)
    returns (ok: bool, reduction: Reduction)
    requires Typed(p) && vector < |p|
    ensures ok <==> enabled && SplittingReduction(p, vector, index)
    ensures ok ==> reduction == Reduction(p[vector].op, p[vector].width)
  {
    ok, reduction := false, Reduction(0, 0);
    if !enabled {
      return;
    }
    var root := RootOf(p, vector, index);
    if root.None? {
      return;
    }
    var opcode, width := p[vector].op, p[vector].width;
    if !IsPowerOf2(width) {
      return;
    }
    var start: nat, rdxOp: nat, remain: nat := 1, vector, width;
    var mask := new int[width](k => 0);
    while remain != 1
      invariant rdxOp <= vector && Width(p[rdxOp]) == width && IsPowerOf2(remain) && start * remain == width && start > 0
      invariant SplitTree(p, vector, opcode, 1, width) <==> SplitTree(p, rdxOp, opcode, start, remain)
      decreases remain
    {
      Halve(remain, start, width);
      if !p[rdxOp].Binary? || p[rdxOp].op != opcode {
        return;
      }
      var (next, shuffle) := ShuffleAndOther(p, rdxOp);
      FoundHalf(p, rdxOp, start);
      assert SplitTree(p, rdxOp, opcode, start, remain) ==> SplitLevel(p, rdxOp, start);
      if shuffle.None? || p[shuffle.value].first != next {
        return;
      }
      WriteSplitMask(mask, start);
      if mask[..] != p[shuffle.value].mask {
        return;
      }
      rdxOp, remain, start := next, remain / 2, start * 2;
    }
    ok, reduction := true, Reduction(opcode, width);
  }

  // ---------------------------------------------------------------- what a splitting tree computes

  lemma MovedLane<T(!new)>(p: Program, s: Id, v: Id, start: nat, k: nat, m: Meaning<T>)
    requires Typed(p) && s < |p| && v < |p| && MovesHalf(p, s, v, start)
    requires k < start && start + k < Width(p[v]) && k < Width(p[s])
    ensures Lanes(p, s, m)[k] == Lanes(p, v, m)[start + k]
  {
    assert TypedAt(p, s);
  }

  lemma SplitLane<T(!new)>(p: Program, i: Id, start: nat, k: nat, m: Meaning<T>)
    requires Typed(p) && i < |p| && p[i].Binary? && SplitLevel(p, i, start)
    requires k < start && 2 * start <= p[i].width && Commutative(p[i].op, m)
    ensures var ys := Lanes(p, SplitSource(p, i), m);
            Lanes(p, i, m)[k] == m.apply(p[i].op, ys[k], ys[start + k])
  {
    assert TypedAt(p, i);
    var l, r := p[i].left, p[i].right;
    if p[l].Shuffle? {
      MovedLane(p, l, r, start, k, m);
    } else {
      MovedLane(p, r, l, start, k, m);
    }
  }

  lemma SplitLevelFolds<T(!new)>(p: Program, i: Id, start: nat, m: Meaning<T>)
    requires Typed(p) && i < |p| && p[i].Binary? && SplitLevel(p, i, start) && 0 < start && 2 * start <= p[i].width
    requires Associative(p[i].op, m) && Commutative(p[i].op, m)
    ensures Fold(Lanes(p, i, m)[..start], p[i].op, m) ==
            Fold(Lanes(p, SplitSource(p, i), m)[..2 * start], p[i].op, m)
  {
    hide Lanes, SplitLevel;
    var xs, ys := Lanes(p, i, m)[..start], Lanes(p, SplitSource(p, i), m)[..2 * start];
    forall k | 0 <= k < start ensures xs[k] == m.apply(p[i].op, ys[k], ys[start + k]) {
      SplitLane(p, i, start, k, m);
    }
    FoldHalves(xs, ys, p[i].op, m);
  }

  lemma {:induction false} SplitTreeFolds<T(!new)>(p: Program, i: Id, op: Opcode, start: nat, remain: nat, m: Meaning<T>)
    requires Typed(p) && i < |p| && SplitTree(p, i, op, start, remain)
    requires start > 0 && IsPowerOf2(remain) && start * remain == Width(p[i])
    requires Associative(op, m) && Commutative(op, m)
    ensures start <= Width(p[i]) == Width(p[SplitBottom(p, i, op, start, remain)])
    ensures Fold(Lanes(p, i, m)[..start], op, m) == Fold(Lanes(p, SplitBottom(p, i, op, start, remain), m), op, m)
    decreases i
  {
    hide Lanes, SplitLevel, Fold;
    if remain == 1 {
      assert Lanes(p, i, m)[..start] == Lanes(p, i, m);
    } else {
      Halve(remain, start, Width(p[i]));
      SplitTreeFolds(p, SplitSource(p, i), op, 2 * start, remain / 2, m);
      SplitLevelFolds(p, i, start, m);
    }
  }

  /** The first lane of an accepted expression is the operator folded over all lanes of the bottom vector. */
  lemma SplittingComputes<T(!new)>(p: Program, vector: Id, index: Option<nat>, m: Meaning<T>)
    requires Typed(p) && vector < |p| && SplittingReduction(p, vector, index)
    requires Associative(p[vector].op, m) && Commutative(p[vector].op, m)
    ensures var bottom := SplitBottom(p, vector, p[vector].op, 1, p[vector].width);
            && Width(p[bottom]) == p[vector].width > 0
            && Lanes(p, vector, m)[0] == Fold(Lanes(p, bottom, m), p[vector].op, m)
  {
    hide SplitTree, Lanes, SplitBottom;
    SplitTreeFolds(p, vector, p[vector].op, 1, p[vector].width, m);
    assert Lanes(p, vector, m)[..1] == [Lanes(p, vector, m)[0]];
  }
}
