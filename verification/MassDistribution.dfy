/**
 lib/Analysis/BlockFrequencyInfoImpl.cpp: combining and scaling the weights of the successors of a block,
 and distributing its mass among them.  `Combined` says what either way of combining achieves, `Normalized32`
 what is left to distribute by, and `Portions` how the mass is taken off piece by piece; rounding loses nothing,
 because what one piece leaves over goes to those that follow.
 */
module MassDistribution {
  import opened Arithmetic
  import opened FloatArithmetic

  type Node = uint32

  datatype DistType = Local | Exit | Backedge

  datatype Weight = Weight(kind: DistType, target: Node, amount: uint64)

  // ---------------------------------------------------------------- sums of weights

  function Sum(ws: seq<Weight>): nat {
    if ws == [] then 0 else Sum(ws[..|ws| - 1]) + ws[|ws| - 1].amount
  }

  /** What target `t` gets in all. */
  function SumFor(ws: seq<Weight>, t: Node): nat {
    if ws == [] then 0
    else SumFor(ws[..|ws| - 1], t) + if ws[|ws| - 1].target == t then ws[|ws| - 1].amount else 0
  }

  function Targets(ws: seq<Weight>): set<Node> {
    set w | w in ws :: w.target
  }

  /** Every amount is positive, and edges to one target are of one kind. */
  ghost predicate WellFormed(ws: seq<Weight>) {
    && (forall i :: 0 <= i < |ws| ==> ws[i].amount > 0)
    && (forall i, j :: 0 <= i < |ws| && 0 <= j < |ws| && ws[i].target == ws[j].target ==> ws[i].kind == ws[j].kind)
  }

  ghost predicate Distinct(ws: seq<Weight>) {
    forall i, j :: 0 <= i < j < |ws| ==> ws[i].target != ws[j].target
  }

  /** `out` has one entry for each target of `ws`, of the same kind and with all that the target gets. */
  ghost predicate Combined(ws: seq<Weight>, out: seq<Weight>) {
    && Distinct(out) && Targets(out) == Targets(ws)
    && (forall i :: 0 <= i < |out| ==> out[i].amount == SumFor(ws, out[i].target))
    && (forall i, j :: 0 <= i < |out| && 0 <= j < |ws| && out[i].target == ws[j].target ==> out[i].kind == ws[j].kind)
  }

  lemma {:induction false} SumForAppend(a: seq<Weight>, b: seq<Weight>, t: Node)
    ensures SumFor(a + b, t) == SumFor(a, t) + SumFor(b, t)
  {
    if b == [] {
      assert a + b == a;
    } else {
      assert (a + b)[..|a + b| - 1] == a + b[..|b| - 1];
      SumForAppend(a, b[..|b| - 1], t);
    }
  }

  lemma {:induction false} SumAppend(a: seq<Weight>, b: seq<Weight>)
    ensures Sum(a + b) == Sum(a) + Sum(b)
  {
    if b == [] {
      assert a + b == a;
    } else {
      assert (a + b)[..|a + b| - 1] == a + b[..|b| - 1];
      SumAppend(a, b[..|b| - 1]);
    }
  }

  lemma {:induction false} SumForAtMost(ws: seq<Weight>, t: Node)
    ensures SumFor(ws, t) <= Sum(ws)
  {
    if ws != [] {
      SumForAtMost(ws[..|ws| - 1], t);
    }
  }

  lemma {:induction false} SumForNone(ws: seq<Weight>, t: Node)
    requires t !in Targets(ws)
    ensures SumFor(ws, t) == 0
  {
    if ws != [] {
      var w := ws[|ws| - 1];
      assert w in ws;
      forall x | x in Targets(ws[..|ws| - 1]) ensures x in Targets(ws) {
        var y :| y in ws[..|ws| - 1] && y.target == x;
        assert y in ws;
      }
      SumForNone(ws[..|ws| - 1], t);
    }
  }

  lemma {:induction false} SumForSome(ws: seq<Weight>, t: Node)
    requires t in Targets(ws) && forall i :: 0 <= i < |ws| ==> ws[i].amount > 0
    ensures SumFor(ws, t) > 0
  {
    var last := ws[|ws| - 1];
    if last.target != t {
      var y :| y in ws && y.target == t;
      assert ws == ws[..|ws| - 1] + [last];
      assert y in ws[..|ws| - 1];
      SumForSome(ws[..|ws| - 1], t);
    }
  }

  lemma TargetsAppend(ws: seq<Weight>, w: Weight)
    ensures Targets(ws + [w]) == Targets(ws) + {w.target}
  {
    forall t | t in Targets(ws) + {w.target} ensures t in Targets(ws + [w]) {
      if t in Targets(ws) {
        var x :| x in ws && x.target == t;
        assert x in ws + [w];
      } else {
        assert w in ws + [w];
      }
    }
  }

  /** The weights of all targets but `t`. */
  function Without(ws: seq<Weight>, t: Node): seq<Weight> {
    if ws == [] then [] else Without(ws[..|ws| - 1], t) + if ws[|ws| - 1].target == t then [] else [ws[|ws| - 1]]
  }

  lemma {:induction false} WithoutSums(ws: seq<Weight>, t: Node, x: Node)
    ensures Sum(ws) == SumFor(ws, t) + Sum(Without(ws, t))
    ensures SumFor(Without(ws, t), x) == if x == t then 0 else SumFor(ws, x)
  {
    if ws != [] {
      var last, rest := ws[|ws| - 1], Without(ws[..|ws| - 1], t);
      WithoutSums(ws[..|ws| - 1], t, x);
      SumAppend(rest, [last]);
      SumForAppend(rest, [last], x);
      assert [last][..0] == [] && rest + [] == rest;
    }
  }

  ghost predicate EachSum(ws: seq<Weight>, out: seq<Weight>) {
    && Distinct(out)
    && (forall i :: 0 <= i < |out| ==> out[i].amount == SumFor(ws, out[i].target))
    && (forall t :: SumFor(ws, t) > 0 ==> t in Targets(out))
  }

  /** Combining loses no weight. */
  lemma {:induction false} SumKept(ws: seq<Weight>, out: seq<Weight>)
    requires EachSum(ws, out)
    ensures Sum(out) == Sum(ws)
    decreases |out|
  {
    if out == [] {
      NothingLeft(ws);
    } else {
      var n := |out| - 1;
      var t, rest := out[n].target, out[..n];
      forall x ensures SumFor(Without(ws, t), x) == if x == t then 0 else SumFor(ws, x) {
        WithoutSums(ws, t, x);
      }
      WithoutSums(ws, t, t);
      assert out == rest + [out[n]];
      TargetsAppend(rest, out[n]);
      SumKept(Without(ws, t), rest);
    }
  }

  lemma {:induction false} NothingLeft(ws: seq<Weight>)
    requires forall t :: SumFor(ws, t) == 0
    ensures Sum(ws) == 0
  {
    if ws != [] {
      var last, rest := ws[|ws| - 1], ws[..|ws| - 1];
      assert SumFor(ws, last.target) == 0;
      forall t ensures SumFor(rest, t) == 0 {
        assert SumFor(ws, t) == 0;
      }
      NothingLeft(rest);
    }
  }

  lemma CombinedSum(ws: seq<Weight>, out: seq<Weight>)
    requires Combined(ws, out) && WellFormed(ws)
    ensures Sum(out) == Sum(ws) && WellFormed(out)
  {
    forall t | SumFor(ws, t) > 0 ensures t in Targets(out) {
      if t !in Targets(ws) {
        SumForNone(ws, t);
      }
    }
    SumKept(ws, out);
    forall i | 0 <= i < |out| ensures out[i].amount > 0 {
      assert out[i] in out;
      SumForSome(ws, out[i].target);
    }
  }

  /** Whichever way weights are combined, the result is the same but for its order. */
  lemma SameCombination(ws: seq<Weight>, a: seq<Weight>, b: seq<Weight>)
    requires Combined(ws, a) && Combined(ws, b)
    ensures forall w :: w in a <==> w in b
  {
    forall w | w in a ensures w in b {
      CombinedIn(ws, a, b, w);
    }
    forall w | w in b ensures w in a {
      CombinedIn(ws, b, a, w);
    }
  }

  lemma CombinedIn(ws: seq<Weight>, a: seq<Weight>, b: seq<Weight>, w: Weight)
    requires Combined(ws, a) && Combined(ws, b) && w in a
    ensures w in b
  {
    assert w.target in Targets(a) && w.target in Targets(b);
    var x :| x in b && x.target == w.target;
    var y :| y in ws && y.target == w.target;
    var i :| 0 <= i < |a| && a[i] == w;
    var j :| 0 <= j < |b| && b[j] == x;
    var k :| 0 <= k < |ws| && ws[k] == y;
  }

  // ---------------------------------------------------------------- sorting

  ghost predicate Sorted(ws: seq<Weight>) {
    forall i, j :: 0 <= i < j < |ws| ==> ws[i].target <= ws[j].target
  }

  /** By rising targets, each once. */
  ghost predicate Rising(ws: seq<Weight>) {
    forall i, j :: 0 <= i < j < |ws| ==> ws[i].target < ws[j].target
  }

  ghost predicate AllBelow(ws: seq<Weight>, t: Node) {
    forall i :: 0 <= i < |ws| ==> ws[i].target < t
  }

  ghost predicate SameWeights(a: seq<Weight>, b: seq<Weight>) {
    && multiset(a) == multiset(b) && |a| == |b|
    && (forall t :: SumFor(a, t) == SumFor(b, t))
  }

  lemma InsertedSame(sorted: seq<Weight>, k: nat, w: Weight, ws: seq<Weight>)
    requires k <= |sorted| && SameWeights(sorted, ws)
    ensures SameWeights(sorted[..k] + [w] + sorted[k..], ws + [w])
  {
    var out := sorted[..k] + [w] + sorted[k..];
    assert sorted == sorted[..k] + sorted[k..];
    assert multiset(out) == multiset(sorted) + multiset{w};
    forall t ensures SumFor(out, t) == SumFor(ws + [w], t) {
      SumForAppend(sorted[..k], sorted[k..], t);
      SumForAppend(sorted[..k], [w], t);
      SumForAppend(sorted[..k] + [w], sorted[k..], t);
      SumForAppend(ws, [w], t);
    }
  }

  /** A permutation of the weights in the order of their targets. */
  method Sort(ws: seq<Weight>) returns (sorted: seq<Weight>)
    ensures Sorted(sorted) && SameWeights(sorted, ws)
  {
    hide SameWeights, Sorted;
    sorted := [];
    NoWeights();
    var i := 0;
    assert SameWeights([], ws[..0]) by {
      assert ws[..0] == [];
    }
    while i < |ws|
      invariant 0 <= i <= |ws| && Sorted(sorted) && SameWeights(sorted, ws[..i])
    {
      var w := ws[i];
      var k := |sorted|;
      while k > 0 && w.target < sorted[k - 1].target
        invariant 0 <= k <= |sorted|
        invariant forall j :: k <= j < |sorted| ==> w.target < sorted[j].target
      {
        k := k - 1;
      }
      InsertedSame(sorted, k, w, ws[..i]);
      InsertedSorted(sorted, k, w);
      assert ws[..i + 1] == ws[..i] + [w];
      sorted := sorted[..k] + [w] + sorted[k..];
      i := i + 1;
    }
    assert ws[..i] == ws;
  }

  lemma InsertedSorted(sorted: seq<Weight>, k: nat, w: Weight)
    requires Sorted(sorted) && k <= |sorted| && (k > 0 ==> sorted[k - 1].target <= w.target)
    requires forall j :: k <= j < |sorted| ==> w.target < sorted[j].target
    ensures Sorted(sorted[..k] + [w] + sorted[k..])
  {
    var out := sorted[..k] + [w] + sorted[k..];
    forall i | 0 <= i < |out| ensures out[i] == if i < k then sorted[i] else if i == k then w else sorted[i - 1] {}
  }

  lemma NoWeights()
    ensures SameWeights([], []) && Sorted([])
  {
  }

  lemma SameTargets(a: seq<Weight>, b: seq<Weight>)
    requires SameWeights(a, b)
    ensures Targets(a) == Targets(b) && (forall w :: w in a <==> w in b)
  {
    forall w ensures w in a <==> w in b {
      assert w in multiset(a) <==> w in a;
      assert w in multiset(b) <==> w in b;
    }
  }

  lemma SameWellFormed(a: seq<Weight>, b: seq<Weight>)
    requires SameWeights(a, b) && WellFormed(b)
    ensures WellFormed(a)
  {
    SameTargets(a, b);
    forall i | 0 <= i < |a| ensures a[i].amount > 0 {
      assert a[i] in b;
    }
    forall i, j | 0 <= i < |a| && 0 <= j < |a| && a[i].target == a[j].target ensures a[i].kind == a[j].kind {
      assert a[i] in b && a[j] in b;
    }
  }

  lemma SameCombined(a: seq<Weight>, b: seq<Weight>, out: seq<Weight>)
    requires SameWeights(a, b) && Combined(a, out)
    ensures Combined(b, out)
  {
    SameTargets(a, b);
    forall i, j | 0 <= i < |out| && 0 <= j < |b| && out[i].target == b[j].target ensures out[i].kind == b[j].kind {
      assert b[j] in a;
    }
  }

  lemma {:induction false} SameSum(a: seq<Weight>, b: seq<Weight>)
    requires forall t :: SumFor(a, t) == SumFor(b, t)
    ensures Sum(a) == Sum(b)
    decreases |a|
  {
    if a == [] {
      forall t ensures SumFor(b, t) == 0 {
        assert SumFor(a, t) == 0;
      }
      NothingLeft(b);
    } else {
      var t := a[|a| - 1].target;
      forall x ensures SumFor(Without(a, t), x) == SumFor(Without(b, t), x) {
        WithoutSums(a, t, x);
        WithoutSums(b, t, x);
      }
      WithoutSums(a, t, t);
      WithoutSums(b, t, t);
      WithoutShorter(a, t);
      SameSum(Without(a, t), Without(b, t));
    }
  }

  lemma {:induction false} WithoutShorter(ws: seq<Weight>, t: Node)
    ensures |Without(ws, t)| <= |ws| && (ws != [] && ws[|ws| - 1].target == t ==> |Without(ws, t)| < |ws|)
  {
    if ws != [] {
      WithoutShorter(ws[..|ws| - 1], t);
    }
  }

  // ---------------------------------------------------------------- combining

  /** Adds one weight to another of the same target, or makes it the first (BlockFrequencyInfoImpl.cpp:417-427). */
  function CombineWeight(w: Weight, other: Weight): Weight
    requires w.amount + other.amount < W && (w.amount != 0 ==> w.kind == other.kind && w.target == other.target)
  {
    if w.amount == 0 then other else w.(amount := w.amount + other.amount)
  }

  /** All weights from `i` to `l` are for one target, and `t` is the first of them so far combined. */
  ghost predicate Group(ws: seq<Weight>, i: nat, l: nat, w: Weight) {
    && i < l <= |ws| && w.target == ws[i].target && w.kind == ws[i].kind
    && (forall k :: i <= k < l ==> ws[k].target == ws[i].target)
    && w.amount == Sum(ws[i..l])
  }

  lemma GroupStarts(ws: seq<Weight>, i: nat)
    requires i < |ws|
    ensures Group(ws, i, i + 1, ws[i])
  {
    assert ws[i..i + 1] == [ws[i]] && [ws[i]][..0] == [];
  }

  lemma SumLast(ws: seq<Weight>, w: Weight)
    ensures Sum(ws + [w]) == Sum(ws) + w.amount
  {
    assert (ws + [w])[..|ws|] == ws;
  }

  lemma {:induction false} FirstAtMost(ws: seq<Weight>)
    requires ws != []
    ensures ws[0].amount <= Sum(ws)
  {
    if |ws| > 1 {
      FirstAtMost(ws[..|ws| - 1]);
    }
  }

  lemma GroupAmount(ws: seq<Weight>, i: nat, l: nat)
    requires i < l < |ws|
    ensures Sum(ws[i..l + 1]) == Sum(ws[i..l]) + ws[l].amount && Sum(ws[i..l]) >= ws[i].amount
    ensures Sum(ws[i..l + 1]) <= Sum(ws)
  {
    hide Sum;
    assert ws[i..l + 1] == ws[i..l] + [ws[l]];
    SumLast(ws[i..l], ws[l]);
    FirstAtMost(ws[i..l]);
    PartSum(ws, i, l + 1);
  }

  lemma GroupGrows(ws: seq<Weight>, i: nat, l: nat, w: Weight)
    requires WellFormed(ws) && Sum(ws) < W && Group(ws, i, l, w) && l < |ws| && ws[l].target == ws[i].target
    ensures w.amount + ws[l].amount < W && w.kind == ws[l].kind && w.target == ws[l].target && w.amount > 0
    ensures Group(ws, i, l + 1, CombineWeight(w, ws[l]))
  {
    PositiveAlike(ws, i, l);
    GroupAmount(ws, i, l);
    hide Sum, WellFormed;
    assert forall k :: i <= k < l + 1 ==> ws[k].target == ws[i].target;
    assert CombineWeight(w, ws[l]) == w.(amount := w.amount + ws[l].amount);
  }

  lemma PositiveAlike(ws: seq<Weight>, i: nat, l: nat)
    requires WellFormed(ws) && i < |ws| && l < |ws| && ws[l].target == ws[i].target
    ensures ws[i].amount > 0 && ws[l].amount > 0 && ws[l].kind == ws[i].kind
  {
  }

  lemma PartSum(ws: seq<Weight>, i: nat, l: nat)
    requires i <= l <= |ws|
    ensures Sum(ws[i..l]) <= Sum(ws)
  {
    hide Sum;
    SumAppend(ws[..i], ws[i..l]);
    SumAppend(ws[..l], ws[l..]);
    assert ws[..l] == ws[..i] + ws[i..l] && ws == ws[..l] + ws[l..];
  }

  lemma {:induction false} AllFor(ws: seq<Weight>, t: Node, x: Node)
    requires forall k :: 0 <= k < |ws| ==> ws[k].target == t
    ensures SumFor(ws, x) == if x == t then Sum(ws) else 0
  {
    if ws != [] {
      AllFor(ws[..|ws| - 1], t, x);
    }
  }

  /** A whole group becomes one entry. */
  lemma GroupCombined(ws: seq<Weight>, i: nat, l: nat, out: seq<Weight>, w: Weight)
    requires WellFormed(ws) && Group(ws, i, l, w) && Combined(ws[..i], out)
    requires forall k :: 0 <= k < i ==> ws[k].target != ws[i].target
    ensures Combined(ws[..l], out + [w])
  {
    var t, out' := ws[i].target, out + [w];
    GroupTargets(ws, i, l, w);
    TargetsAppend(out, w);
    SumForNone(ws[..i], t);
    hide Sum, SumFor;
    forall k | 0 <= k < |out'| ensures out'[k].amount == SumFor(ws[..l], out'[k].target) && (k < |out| ==> out'[k].target != t) {
      GroupFor(ws, i, l, w, out'[k].target);
      if k < |out| {
        assert out[k] in out;
      }
    }
    hide Targets;
    forall k, j | 0 <= k < |out'| && 0 <= j < l && out'[k].target == ws[..l][j].target ensures out'[k].kind == ws[..l][j].kind {
      if k < |out| && j < i {
        assert ws[..i][j] == ws[..l][j];
      }
    }
  }

  lemma GroupTargets(ws: seq<Weight>, i: nat, l: nat, w: Weight)
    requires Group(ws, i, l, w) && forall k :: 0 <= k < i ==> ws[k].target != ws[i].target
    ensures Targets(ws[..l]) == Targets(ws[..i]) + {ws[i].target} && ws[i].target !in Targets(ws[..i])
  {
    forall x ensures x in Targets(ws[..l]) <==> x in Targets(ws[..i]) || x == ws[i].target {
      TargetIn(ws[..l], x);
      TargetIn(ws[..i], x);
      assert ws[..l][i] == ws[i];
      if k :| 0 <= k < i && ws[..i][k].target == x {
        assert ws[..l][k].target == x;
      }
    }
    TargetIn(ws[..i], ws[i].target);
  }

  lemma GroupFor(ws: seq<Weight>, i: nat, l: nat, w: Weight, x: Node)
    requires Group(ws, i, l, w)
    ensures SumFor(ws[..l], x) == SumFor(ws[..i], x) + if x == w.target then w.amount else 0
  {
    assert ws[..l] == ws[..i] + ws[i..l];
    SumForAppend(ws[..i], ws[i..l], x);
    AllFor(ws[i..l], ws[i].target, x);
  }

  lemma TargetIn(ws: seq<Weight>, t: Node)
    ensures t in Targets(ws) <==> exists k :: 0 <= k < |ws| && ws[k].target == t
  {
    if t in Targets(ws) {
      var w :| w in ws && w.target == t;
      var k :| 0 <= k < |ws| && ws[k] == w;
    }
    if k :| 0 <= k < |ws| && ws[k].target == t {
      assert ws[k] in ws;
    }
  }

  /** Sorts the weights and joins neighbours in place (BlockFrequencyInfoImpl.cpp:428-448). */
  method CombineWeightsBySorting(weights0: seq<Weight>) returns (weights: seq<Weight>)
    requires WellFormed(weights0) && Sum(weights0) < W
    ensures Combined(weights0, weights) && Rising(weights)
  {
    hide Combined, WellFormed, SameWeights, Group, Sum, SumFor, Rising, AllBelow;
    weights := Sort(weights0);
    SameWellFormed(weights, weights0);
    WeightsSum(weights, weights0);
    ghost var ws := weights;
    var o, i, l := 0, 0, 0;
    assert Combined(ws[..0], weights[..0]) by {
      NothingCombined(ws);
    }
    NothingRises(weights[..0]);
    while i != |weights|
      invariant |weights| == |ws| && o <= i == l <= |ws|
      invariant Rising(weights[..o]) && (i < |ws| ==> AllBelow(weights[..o], ws[i].target))
      invariant weights[i..] == ws[i..] && Combined(ws[..i], weights[..o])
      invariant i < |ws| ==> forall k :: 0 <= k < i ==> ws[k].target != ws[i].target
      decreases |ws| - i
    {
      assert weights[i] == ws[i];
      GroupStarts(ws, i);
      weights := weights[o := weights[i]];
      ghost var out := weights[..o];
      l := l + 1;
      while l != |weights| && weights[i].target == weights[l].target
        invariant |weights| == |ws| && o <= i < l <= |ws|
        invariant weights[l..] == ws[l..] && weights[..o] == out && weights[i].target == ws[i].target
        invariant Group(ws, i, l, weights[o])
        decreases |ws| - l
      {
        assert weights[l] == ws[l];
        GroupGrows(ws, i, l, weights[o]);
        weights := weights[o := CombineWeight(weights[o], weights[l])];
        l := l + 1;
      }
      GroupCombined(ws, i, l, out, weights[o]);
      assert weights[..o + 1] == out + [weights[o]];
      GroupMembers(ws, i, l, weights[o]);
      GroupRises(ws, i, l, out, weights[o]);
      assert l < |ws| ==> weights[l] == ws[l];
      o, i := o + 1, l;
    }
    assert ws[..i] == ws;
    weights := weights[..o];
    SameCombined(ws, weights0, weights);
  }

  lemma NothingRises(ws: seq<Weight>)
    requires ws == []
    ensures Rising(ws) && forall t :: AllBelow(ws, t)
  {
  }

  lemma GroupRises(ws: seq<Weight>, i: nat, l: nat, out: seq<Weight>, w: Weight)
    requires Group(ws, i, l, w) && Sorted(ws) && Rising(out) && AllBelow(out, ws[i].target)
    requires l < |ws| ==> ws[l].target != ws[i].target
    ensures Rising(out + [w]) && (l < |ws| ==> AllBelow(out + [w], ws[l].target))
  {
    hide Sum;
  }

  lemma GroupMembers(ws: seq<Weight>, i: nat, l: nat, w: Weight)
    requires Group(ws, i, l, w) && Sorted(ws) && forall k :: 0 <= k < i ==> ws[k].target != ws[i].target
    ensures l < |ws| && ws[l].target != ws[i].target ==> forall k :: 0 <= k < l ==> ws[k].target != ws[l].target
  {
  }

  lemma NothingCombined(ws: seq<Weight>)
    ensures Combined(ws[..0], [])
  {
    assert ws[..0] == [];
  }

  lemma WeightsSum(a: seq<Weight>, b: seq<Weight>)
    requires SameWeights(a, b)
    ensures Sum(a) == Sum(b)
  {
    SameSum(a, b);
  }

  ghost predicate TableAmounts(ws: seq<Weight>, table: map<Node, Weight>) {
    forall t :: t in table ==> table[t].target == t && table[t].amount == SumFor(ws, t)
  }

  ghost predicate TableKinds(ws: seq<Weight>, table: map<Node, Weight>) {
    forall j :: 0 <= j < |ws| ==> ws[j].target in table && table[ws[j].target].kind == ws[j].kind
  }

  /** What a hash table of weights by target holds after `ws`. */
  ghost predicate Table(ws: seq<Weight>, table: map<Node, Weight>) {
    table.Keys == Targets(ws) && TableAmounts(ws, table) && TableKinds(ws, table)
  }

  lemma OneMoreFor(ws: seq<Weight>, i: nat, x: Node)
    requires i < |ws|
    ensures SumFor(ws[..i + 1], x) == SumFor(ws[..i], x) + if x == ws[i].target then ws[i].amount else 0
    ensures SumFor(ws[..i + 1], x) <= Sum(ws)
  {
    assert ws[..i + 1][..i] == ws[..i];
    SumForAtMost(ws[..i + 1], x);
    PartSum(ws, 0, i + 1);
  }

  /** The entry that a weight is combined with. */
  function EntryFor(table: map<Node, Weight>, t: Node): Weight {
    if t in table then table[t] else Weight(Local, 0, 0)
  }

  lemma EntryFits(ws: seq<Weight>, i: nat, table: map<Node, Weight>)
    requires WellFormed(ws) && Sum(ws) < W && i < |ws| && Table(ws[..i], table)
    ensures var w := EntryFor(table, ws[i].target);
      w.amount + ws[i].amount < W && (w.amount != 0 ==> w.kind == ws[i].kind && w.target == ws[i].target)
    ensures EntryFor(table, ws[i].target).amount == SumFor(ws[..i], ws[i].target)
    ensures ws[i].target in table ==> EntryFor(table, ws[i].target).amount != 0
  {
    var t, prev := ws[i].target, ws[..i];
    OneMoreFor(ws, i, t);
    if t in table {
      TargetIn(prev, t);
      var k :| 0 <= k < i && prev[k].target == t;
      assert ws[k] == prev[k];
      hide Sum, SumFor;
      SumForSome(prev, t);
    } else {
      SumForNone(prev, t);
    }
  }

  lemma TableGrows(ws: seq<Weight>, i: nat, table: map<Node, Weight>, w: Weight)
    requires WellFormed(ws) && Sum(ws) < W && i < |ws| && Table(ws[..i], table) && w == EntryFor(table, ws[i].target)
    ensures w.amount + ws[i].amount < W && (w.amount != 0 ==> w.kind == ws[i].kind && w.target == ws[i].target)
    ensures Table(ws[..i + 1], table[ws[i].target := CombineWeight(w, ws[i])])
  {
    hide Sum, SumFor, Targets, TableAmounts, TableKinds, WellFormed;
    EntryFits(ws, i, table);
    assert ws[..i + 1] == ws[..i] + [ws[i]];
    TargetsAppend(ws[..i], ws[i]);
    AmountsGrow(ws, i, table, w);
    KindsGrow(ws, i, table, CombineWeight(w, ws[i]));
  }

  lemma AmountsGrow(ws: seq<Weight>, i: nat, table: map<Node, Weight>, w: Weight)
    requires i < |ws| && TableAmounts(ws[..i], table) && w.amount == SumFor(ws[..i], ws[i].target)
    requires w.amount + ws[i].amount < W && (w.amount != 0 ==> w.kind == ws[i].kind && w.target == ws[i].target)
    ensures TableAmounts(ws[..i + 1], table[ws[i].target := CombineWeight(w, ws[i])])
  {
    hide Sum, SumFor;
    var table' := table[ws[i].target := CombineWeight(w, ws[i])];
    forall x | x in table' ensures table'[x].target == x && table'[x].amount == SumFor(ws[..i + 1], x) {
      OneMoreFor(ws, i, x);
    }
  }

  lemma KindsGrow(ws: seq<Weight>, i: nat, table: map<Node, Weight>, w: Weight)
    requires WellFormed(ws) && i < |ws| && TableKinds(ws[..i], table) && w.kind == ws[i].kind
    ensures TableKinds(ws[..i + 1], table[ws[i].target := w])
  {
    forall j | 0 <= j < i ensures ws[..i][j] == ws[j] && ws[..i + 1][j] == ws[j] {
    }
  }

  lemma {:induction false} CountTargets(ws: seq<Weight>)
    ensures |Targets(ws)| <= |ws| && (|Targets(ws)| == |ws| ==> Distinct(ws))
  {
    if ws == [] {
      assert Targets(ws) == {};
    } else {
      var rest, last := ws[..|ws| - 1], ws[|ws| - 1];
      CountTargets(rest);
      assert ws == rest + [last];
      TargetsAppend(rest, last);
      if last.target in Targets(rest) {
        assert Targets(ws) == Targets(rest);
      } else {
        forall i | 0 <= i < |rest| ensures ws[i].target != last.target {
          assert rest[i] in rest;
        }
      }
    }
  }

  lemma {:induction false} DistinctSum(ws: seq<Weight>, i: nat)
    requires Distinct(ws) && i < |ws|
    ensures SumFor(ws, ws[i].target) == ws[i].amount
  {
    var rest, n := ws[..|ws| - 1], |ws| - 1;
    if i == n {
      TargetIn(rest, ws[i].target);
      SumForNone(rest, ws[i].target);
    } else {
      DistinctSum(rest, i);
    }
  }

  lemma AlreadyCombined(ws: seq<Weight>)
    requires WellFormed(ws) && |Targets(ws)| == |ws|
    ensures Combined(ws, ws)
  {
    CountTargets(ws);
    forall i | 0 <= i < |ws| ensures ws[i].amount == SumFor(ws, ws[i].target) {
      DistinctSum(ws, i);
    }
  }

  /** The entries of a table, in whatever order, are the combined weights. */
  lemma EntriesCombined(ws: seq<Weight>, table: map<Node, Weight>, out: seq<Weight>)
    requires Table(ws, table) && Distinct(out) && Targets(out) == table.Keys
    requires forall i :: 0 <= i < |out| ==> out[i].target in table && out[i] == table[out[i].target]
    ensures Combined(ws, out)
  {
  }

  /** Collects the weights in a hash table and lists its entries (BlockFrequencyInfoImpl.cpp:449-465). */
  method CombineWeightsByHashing(weights0: seq<Weight>) returns (weights: seq<Weight>)
    requires WellFormed(weights0) && Sum(weights0) < W
    ensures Combined(weights0, weights) && (|Targets(weights0)| == |weights0| ==> weights == weights0)
  {
    hide Combined, WellFormed, Table, Sum, SumFor, Targets;
    var table: map<Node, Weight> := map[];
    var i := 0;
    EmptyTable(weights0);
    while i < |weights0|
      invariant 0 <= i <= |weights0| && Table(weights0[..i], table)
    {
      var w := EntryFor(table, weights0[i].target);
      TableGrows(weights0, i, table, w);
      table := table[weights0[i].target := CombineWeight(w, weights0[i])];
      i := i + 1;
    }
    assert weights0[..i] == weights0;
    TableKeys(weights0, table);
    if |weights0| == |table| {
      AlreadyCombined(weights0);
      return weights0;
    }
    weights := ListEntries(table, weights0);
    EntriesCombined(weights0, table, weights);
  }

  /** The entries of a hash table, in some order. */
  method ListEntries(table: map<Node, Weight>, ghost ws: seq<Weight>) returns (weights: seq<Weight>)
    requires Table(ws, table)
    ensures Distinct(weights) && Targets(weights) == table.Keys
    ensures forall k :: 0 <= k < |weights| ==> weights[k].target in table && weights[k] == table[weights[k].target]
  {
    hide Table, Targets;
    weights := [];
    var rest := table.Keys;
    assert Targets([]) == {} by {
      NoTargets();
    }
    while rest != {}
      invariant rest <= table.Keys && Distinct(weights) && Targets(weights) == table.Keys - rest
      invariant forall k :: 0 <= k < |weights| ==> weights[k].target in table && weights[k] == table[weights[k].target]
      decreases |rest|
    {
      var t :| t in rest;
      TableEntry(ws, table, t);
      TargetsAppend(weights, table[t]);
      TargetIn(weights, t);
      weights := weights + [table[t]];
      rest := rest - {t};
    }
  }

  lemma NoTargets()
    ensures Targets([]) == {}
  {
  }

  lemma EmptyTable(ws: seq<Weight>)
    ensures Table(ws[..0], map[])
  {
    assert ws[..0] == [];
  }

  lemma TableKeys(ws: seq<Weight>, table: map<Node, Weight>)
    requires Table(ws, table)
    ensures table.Keys == Targets(ws) && |table| == |Targets(ws)|
  {
    assert |table| == |table.Keys|;
  }

  lemma TableEntry(ws: seq<Weight>, table: map<Node, Weight>, t: Node)
    requires Table(ws, table) && t in table
    ensures table[t].target == t
  {
  }

  /** One entry per target (BlockFrequencyInfoImpl.cpp:466-474). */
  method CombineWeights(weights0: seq<Weight>) returns (weights: seq<Weight>)
    requires WellFormed(weights0) && Sum(weights0) < W
    ensures Combined(weights0, weights)
    ensures |weights0| <= 128 ==> Rising(weights)
    ensures |weights0| > 128 && |Targets(weights0)| == |weights0| ==> weights == weights0
  {
    if |weights0| > 128 {
      weights := CombineWeightsByHashing(weights0);
    } else {
      weights := CombineWeightsBySorting(weights0);
    }
  }

  // ---------------------------------------------------------------- normalizing

  const UINT32_MAX: int := B - 1

  /** BlockFrequencyInfoImpl.cpp:475-481 */
  function ShiftRightAndRound(n: uint64, shift: nat): int {
    if shift == 0 then n else n / Pow2(shift) + n / Pow2(shift - 1) % 2
  }

  /** The amount a weight is scaled to: never less than 1. */
  function ScaledAmount(n: uint64, shift: nat): nat {
    var r := ShiftRightAndRound(n, shift);
    if shift == 0 then n else if r < 1 then 1 else r
  }

  lemma RoundedBound(n: nat, h: int, r: int)
    requires h > 0 && r == (n + h) / (2 * h)
    ensures 0 <= r && r * (2 * h) <= n + 2 * h
  {
    assert n + h == r * (2 * h) + (n + h) % (2 * h);
  }

  lemma ScaledBound(n: uint64, shift: nat)
    requires shift > 0
    ensures ScaledAmount(n, shift) >= 1 && ScaledAmount(n, shift) * Pow2(shift) <= n + Pow2(shift)
  {
    var h := Pow2(shift - 1);
    assert Pow2(shift) == 2 * h;
    HalfBit(n, h);
    RoundHalfUp(n, h);
    assert ShiftRightAndRound(n, shift) == (n + h) / (2 * h);
    hide ShiftRightAndRound, Pow2;
    RoundedBound(n, h, ShiftRightAndRound(n, shift));
  }

  lemma BitsAbove(total: uint64)
    requires total > UINT32_MAX
    ensures Bits(total) >= 33
  {
    BitsRange(total);
    Pow2Words();
    if Bits(total) <= 32 {
      Pow2AtMost(Bits(total), 32);
    }
  }

  /** How far the weights are shifted: one digit more than fits the total into 32 bits. */
  function ShiftFor(total: uint64): nat {
    if total > UINT32_MAX then
      BitsAbove(total);
      Bits(total) - 31
    else 0
  }

  lemma ShiftEnough(total: uint64)
    requires total > UINT32_MAX
    ensures ShiftFor(total) >= 2 && ShiftFor(total) == 33 - CountLeadingZeros(total)
    ensures total < 0x8000_0000 * Pow2(ShiftFor(total))
  {
    BitsAbove(total);
    BitsRange(total);
    Pow2Words();
    assert Pow2(32) == 2 * Pow2(31);
    Pow2Sum(31, Bits(total) - 31);
  }

  /** The weights `out` stand for `ws`, all scaled alike, and their total fits into 32 bits. */
  ghost predicate Normalized32(ws: seq<Weight>, out: seq<Weight>, total: nat) {
    && Distinct(out) && Targets(out) == Targets(ws)
    && total == Sum(out) <= UINT32_MAX
    && (forall i :: 0 <= i < |out| ==> out[i].amount >= 1)
    && (forall i, j :: 0 <= i < |out| && 0 <= j < |ws| && out[i].target == ws[j].target ==> out[i].kind == ws[j].kind)
    && (|out| == 1 ==> total == 1)
    && (|out| > 1 ==> exists shift: nat :: FittingShift(Sum(ws), shift) && ScaledAlike(ws, out, shift))
  }

  /** Nothing is cut off if the total fits into 32 bits, else as much as leaves 31 bits of it. */
  ghost predicate FittingShift(total: nat, shift: nat) {
    if total <= UINT32_MAX then shift == 0 else shift >= 2 && Pow2(shift + 30) <= total < Pow2(shift + 31)
  }

  /** `a` is `n` over a power of two, rounded to the nearest number, halves upwards, but never below 1. */
  ghost predicate Nearest(n: nat, a: nat, shift: nat) {
    if shift == 0 then a == n
    else a >= 1 && 2 * n < (2 * a + 1) * Pow2(shift) && (a == 1 || (2 * a - 1) * Pow2(shift) <= 2 * n)
  }

  ghost predicate ScaledAlike(ws: seq<Weight>, out: seq<Weight>, shift: nat) {
    forall i :: 0 <= i < |out| ==> Nearest(SumFor(ws, out[i].target), out[i].amount, shift)
  }

  lemma NearestIs(n: nat, h: int, r: int)
    requires h > 0 && r == (n + h) / (2 * h)
    ensures 0 <= r && 2 * n < (2 * r + 1) * (2 * h) && (2 * r - 1) * (2 * h) <= 2 * n
  {
    var d := 2 * h;
    assert n + h == r * d + (n + h) % d;
    MulSum(2 * r, 1, d);
    MulAssoc(2, r, d);
  }

  /** The amount is rounded half upwards, and at least 1. */
  lemma ScaledNearest(n: uint64, shift: nat)
    requires n > 0
    ensures Nearest(n, ScaledAmount(n, shift), shift)
  {
    if shift > 0 {
      var h := Pow2(shift - 1);
      assert Pow2(shift) == 2 * h;
      HalfBit(n, h);
      RoundHalfUp(n, h);
      var r := ShiftRightAndRound(n, shift);
      assert r == (n + h) / (2 * h);
      hide ShiftRightAndRound, Pow2;
      NearestIs(n, h, r);
      if r < 1 {
        MulAtMost(1, 3, 2 * h);
      }
    }
  }

  lemma ShiftFits(total: uint64)
    ensures FittingShift(total, ShiftFor(total))
  {
    if total > UINT32_MAX {
      BitsAbove(total);
      BitsRange(total);
    }
  }

  lemma ScaledTotalFits(sum: nat, n: nat, total: uint64, p: nat)
    requires p > 0 && sum * p <= total + n * p && total < 0x8000_0000 * p && n <= 0x8000_0000
    ensures sum <= UINT32_MAX
  {
    MulSum(0x8000_0000, n, p);
    FactorLess(sum, 0x8000_0000 + n, p);
  }

  /** The first `i` of the weights `ws` have been scaled. */
  ghost predicate ScaledUpTo(ws: seq<Weight>, out: seq<Weight>, i: nat, shift: nat) {
    && |out| == |ws| && i <= |ws|
    && (forall k :: 0 <= k < i ==> out[k] == ws[k].(amount := out[k].amount) && out[k].amount == ScaledAmount(ws[k].amount, shift))
    && out[i..] == ws[i..]
  }

  lemma ScaleOne(ws: seq<Weight>, out: seq<Weight>, i: nat, shift: nat, a: uint64)
    requires ScaledUpTo(ws, out, i, shift) && i < |ws| && a == ScaledAmount(ws[i].amount, shift)
    ensures ScaledUpTo(ws, out[i := out[i].(amount := a)], i + 1, shift) && out[i] == ws[i]
    ensures Sum(out[i := out[i].(amount := a)][..i + 1]) == Sum(out[..i]) + a
  {
    assert out[i..][0] == ws[i..][0];
    assert out[i + 1..] == out[i..][1..] && ws[i + 1..] == ws[i..][1..];
    var out' := out[i := out[i].(amount := a)];
    assert out'[..i + 1] == out[..i] + [out'[i]];
    SumLast(out[..i], out'[i]);
  }

  lemma BoundGrows(sum: nat, a: nat, total: nat, n: nat, i: nat, p: nat)
    requires sum * p <= total + i * p && a * p <= n + p
    ensures (sum + a) * p <= total + n + (i + 1) * p
  {
    MulSum(sum, a, p);
    MulSum(i, 1, p);
  }

  /** Scales the weights (BlockFrequencyInfoImpl.cpp:512-526). */
  method ScaleWeights(ws: seq<Weight>, shift: nat) returns (out: seq<Weight>, total: nat)
    requires shift > 0 && |ws| <= 0x8000_0000 && Sum(ws) < 0x8000_0000 * Pow2(shift) && Sum(ws) < W
    ensures |out| == |ws| && ScaledUpTo(ws, out, |ws|, shift) && total == Sum(out) <= UINT32_MAX
  {
    hide ScaledUpTo, Sum, Pow2, ScaledAmount, ShiftRightAndRound;
    out, total := ws, 0;
    ghost var p := Pow2(shift);
    var i := 0;
    ScaledNothing(ws, shift);
    while i < |ws|
      invariant 0 <= i <= |ws| == |out| && ScaledUpTo(ws, out, i, shift) && total == Sum(out[..i])
      invariant total * p <= Sum(ws[..i]) + i * p
    {
      StillUnscaled(ws, out, i, shift);
      ScaledBound(out[i].amount, shift);
      var amount := ScaledAmount(out[i].amount, shift);
      SumLast(ws[..i], ws[i]);
      assert ws[..i + 1] == ws[..i] + [ws[i]];
      BoundGrows(total, amount, Sum(ws[..i]), ws[i].amount, i, p);
      PartSum(ws, 0, i + 1);
      ScaledTotalFits(total + amount, i + 1, Sum(ws[..i + 1]), p);
      ScaleOne(ws, out, i, shift, amount);
      out := out[i := out[i].(amount := amount)];
      total := total + amount;
      i := i + 1;
    }
    assert out[..i] == out && ws[..i] == ws;
    ScaledTotalFits(total, |ws|, Sum(ws), p);
  }

  lemma ScaledNothing(ws: seq<Weight>, shift: nat)
    ensures ScaledUpTo(ws, ws, 0, shift) && Sum(ws[..0]) == 0
  {
  }

  lemma StillUnscaled(ws: seq<Weight>, out: seq<Weight>, i: nat, shift: nat)
    requires ScaledUpTo(ws, out, i, shift) && i < |ws|
    ensures |out| == |ws| && out[i] == ws[i]
  {
    assert out[i..][0] == ws[i..][0];
  }

  // ---------------------------------------------------------------- the classes

  class Distribution {
    var weights: seq<Weight>
    var total: uint64
    var didOverflow: bool

    constructor ()
      ensures weights == [] && total == 0 && !didOverflow
    {
      weights, total, didOverflow := [], 0, false;
    }

    /** The total is the exact sum of the weights. */
    ghost predicate Exact()
      reads this
    {
      WellFormed(weights) && total == Sum(weights) && !didOverflow
    }

    /** One more weight (BlockFrequencyInfoImpl.cpp:396-415). */
    method Add(node: Node, amount: uint64, kind: DistType)
      requires amount > 0
      modifies this
      ensures weights == old(weights) + [Weight(kind, node, amount)]
      ensures total == (old(total) + amount) % W && (didOverflow <==> old(didOverflow) || old(total) + amount >= W)
      ensures old(Exact()) && Sum(weights) < W ==> total == Sum(weights) && !didOverflow
      ensures old(Exact()) && Sum(weights) >= W ==> didOverflow && total == Sum(weights) - W
    {
      SumLast(weights, Weight(kind, node, amount));
      var newTotal := (total + amount) % W;
      var isOverflow := newTotal < total;
      didOverflow := didOverflow || isOverflow;
      total := newTotal;
      weights := weights + [Weight(kind, node, amount)];
    }

    /** One weight per target, with a total that fits into 32 bits (BlockFrequencyInfoImpl.cpp:482-528). */
    method Normalize()
      requires Exact() && |Targets(weights)| <= 0x8000_0000
      modifies this
      ensures !didOverflow
      ensures old(weights) == [] ==> weights == [] && total == old(total)
      ensures old(weights) != [] ==> weights != [] && Normalized32(old(weights), weights, total)
      ensures |old(weights)| <= 128 ==> Rising(weights)
    {
      hide Sum, SumFor, Combined, Normalized32, WellFormed, ScaledUpTo, Rising;
      OneRises(weights);
      if weights == [] {
        return;
      }
      ghost var ws := weights;
      if |weights| > 1 {
        weights := CombineWeights(weights);
      } else {
        AloneCombined(weights);
      }
      CombinedSum(ws, weights);
      CombinedSize(ws, weights);
      if |weights| == 1 {
        ghost var only := weights[0];
        assert weights == [only];
        total := 1;
        weights := [weights[0].(amount := 1)];
        OneRises(weights);
        OneNormalized(ws, only, weights);
        return;
      }
      ghost var combined := weights;
      var shift := 0;
      if total > UINT32_MAX {
        ShiftEnough(total);
        shift := 33 - CountLeadingZeros(total);
      }
      if shift == 0 {
        ManyNormalized(ws, combined, combined, total, 0);
        return;
      }
      weights, total := ScaleWeights(weights, shift);
      if Rising(combined) {
        ScaledRises(combined, weights, shift);
      }
      ManyNormalized(ws, combined, weights, total, shift);
    }
  }

  lemma OneRises(ws: seq<Weight>)
    ensures |ws| <= 1 ==> Rising(ws)
  {
  }

  lemma ScaledRises(ws: seq<Weight>, out: seq<Weight>, shift: nat)
    requires ScaledUpTo(ws, out, |ws|, shift) && Rising(ws)
    ensures Rising(out)
  {
    hide ScaledAmount;
  }

  lemma AloneCombined(ws: seq<Weight>)
    requires WellFormed(ws) && |ws| == 1
    ensures Combined(ws, ws)
  {
    DistinctSum(ws, 0);
  }

  lemma CombinedSize(ws: seq<Weight>, out: seq<Weight>)
    requires Combined(ws, out)
    ensures |out| == |Targets(ws)| && (ws != [] ==> out != [])
  {
    DistinctCount(out);
    if ws != [] {
      assert ws[0] in ws && ws[0].target in Targets(ws);
    }
  }

  lemma {:induction false} DistinctCount(ws: seq<Weight>)
    requires Distinct(ws)
    ensures |Targets(ws)| == |ws|
  {
    if ws == [] {
      assert Targets(ws) == {};
    } else {
      var rest, last := ws[..|ws| - 1], ws[|ws| - 1];
      DistinctCount(rest);
      assert ws == rest + [last];
      TargetsAppend(rest, last);
      TargetIn(rest, last.target);
    }
  }

  lemma OneNormalized(ws: seq<Weight>, c: Weight, out: seq<Weight>)
    requires Combined(ws, [c]) && out == [c.(amount := 1)]
    ensures Normalized32(ws, out, 1)
  {
    assert out == [] + [out[0]];
    SumLast([], out[0]);
    SameTargetsOf([c], out);
    hide SumFor;
    forall j | 0 <= j < |ws| && out[0].target == ws[j].target ensures out[0].kind == ws[j].kind {
      assert [c][0].target == ws[j].target;
    }
  }

  lemma SameTargetsOf(a: seq<Weight>, b: seq<Weight>)
    requires |a| == |b| && forall k :: 0 <= k < |a| ==> a[k].target == b[k].target
    ensures Targets(a) == Targets(b)
  {
    forall t ensures t in Targets(a) <==> t in Targets(b) {
      TargetIn(a, t);
      TargetIn(b, t);
      if k :| 0 <= k < |a| && a[k].target == t {
        assert b[k].target == t;
      }
      if k :| 0 <= k < |b| && b[k].target == t {
        assert a[k].target == t;
      }
    }
  }

  lemma ManyNormalized(ws: seq<Weight>, combined: seq<Weight>, out: seq<Weight>, total: uint64, shift: nat)
    requires Combined(ws, combined) && WellFormed(combined) && Sum(ws) < W
    requires if shift == 0 then out == combined && Sum(ws) <= UINT32_MAX else ScaledUpTo(combined, out, |combined|, shift)
    requires |out| > 1 && shift == ShiftFor(Sum(ws)) && total == Sum(out) <= UINT32_MAX
    ensures Normalized32(ws, out, total)
  {
    hide Sum, SumFor, ShiftFor, Targets, ShiftRightAndRound, Nearest;
    SameTargetsOf(combined, out);
    ShiftFits(Sum(ws));
    forall i | 0 <= i < |out|
      ensures out[i].target == combined[i].target && out[i].kind == combined[i].kind
      ensures out[i].amount >= 1 && Nearest(SumFor(ws, out[i].target), out[i].amount, shift)
    {
      SumForAtMost(ws, combined[i].target);
      ScaledNearest(combined[i].amount, shift);
      if shift > 0 {
        ScaledBound(combined[i].amount, shift);
      }
    }
    assert ScaledAlike(ws, out, shift);
  }

  // ---------------------------------------------------------------- dithering

  function Total(portions: seq<nat>): nat {
    if portions == [] then 0 else Total(portions[..|portions| - 1]) + portions[|portions| - 1]
  }

  lemma TotalLast(portions: seq<nat>, p: nat)
    ensures Total(portions + [p]) == Total(portions) + p
  {
    assert (portions + [p])[..|portions|] == portions;
  }

  /** What is left to distribute, and the weights it is left for (BlockFrequencyInfoImpl.cpp:367-394). */
  class DitheringDistributer {
    var remWeight: uint32
    var remMass: uint64

    constructor (total: uint32, mass: uint64)
      ensures remWeight == total && remMass == mass
    {
      remWeight, remMass := total, mass;
    }

    /** The share of one weight, rounded down; the last weight takes all that is left. */
    method TakeMass(weight: uint32) returns (mass: uint64)
      requires 0 < weight <= remWeight
      modifies this
      ensures remWeight == old(remWeight) - weight && mass + remMass == old(remMass)
      ensures old(remMass) * weight >= 0 && mass == old(remMass) * weight / old(remWeight)
      ensures remWeight == 0 ==> remMass == 0
    {
      mass := Scale(remMass, weight, remWeight);
      ScaleAtMost(remMass, weight, remWeight);
      remWeight := remWeight - weight;
      remMass := remMass - mass;
    }
  }

  // ---------------------------------------------------------------- the portions

  lemma NextPortion(mass: nat, left: nat, ws: seq<Weight>, i: nat, p: nat)
    requires i < |ws| && 0 < ws[i].amount <= left && p == mass * ws[i].amount / left
    ensures p <= mass && forall ps: seq<nat> ::
      ps + Portions(mass, left, ws[i..]) == ps + [p] + Portions(mass - p, left - ws[i].amount, ws[i + 1..])
  {
    assert p == Share(mass, ws[i].amount, left);
    assert ws[i..][0] == ws[i] && ws[i..][1..] == ws[i + 1..];
    var rest := Portions(mass - p, left - ws[i].amount, ws[i + 1..]);
    forall ps: seq<nat> ensures ps + Portions(mass, left, ws[i..]) == ps + [p] + rest {
      assert ps + ([p] + rest) == ps + [p] + rest;
    }
  }

  lemma NoPortion(mass: nat, left: nat, ws: seq<Weight>)
    requires ws == []
    ensures forall ps: seq<nat> :: ps + Portions(mass, left, ws) == ps
  {
    forall ps: seq<nat> ensures ps + Portions(mass, left, ws) == ps {
    }
  }

  lemma AllFair(amount: nat, ws: seq<Weight>, out: seq<Weight>, total: nat)
    requires Normalized32(ws, out, total) && out != []
    ensures |Portions(amount, total, out)| == |out|
    ensures forall i: nat :: i < |out| ==> PortionFair(amount, total, out[i].amount, Portions(amount, total, out)[i], i)
  {
    SumFirst(out);
    PortionsConserve(amount, out);
    MulAtMost(0, total, amount);
    assert LeftFair(amount, total, amount, total, 0);
    forall i: nat | i < |out| ensures PortionFair(amount, total, out[i].amount, Portions(amount, total, out)[i], i) {
      PortionsFair(amount, total, amount, out, 0, i);
    }
  }

  /** The share of `weight` in a mass that is left for weights of `left` in all, rounded down. */
  function Share(mass: nat, weight: nat, left: nat): (r: nat)
    requires 0 < weight <= left
    ensures r <= mass && (weight == left ==> r == mass)
  {
    ScaleAtMost(mass, weight, left);
    mass * weight / left
  }

  /** What each weight takes in turn, when `left` is the sum of the weights. */
  function Portions(mass: nat, left: nat, ws: seq<Weight>): (ps: seq<nat>)
    ensures |ps| <= |ws|
  {
    if ws == [] || !(0 < ws[0].amount <= left) then []
    else
      var p := Share(mass, ws[0].amount, left);
      [p] + Portions(mass - p, left - ws[0].amount, ws[1..])
  }

  ghost predicate AllPositive(ws: seq<Weight>) {
    forall i :: 0 <= i < |ws| ==> ws[i].amount >= 1
  }

  lemma {:induction false} SumFirst(ws: seq<Weight>)
    requires ws != []
    ensures Sum(ws) == ws[0].amount + Sum(ws[1..]) >= ws[0].amount
  {
    PartSum(ws, 0, 1);
    if |ws| == 1 {
      assert ws[..0] == [] && ws[1..] == [];
    } else {
      var n := |ws| - 1;
      SumFirst(ws[..n]);
      assert ws[1..][..n - 1] == ws[..n][1..] && ws[1..][n - 1] == ws[n];
    }
  }

  /** All of the mass is taken, whatever the rounding. */
  lemma {:induction false} PortionsConserve(mass: nat, ws: seq<Weight>)
    requires ws != [] && AllPositive(ws)
    ensures |Portions(mass, Sum(ws), ws)| == |ws| && Total(Portions(mass, Sum(ws), ws)) == mass
    decreases |ws|
  {
    SumFirst(ws);
    var p, rest := Share(mass, ws[0].amount, Sum(ws)), ws[1..];
    if rest == [] {
      assert Sum(rest) == 0;
      assert Portions(mass - p, 0, rest) == [];
      TotalFirst(p, []);
    } else {
      PortionsConserve(mass - p, rest);
      TotalFirst(p, Portions(mass - p, Sum(rest), rest));
    }
  }

  lemma {:induction false} TotalFirst(p: nat, ps: seq<nat>)
    ensures Total([p] + ps) == p + Total(ps)
    decreases |ps|
  {
    if ps == [] {
      assert [p][..0] == [] && [p] + [] == [p];
    } else {
      var n := |ps| - 1;
      TotalFirst(p, ps[..n]);
      assert ([p] + ps)[..n + 1] == [p] + ps[..n];
    }
  }

  /** The mass left for weights of `left` is no less than they deserve, and at most `k` units more. */
  ghost predicate LeftFair(mass0: nat, total: nat, mass: nat, left: nat, k: nat) {
    mass0 * left <= mass * total <= mass0 * left + k * total
  }

  /** Portion `p` of `weight` is less than one unit below its exact share, and at most `k` units above it. */
  ghost predicate PortionFair(mass0: nat, total: nat, weight: nat, p: nat, k: nat) {
    mass0 * weight - total < p * total <= mass0 * weight + k * total
  }

  /** Dithering: what one weight loses by rounding goes to those that follow. */
  lemma {:induction false} PortionsFair(mass0: nat, total: nat, mass: nat, ws: seq<Weight>, k: nat, i: nat)
    requires i < |ws| && AllPositive(ws) && LeftFair(mass0, total, mass, Sum(ws), k) && total > 0
    ensures |Portions(mass, Sum(ws), ws)| == |ws|
    ensures PortionFair(mass0, total, ws[i].amount, Portions(mass, Sum(ws), ws)[i], k + i)
    decreases |ws|
  {
    hide LeftFair, PortionFair;
    SumFirst(ws);
    PortionsConserve(mass, ws);
    var w, left := ws[0].amount, Sum(ws);
    OneShareFair(mass0, total, mass, w, left, k);
    if i > 0 {
      PortionsFair(mass0, total, mass - Share(mass, w, left), ws[1..], k + 1, i - 1);
    }
  }

  lemma OneShareFair(mass0: nat, total: nat, mass: nat, w: nat, left: nat, k: nat)
    requires 0 < w <= left && LeftFair(mass0, total, mass, left, k) && total > 0
    ensures PortionFair(mass0, total, w, Share(mass, w, left), k)
    ensures LeftFair(mass0, total, mass - Share(mass, w, left), left - w, k + 1)
  {
    var p := Share(mass, w, left);
    MulAtMost(0, mass, w);
    DivMod(mass * w, left);
    assert mass * w - left < p * left <= mass * w;
    hide *;
    ShareBounds(mass0, total, mass, w, left, k, p);
    RestBounds(mass0, total, mass, w, left, k, p);
  }

  lemma Swap(a: int, b: int, c: int)
    ensures a * b * c == a * c * b
  {
    MulAssoc(a, b, c);
    MulAssoc(a, c, b);
  }

  lemma TimesTotal(p: int, r: int, x: int, w: int, slack: int, t: nat)
    requires p * r <= x * w + slack * r
    ensures p * t * r <= x * t * w + slack * t * r
  {
    Swap(p, r, t);
    Swap(x, w, t);
    Swap(slack, r, t);
    MulAtMost(p * r, x * w + slack * r, t);
    MulSum(x * w, slack * r, t);
  }

  lemma TimesTotalBelow(p: int, r: int, x: int, w: int, slack: int, t: nat)
    requires x * w <= p * r + slack * r
    ensures x * t * w <= p * t * r + slack * t * r
  {
    Swap(p, r, t);
    Swap(x, w, t);
    Swap(slack, r, t);
    MulAtMost(x * w, p * r + slack * r, t);
    MulSum(p * r, slack * r, t);
  }

  lemma TimesWeight(m: nat, r: nat, x: nat, t: nat, kt: nat, w: nat)
    requires m * r <= x * t <= m * r + kt && w <= r
    ensures m * w * r <= x * t * w <= m * w * r + kt * r
  {
    Swap(m, r, w);
    MulAtMost(m * r, x * t, w);
    MulAtMost(x * t, m * r + kt, w);
    MulSum(m * r, kt, w);
    MulAtMost(w, r, kt);
  }

  lemma NotAbove(a: int, b: int, r: int)
    requires a * r <= b * r && r > 0
    ensures a <= b
  {
    if b < a {
      MulAtMost(b + 1, a, r);
      MulSum(b, 1, r);
    }
  }

  lemma ShareBounds(m: nat, t: nat, x: nat, w: nat, r: nat, k: nat, p: nat)
    requires 0 < w <= r && m * r <= x * t <= m * r + k * t && x * w - r < p * r <= x * w && t > 0
    ensures m * w - t < p * t <= m * w + k * t
  {
    TimesTotal(p, r, x, w, 0, t);
    TimesWeight(m, r, x, t, k * t, w);
    MulSum(m * w, k * t, r);
    NotAbove(p * t, m * w + k * t, r);
    BelowByLess(m, t, x, w, r, p);
  }

  lemma BelowByLess(m: nat, t: nat, x: nat, w: nat, r: nat, p: nat)
    requires 0 < w <= r && m * r <= x * t && x * w - r < p * r && t > 0
    ensures m * w - t < p * t
  {
    Swap(m, r, w);
    MulAtMost(m * r, x * t, w);
    Swap(p, r, t);
    Swap(x, w, t);
    MulAtMost(x * w - r + 1, p * r, t);
    MulSum(x * w, r - 1, t);
    MulSum(r, 1, t);
    MulSum(m * w, t, r);
    FactorLess(m * w - t, p * t, r);
  }

  lemma RestBounds(m: nat, t: nat, x: nat, w: nat, r: nat, k: nat, p: nat)
    requires 0 < w <= r && m * r <= x * t <= m * r + k * t && x * w - r < p * r <= x * w && t > 0
    ensures m * (r - w) <= (x - p) * t <= m * (r - w) + (k + 1) * t
  {
    var v, y := r - w, x - p;
    assert x * v <= y * r <= x * v + r by {
      MulSum(x, p, r);
      MulSum(r, w, x);
      assert v * x == x * v && r * x == x * r && w * x == x * w;
    }
    TimesWeight(m, r, x, t, k * t, v);
    RestLower(m, t, x, v, r, y);
    RestUpper(m, t, x, v, r, y, k);
  }

  lemma RestLower(m: nat, t: nat, x: nat, v: nat, r: nat, y: int)
    requires m * v * r <= x * t * v && x * v <= y * r && r > 0
    ensures m * v <= y * t
  {
    TimesTotalBelow(y, r, x, v, 0, t);
    NotAbove(m * v, y * t, r);
  }

  lemma RestUpper(m: nat, t: nat, x: nat, v: nat, r: nat, y: int, k: nat)
    requires x * t * v <= m * v * r + k * t * r && y * r <= x * v + r && r > 0
    ensures y * t <= m * v + (k + 1) * t
  {
    TimesTotal(y, r, x, v, 1, t);
    MulSum(k, 1, t);
    MulSum(k * t, t, r);
    MulSum(m * v, (k + 1) * t, r);
    NotAbove(y * t, m * v + (k + 1) * t, r);
  }

  /** Adds masses, saturating (BlockFrequencyInfoImpl.h:742-749). */
  function Plus(a: uint64, b: uint64): uint64 {
    if a + b >= W then W - 1 else a + b
  }

  /** Where mass goes: the blocks, the back edges of the loop, and the exits of the loop. */
  datatype Held = Held(mass: map<Node, uint64>, backedge: uint64, exits: seq<(Node, uint64)>)

  function MassAt(mass: map<Node, uint64>, t: Node): uint64 {
    if t in mass then mass[t] else 0
  }

  function Deposit(h: Held, w: Weight, portion: uint64): Held {
    match w.kind
    case Local => h.(mass := h.mass[w.target := Plus(MassAt(h.mass, w.target), portion)])
    case Backedge => h.(backedge := Plus(h.backedge, portion))
    case Exit => h.(exits := h.exits + [(w.target, portion)])
  }

  function Deposits(h: Held, ws: seq<Weight>, portions: seq<uint64>): Held
    requires |ws| == |portions|
  {
    if ws == [] then h
    else Deposit(Deposits(h, ws[..|ws| - 1], portions[..|ws| - 1]), ws[|ws| - 1], portions[|ws| - 1])
  }

  // ---------------------------------------------------------------- what is deposited, by kinds

  function Capped(x: nat): uint64 {
    if x >= W then W - 1 else x
  }

  /** The portions of the weights of one kind. */
  function KindTotal(ws: seq<Weight>, portions: seq<uint64>, kind: DistType): nat
    requires |ws| == |portions|
  {
    if ws == [] then 0
    else
      var n := |ws| - 1;
      KindTotal(ws[..n], portions[..n], kind) + if ws[n].kind == kind then portions[n] else 0
  }

  /** The portions of the local edges to block `t`. */
  function LocalTotal(ws: seq<Weight>, portions: seq<uint64>, t: Node): nat
    requires |ws| == |portions|
  {
    if ws == [] then 0
    else
      var n := |ws| - 1;
      LocalTotal(ws[..n], portions[..n], t) + if ws[n].kind == Local && ws[n].target == t then portions[n] else 0
  }

  /** The targets of the exits with their portions. */
  function ExitPairs(ws: seq<Weight>, portions: seq<uint64>): seq<(Node, uint64)>
    requires |ws| == |portions|
  {
    if ws == [] then []
    else
      var n := |ws| - 1;
      ExitPairs(ws[..n], portions[..n]) + if ws[n].kind == Exit then [(ws[n].target, portions[n])] else []
  }

  ghost predicate LocalTarget(ws: seq<Weight>, t: Node) {
    exists i :: 0 <= i < |ws| && ws[i].kind == Local && ws[i].target == t
  }

  lemma LocalTargetLast(ws: seq<Weight>, t: Node)
    requires ws != []
    ensures var n := |ws| - 1;
            LocalTarget(ws, t) <==> LocalTarget(ws[..n], t) || (ws[n].kind == Local && ws[n].target == t)
  {
    var n := |ws| - 1;
    if i :| 0 <= i < n && ws[i].kind == Local && ws[i].target == t {
      assert ws[..n][i] == ws[i];
    }
    if i :| 0 <= i < n && ws[..n][i].kind == Local && ws[..n][i].target == t {
      assert ws[..n][i] == ws[i];
    }
  }

  lemma {:induction false} DepositedByKind(h: Held, ws: seq<Weight>, portions: seq<uint64>)
    requires |ws| == |portions|
    ensures Deposits(h, ws, portions).backedge == Capped(h.backedge + KindTotal(ws, portions, Backedge))
    ensures Deposits(h, ws, portions).exits == h.exits + ExitPairs(ws, portions)
    decreases |ws|
  {
    if ws == [] {
      assert h.exits + [] == h.exits;
    } else {
      DepositedByKind(h, ws[..|ws| - 1], portions[..|ws| - 1]);
    }
  }

  lemma {:induction false} DepositedAt(h: Held, ws: seq<Weight>, portions: seq<uint64>, t: Node)
    requires |ws| == |portions|
    ensures MassAt(Deposits(h, ws, portions).mass, t) == Capped(MassAt(h.mass, t) + LocalTotal(ws, portions, t))
    ensures t in Deposits(h, ws, portions).mass <==> t in h.mass || LocalTarget(ws, t)
    decreases |ws|
  {
    if ws != [] {
      DepositedAt(h, ws[..|ws| - 1], portions[..|ws| - 1], t);
      LocalTargetLast(ws, t);
    }
  }

  /** Every portion is of one kind. */
  lemma {:induction false} KindsTotal(ws: seq<Weight>, portions: seq<uint64>)
    requires |ws| == |portions|
    ensures KindTotal(ws, portions, Local) + KindTotal(ws, portions, Backedge) + KindTotal(ws, portions, Exit) == Total(portions)
    decreases |ws|
  {
    if ws != [] {
      KindsTotal(ws[..|ws| - 1], portions[..|ws| - 1]);
    }
  }

  /** With one weight per target, a block is given the portion of its weight. */
  lemma {:induction false} LocalPortion(ws: seq<Weight>, portions: seq<uint64>, i: nat)
    requires |ws| == |portions| && Distinct(ws) && i < |ws| && ws[i].kind == Local
    ensures LocalTotal(ws, portions, ws[i].target) == portions[i]
    decreases |ws|
  {
    var n := |ws| - 1;
    if i == n {
      NoLocalPortion(ws[..n], portions[..n], ws[n].target);
    } else {
      LocalPortion(ws[..n], portions[..n], i);
    }
  }

  lemma {:induction false} NoLocalPortion(ws: seq<Weight>, portions: seq<uint64>, t: Node)
    requires |ws| == |portions| && forall i :: 0 <= i < |ws| ==> ws[i].target != t
    ensures LocalTotal(ws, portions, t) == 0
    decreases |ws|
  {
    if ws != [] {
      NoLocalPortion(ws[..|ws| - 1], portions[..|ws| - 1], t);
    }
  }

  /** What the blocks have more than before, block by block. */
  function Gained(ws: seq<Weight>, before: map<Node, uint64>, after: map<Node, uint64>): int {
    if ws == [] then 0
    else
      var w := ws[|ws| - 1];
      Gained(ws[..|ws| - 1], before, after) + if w.kind == Local then MassAt(after, w.target) - MassAt(before, w.target) else 0
  }

  function ExitTotal(exits: seq<(Node, uint64)>): nat {
    if exits == [] then 0 else ExitTotal(exits[..|exits| - 1]) + exits[|exits| - 1].1
  }

  lemma {:induction false} ExitsAre(ws: seq<Weight>, portions: seq<uint64>)
    requires |ws| == |portions|
    ensures ExitTotal(ExitPairs(ws, portions)) == KindTotal(ws, portions, Exit)
    decreases |ws|
  {
    if ws != [] {
      var n := |ws| - 1;
      ExitsAre(ws[..n], portions[..n]);
      if ws[n].kind == Exit {
        ExitTotalLast(ExitPairs(ws[..n], portions[..n]), (ws[n].target, portions[n]));
      } else {
        assert ExitPairs(ws, portions) == ExitPairs(ws[..n], portions[..n]);
      }
    }
  }

  lemma ExitTotalLast(exits: seq<(Node, uint64)>, e: (Node, uint64))
    ensures ExitTotal(exits + [e]) == ExitTotal(exits) + e.1
  {
    assert (exits + [e])[..|exits|] == exits;
  }

  /** No block and not the back edge has had so much that more was cut off. */
  ghost predicate NothingCut(h: Held, ws: seq<Weight>, portions: seq<uint64>)
    requires |ws| == |portions|
  {
    && h.backedge + KindTotal(ws, portions, Backedge) < W
    && forall i :: 0 <= i < |ws| ==> MassAt(h.mass, ws[i].target) + LocalTotal(ws, portions, ws[i].target) < W
  }

  lemma {:induction false} BlocksGain(ws: seq<Weight>, portions: seq<uint64>, before: map<Node, uint64>, after: map<Node, uint64>)
    requires |ws| == |portions|
    requires forall i :: 0 <= i < |ws| && ws[i].kind == Local ==> MassAt(after, ws[i].target) == MassAt(before, ws[i].target) + portions[i]
    ensures Gained(ws, before, after) == KindTotal(ws, portions, Local)
    decreases |ws|
  {
    if ws != [] {
      BlocksGain(ws[..|ws| - 1], portions[..|ws| - 1], before, after);
    }
  }

  /** Unless something is cut off, blocks, back edge and exits together have as much more as was to distribute. */
  lemma NothingLost(h: Held, h': Held, ws: seq<Weight>, portions: seq<uint64>, amount: nat)
    requires |ws| == |portions| && Distinct(ws) && Total(portions) == amount && NothingCut(h, ws, portions)
    requires h'.backedge == Capped(h.backedge + KindTotal(ws, portions, Backedge)) && h'.exits == h.exits + ExitPairs(ws, portions)
    requires forall t :: MassAt(h'.mass, t) == Capped(MassAt(h.mass, t) + LocalTotal(ws, portions, t))
    ensures Gained(ws, h.mass, h'.mass) + (h'.backedge - h.backedge) + ExitTotal(h'.exits[|h.exits|..]) == amount
  {
    forall i | 0 <= i < |ws| && ws[i].kind == Local
      ensures MassAt(h'.mass, ws[i].target) == MassAt(h.mass, ws[i].target) + portions[i]
    {
      LocalPortion(ws, portions, i);
    }
    BlocksGain(ws, portions, h.mass, h'.mass);
    KindsTotal(ws, portions);
    ExitsAre(ws, portions);
    assert h'.exits[|h.exits|..] == ExitPairs(ws, portions);
  }

  lemma AllDeposited(h: Held, h': Held, ws: seq<Weight>, portions: seq<uint64>)
    requires |ws| == |portions| && h' == Deposits(h, ws, portions)
    ensures h'.backedge == Capped(h.backedge + KindTotal(ws, portions, Backedge))
    ensures h'.exits == h.exits + ExitPairs(ws, portions)
    ensures forall t :: MassAt(h'.mass, t) == Capped(MassAt(h.mass, t) + LocalTotal(ws, portions, t))
    ensures forall t :: t in h'.mass <==> t in h.mass || LocalTarget(ws, t)
  {
    hide Deposits, KindTotal, ExitPairs, LocalTotal, LocalTarget, Capped, MassAt;
    DepositedByKind(h, ws, portions);
    forall t: Node
      ensures MassAt(h'.mass, t) == Capped(MassAt(h.mass, t) + LocalTotal(ws, portions, t))
      ensures t in h'.mass <==> t in h.mass || LocalTarget(ws, t)
    {
      DepositedAt(h, ws, portions, t);
    }
  }

  /** The masses of the blocks of a loop. */
  class LoopMasses {
    var mass: map<Node, uint64>
    var backedgeMass: uint64
    var exits: seq<(Node, uint64)>

    constructor ()
      ensures Now() == Held(map[], 0, [])
    {
      mass, backedgeMass, exits := map[], 0, [];
    }

    ghost function Now(): Held
      reads this
    {
      Held(mass, backedgeMass, exits)
    }

    /** Distributes `amount` among the successors as laid out in `dist` (BlockFrequencyInfoImpl.cpp:662-708). */
    method DistributeMass(dist: Distribution, amount: uint64) returns (ghost portions: seq<uint64>)
      requires dist.Exact() && |Targets(dist.weights)| <= 0x8000_0000
      modifies this, dist
      ensures |portions| == |dist.weights| && (|old(dist.weights)| <= 128 ==> Rising(dist.weights))
      ensures backedgeMass == Capped(old(backedgeMass) + KindTotal(dist.weights, portions, Backedge))
      ensures exits == old(exits) + ExitPairs(dist.weights, portions)
      ensures forall t :: MassAt(mass, t) == Capped(MassAt(old(mass), t) + LocalTotal(dist.weights, portions, t))
      ensures forall t :: t in mass <==> t in old(mass) || LocalTarget(dist.weights, t)
      ensures old(dist.weights) != [] && NothingCut(old(Now()), dist.weights, portions) ==>
        Gained(dist.weights, old(mass), mass) + (backedgeMass - old(backedgeMass)) + ExitTotal(exits[|old(exits)|..]) == amount
      ensures old(dist.weights) != [] ==> Normalized32(old(dist.weights), dist.weights, dist.total) && Total(portions) == amount
      ensures old(dist.weights) != [] ==> portions == Portions(amount, dist.total, dist.weights)
      ensures old(dist.weights) != [] ==>
        forall i: nat :: i < |portions| ==> PortionFair(amount, dist.total, dist.weights[i].amount, portions[i], i)
    {
      hide Normalized32, Sum, WellFormed, Portions, PortionFair, Share, Shared, Total, Deposits;
      hide Rising, KindTotal, LocalTotal, ExitPairs, LocalTarget, NothingCut, Gained, ExitTotal, Capped, Distinct;
      dist.Normalize();
      portions := [];
      NothingDeposited(Now());
      if dist.weights == [] {
        AllDeposited(Now(), Now(), [], []);
        return;
      }
      SharingStarts(amount, old(dist.weights), dist.weights, dist.total);
      var d := new DitheringDistributer(dist.total, amount);
      var i := 0;
      while i < |dist.weights|
        invariant 0 <= i <= |dist.weights| && |portions| == i && fresh(d)
        invariant dist.weights != [] && Normalized32(old(dist.weights), dist.weights, dist.total)
        invariant Shared(amount, dist.weights, dist.total, i, portions, d.remWeight, d.remMass)
        invariant Now() == Deposits(old(Now()), dist.weights[..i], portions)
        modifies this, d
      {
        var w := dist.weights[i];
        RoomToShare(amount, old(dist.weights), dist.weights, dist.total, i, portions, d.remWeight, d.remMass);
        ghost var remWeight, remMass, before := d.remWeight, d.remMass, portions;
        var taken := d.TakeMass(w.amount);
        OneShared(amount, old(dist.weights), dist.weights, dist.total, i, before, remWeight, remMass, taken);
        portions := portions + [taken];
        NextDeposit(old(Now()), dist.weights, before, i, taken);
        if w.kind == Local {
          mass := mass[w.target := Plus(MassAt(mass, w.target), taken)];
        } else if w.kind == Backedge {
          backedgeMass := Plus(backedgeMass, taken);
        } else {
          exits := exits + [(w.target, taken)];
        }
        i := i + 1;
      }
      assert dist.weights[..i] == dist.weights;
      AllShared(amount, old(dist.weights), dist.weights, dist.total, portions, d.remWeight, d.remMass);
      AllFair(amount, old(dist.weights), dist.weights, dist.total);
      AllDeposited(old(Now()), Now(), dist.weights, portions);
      OneEach(old(dist.weights), dist.weights, dist.total);
      if NothingCut(old(Now()), dist.weights, portions) {
        NothingLost(old(Now()), Now(), dist.weights, portions, amount);
      }
    }
  }

  lemma NothingDeposited(h: Held)
    ensures Deposits(h, [], []) == h
  {
  }

  /** The first `i` weights have had their portions. */
  ghost predicate Shared(amount: nat, ws: seq<Weight>, total: nat, i: nat, portions: seq<nat>, remWeight: nat, remMass: nat) {
    && i == |portions| <= |ws| && Sum(ws[..i]) >= 0 && remWeight == total - Sum(ws[..i])
    && Total(portions) + remMass == amount && (i > 0 && remWeight == 0 ==> remMass == 0)
    && portions + Portions(remMass, remWeight, ws[i..]) == Portions(amount, total, ws)
  }

  lemma SharingStarts(amount: nat, ws0: seq<Weight>, ws: seq<Weight>, total: nat)
    requires Normalized32(ws0, ws, total)
    ensures total < B && Shared(amount, ws, total, 0, [], total, amount)
  {
    NormalizedTotal(ws0, ws, total);
    assert ws[0..] == ws;
  }

  lemma RoomToShare(amount: nat, ws0: seq<Weight>, ws: seq<Weight>, total: nat, i: nat, portions: seq<nat>, remWeight: nat, remMass: nat)
    requires Normalized32(ws0, ws, total) && Shared(amount, ws, total, i, portions, remWeight, remMass) && i < |ws|
    ensures 0 < ws[i].amount <= remWeight
  {
    hide Normalized32;
    NextWeight(ws0, ws, total, i);
  }

  lemma OneShared(amount: nat, ws0: seq<Weight>, ws: seq<Weight>, total: nat, i: nat, portions: seq<nat>,
                  remWeight: nat, remMass: nat, p: nat)
    requires Normalized32(ws0, ws, total) && Shared(amount, ws, total, i, portions, remWeight, remMass) && i < |ws|
    requires 0 < ws[i].amount <= remWeight && p == remMass * ws[i].amount / remWeight
    ensures p <= remMass
    ensures Shared(amount, ws, total, i + 1, portions + [p], remWeight - ws[i].amount, remMass - p)
  {
    hide Normalized32, Portions, Sum;
    NextWeight(ws0, ws, total, i);
    NextPortion(remMass, remWeight, ws, i, p);
    TotalLast(portions, p);
    if remWeight == ws[i].amount {
      ScaleAtMost(remMass, ws[i].amount, remWeight);
    }
  }

  lemma AllShared(amount: nat, ws0: seq<Weight>, ws: seq<Weight>, total: nat, portions: seq<nat>, remWeight: nat, remMass: nat)
    requires Normalized32(ws0, ws, total) && ws != [] && Shared(amount, ws, total, |ws|, portions, remWeight, remMass)
    ensures Total(portions) == amount && portions == Portions(amount, total, ws)
  {
    NormalizedTotal(ws0, ws, total);
    assert ws[..|ws|] == ws;
    NoPortion(remMass, remWeight, ws[|ws|..]);
  }

  lemma OneEach(ws: seq<Weight>, out: seq<Weight>, total: nat)
    requires Normalized32(ws, out, total)
    ensures Distinct(out)
  {
  }

  lemma NormalizedTotal(ws: seq<Weight>, out: seq<Weight>, total: nat)
    requires Normalized32(ws, out, total)
    ensures total == Sum(out) < B && Sum(out[..0]) == 0
  {
    assert out[..0] == [];
  }

  lemma NormalizedAmount(ws: seq<Weight>, out: seq<Weight>, total: nat, i: nat)
    requires Normalized32(ws, out, total) && i < |out|
    ensures out[i].amount >= 1
  {
  }

  lemma NextWeight(ws: seq<Weight>, out: seq<Weight>, total: nat, i: nat)
    requires Normalized32(ws, out, total) && i < |out|
    ensures Sum(out[..i + 1]) == Sum(out[..i]) + out[i].amount <= total == Sum(out) < B && out[i].amount > 0
    ensures i + 1 == |out| ==> Sum(out[..i + 1]) == total
  {
    hide *;
    NormalizedTotal(ws, out, total);
    NormalizedAmount(ws, out, total, i);
    assert out[..i + 1] == out[..i] + [out[i]];
    SumLast(out[..i], out[i]);
    PartSum(out, 0, i + 1);
    assert out[..|out|] == out;
  }

  lemma NextDeposit(h: Held, ws: seq<Weight>, portions: seq<uint64>, i: nat, p: uint64)
    requires |portions| == i < |ws|
    ensures Deposits(h, ws[..i + 1], portions + [p]) == Deposit(Deposits(h, ws[..i], portions), ws[i], p)
  {
    assert ws[..i + 1][..i] == ws[..i] && (portions + [p])[..i] == portions;
  }
}
