/**
 The theory behind both depth-first walks of lib/Analysis/LazyCallGraph.cpp, over plain values.  A
 `Walk` is the state of a walk at one moment; `WalkInv` is what every step of it keeps.  The class in
 LazyCallGraph.dfy performs the steps.
 */
module TarjanWalk {
  import opened Digraph

  /**
   `num` and `low` are the DFSNumber and LowLink fields of the nodes: 0 for a node not visited yet, -1
   for a node inside an SCC.  `path` is the chain of nodes being visited with, in `idx`, the next edge
   of each; `pending` holds the nodes whose edges are exhausted but whose SCC is not formed yet.
   `par` is the node from which each node was first visited.
   */
  datatype Walk = Walk(
    num: map<Node, int>, low: map<Node, int>,
    path: seq<Node>, idx: seq<nat>, pending: seq<Node>, par: map<Node, Node>)

  /**
   A walk of the nodes `dom` of `g`.  Nothing leads out of `fin`, the nodes that are done with.
   */
  datatype Area = Area(g: Graph, dom: set<Node>, fin: set<Node>)

  /** Visited and not in an SCC yet. */
  ghost predicate Active(a: Area, w: Walk, v: Node) {
    v in a.dom && v in w.num && w.num[v] > 0
  }

  ghost predicate Shape(a: Area, w: Walk) {
    && Closed(a.g, a.dom) && Closed(a.g, a.fin) && a.fin <= a.dom <= a.g.Keys
    && a.dom <= w.num.Keys && a.dom <= w.low.Keys
    && |w.idx| == |w.path|
    && (forall k :: 0 <= k < |w.path| ==> Active(a, w, w.path[k]) && w.path[k] !in w.pending && w.idx[k] <= |a.g[w.path[k]]|)
    && (forall k :: 0 <= k < |w.pending| ==> Active(a, w, w.pending[k]))
    && (forall i, j :: 0 <= i < j < |w.pending| ==> w.pending[i] != w.pending[j])
    && (forall v {:trigger Active(a, w, v)} :: Active(a, w, v) <==> v in w.path || v in w.pending)
    && (forall v :: v in a.fin ==> w.num[v] < 0)
  }

  ghost predicate Numbers(a: Area, w: Walk, next: int)
    requires Shape(a, w)
  {
    && next >= 1
    && (forall v :: Active(a, w, v) ==> w.num[v] < next)
    && (forall u, v :: Active(a, w, u) && Active(a, w, v) && w.num[u] == w.num[v] ==> u == v)
    && (forall i, j :: 0 <= i < j < |w.path| ==> w.num[w.path[i]] < w.num[w.path[j]])
    && (w.path == [] ==> w.pending == [])
    && (w.path != [] ==> forall v :: Active(a, w, v) ==> w.num[w.path[0]] <= w.num[v])
  }

  /** What an edge from `v` to `x` that has been looked at guarantees. */
  ghost predicate Covered(a: Area, w: Walk, v: Node, x: Node)
    requires Shape(a, w) && Active(a, w, v)
  {
    x in a.fin ||
    (Active(a, w, x) && w.low[v] <= w.num[x] && (w.num[x] > w.num[v] ==> x in w.pending && w.low[v] <= w.low[x]))
  }

  ghost predicate Scanned(a: Area, w: Walk)
    requires Shape(a, w)
  {
    && (forall v, x {:trigger Covered(a, w, v, x)} :: v in w.pending && Edge(a.g, v, x) ==> Covered(a, w, v, x))
    && (forall k, j {:trigger Covered(a, w, w.path[k], a.g[w.path[k]][j])} :: 0 <= k < |w.path| && 0 <= j < w.idx[k] ==> Covered(a, w, w.path[k], a.g[w.path[k]][j]))
  }

  /** The low link of `v` is the number of a node that `v` reaches. */
  ghost predicate LowOf(a: Area, w: Walk, v: Node)
    requires Shape(a, w) && Active(a, w, v)
  {
    1 <= w.low[v] <= w.num[v] && exists u :: Active(a, w, u) && w.num[u] == w.low[v] && Reach(a.g, v, u)
  }

  ghost predicate Lows(a: Area, w: Walk)
    requires Shape(a, w)
  {
    && (forall v {:trigger LowOf(a, w, v)} :: Active(a, w, v) ==> LowOf(a, w, v))
    && PendingLows(a, w)
  }

  ghost predicate PendingLows(a: Area, w: Walk)
    requires Shape(a, w)
  {
    forall v :: v in w.pending ==> w.low[v] < w.num[v]
  }

  /** The parent of `v` was visited before `v`, but no earlier than any path node visited before `v`. */
  ghost predicate ParentOf(a: Area, w: Walk, v: Node)
    requires Shape(a, w) && Active(a, w, v)
  {
    && v in w.par && Active(a, w, w.par[v]) && Edge(a.g, w.par[v], v)
    && w.num[w.par[v]] < w.num[v]
    && forall k :: 0 <= k < |w.path| && w.num[w.path[k]] < w.num[v] ==> w.num[w.path[k]] <= w.num[w.par[v]]
  }

  ghost predicate Tree(a: Area, w: Walk)
    requires Shape(a, w) && w.path != []
  {
    forall v {:trigger ParentOf(a, w, v)} :: Active(a, w, v) && v != w.path[0] ==> ParentOf(a, w, v)
  }

  /** The pending nodes numbered after a path node are the last ones of the pending stack. */
  ghost predicate Suffixes(a: Area, w: Walk)
    requires Shape(a, w)
  {
    forall k, i, j :: 0 <= k < |w.path| && 0 <= i < j < |w.pending| && w.num[w.pending[i]] > w.num[w.path[k]]
      ==> w.num[w.pending[j]] > w.num[w.path[k]]
  }

  ghost predicate WalkInv(a: Area, w: Walk, next: int) {
    Shape(a, w) && Numbers(a, w, next) && Scanned(a, w) && Lows(a, w) && (w.path != [] ==> Tree(a, w)) && Suffixes(a, w)
  }

  function Top(w: Walk): Node
    requires w.path != []
  {
    w.path[|w.path| - 1]
  }

  /** Parents do not change while the path shrinks from the top. */
  lemma TreeShrinks(a: Area, w: Walk, w': Walk)
    requires Shape(a, w) && w.path != [] && Tree(a, w) && Shape(a, w')
    requires w'.path != [] && w'.path <= w.path && w'.num == w.num && w'.par == w.par
    ensures Tree(a, w')
  {
    forall v | Active(a, w', v) && v != w'.path[0] ensures ParentOf(a, w', v) {
      assert ParentOf(a, w, v);
    }
  }

  /** A walk under which no node is active is valid, whatever the numbers are. */
  lemma NothingActive(a: Area, w: Walk, next: int)
    requires Closed(a.g, a.dom) && Closed(a.g, a.fin) && a.fin <= a.dom <= a.g.Keys
    requires a.dom <= w.num.Keys && a.dom <= w.low.Keys && forall v :: v in a.fin ==> w.num[v] < 0
    requires w.path == [] && w.idx == [] && w.pending == [] && next >= 1 && forall v :: !Active(a, w, v)
    ensures WalkInv(a, w, next)
  {
    hide Closed;
  }

  /** Numbers stay right while nodes leave the walk and the path shrinks from the top. */
  lemma NumbersKept(a: Area, w: Walk, a': Area, w': Walk, next: int)
    requires Shape(a, w) && Numbers(a, w, next) && Shape(a', w') && w'.path <= w.path
    requires forall v :: Active(a', w', v) ==> Active(a, w, v) && w'.num[v] == w.num[v]
    requires w'.path == [] ==> w'.pending == []
    ensures Numbers(a', w', next)
  {
    assert forall k :: 0 <= k < |w'.path| ==> Active(a', w', w'.path[k]) && w'.path[k] == w.path[k];
    hide Shape, Active;
  }

  lemma SuffixesKept(a: Area, w: Walk, a': Area, w': Walk)
    requires Shape(a, w) && Suffixes(a, w) && Shape(a', w') && w'.path <= w.path && w'.pending <= w.pending
    requires forall v :: Active(a', w', v) ==> Active(a, w, v) && w'.num[v] == w.num[v]
    ensures Suffixes(a', w')
  {
    assert forall k :: 0 <= k < |w'.path| ==> Active(a', w', w'.path[k]) && w'.path[k] == w.path[k];
    assert forall k :: 0 <= k < |w'.pending| ==> Active(a', w', w'.pending[k]) && w'.pending[k] == w.pending[k];
    hide Shape, Active;
  }

  // ---------------------------------------------------------------- the steps of a walk

  function Started(w: Walk, r: Node): Walk {
    w.(num := w.num[r := 1], low := w.low[r := 1], path := [r], idx := [0])
  }

  lemma StartKeeps(a: Area, w: Walk, next: int, r: Node)
    requires WalkInv(a, w, next) && w.path == [] && r in a.dom && w.num[r] == 0
    ensures WalkInv(a, Started(w, r), 2)
  {
    var w' := Started(w, r);
    forall v ensures Active(a, w', v) <==> v == r {
      assert !Active(a, w, v);
    }
    ReachRefl(a.g, r);
  }

  /** The walk descends to `c` and will come back to edge `saved` of the node it leaves. */
  function Pushed(w: Walk, c: Node, next: int, saved: nat): Walk
    requires w.path != [] && |w.idx| == |w.path|
  {
    w.(num := w.num[c := next], low := w.low[c := next],
       path := w.path + [c], idx := w.idx[|w.path| - 1 := saved] + [0], par := w.par[c := Top(w)])
  }

  lemma PushActive(a: Area, w: Walk, next: int, c: Node, saved: nat, v: Node)
    requires Shape(a, w) && Numbers(a, w, next) && w.path != []
    requires Edge(a.g, Top(w), c)
    ensures Active(a, Pushed(w, c, next, saved), v) <==> Active(a, w, v) || v == c
  {
    assert Active(a, w, Top(w)) && c in a.dom;
  }

  lemma PushShape(a: Area, w: Walk, next: int, c: Node, saved: nat)
    requires Shape(a, w) && Numbers(a, w, next) && w.path != [] && saved <= w.idx[|w.path| - 1]
    requires Edge(a.g, Top(w), c) && w.num[c] == 0
    ensures Shape(a, Pushed(w, c, next, saved))
  {
    var w' := Pushed(w, c, next, saved);
    forall v ensures Active(a, w', v) <==> Active(a, w, v) || v == c {
      PushActive(a, w, next, c, saved, v);
    }
    assert !Active(a, w, c);
    assert forall v :: v in w'.path <==> v in w.path || v == c;
  }

  lemma PushNumbers(a: Area, w: Walk, next: int, c: Node, saved: nat)
    requires Shape(a, w) && Numbers(a, w, next) && w.path != [] && saved <= w.idx[|w.path| - 1]
    requires Edge(a.g, Top(w), c) && w.num[c] == 0
    requires Shape(a, Pushed(w, c, next, saved))
    ensures Numbers(a, Pushed(w, c, next, saved), next + 1)
  {
    var w' := Pushed(w, c, next, saved);
    assert !Active(a, w, c);
    forall v ensures Active(a, w', v) <==> Active(a, w, v) || v == c {
      PushActive(a, w, next, c, saved, v);
    }
  }

  lemma PushScanned(a: Area, w: Walk, next: int, c: Node, saved: nat)
    requires Shape(a, w) && Scanned(a, w) && Numbers(a, w, next) && w.path != [] && saved <= w.idx[|w.path| - 1]
    requires Edge(a.g, Top(w), c) && w.num[c] == 0
    requires Shape(a, Pushed(w, c, next, saved))
    ensures Scanned(a, Pushed(w, c, next, saved))
  {
    var w' := Pushed(w, c, next, saved);
    assert !Active(a, w, c);
    forall v, x | v in w'.pending && Edge(a.g, v, x) ensures Covered(a, w', v, x) {
      assert Covered(a, w, v, x);
    }
    forall k, j | 0 <= k < |w'.path| && 0 <= j < w'.idx[k] ensures Covered(a, w', w'.path[k], a.g[w'.path[k]][j]) {
      assert Covered(a, w, w.path[k], a.g[w.path[k]][j]);
    }
  }

  lemma PushLows(a: Area, w: Walk, next: int, c: Node, saved: nat)
    requires Shape(a, w) && Lows(a, w) && Numbers(a, w, next) && w.path != [] && saved <= w.idx[|w.path| - 1]
    requires Edge(a.g, Top(w), c) && w.num[c] == 0
    requires Shape(a, Pushed(w, c, next, saved))
    ensures Lows(a, Pushed(w, c, next, saved))
  {
    var w' := Pushed(w, c, next, saved);
    ReachRefl(a.g, c);
    forall v | Active(a, w', v) ensures LowOf(a, w', v) {
      if v != c {
        assert LowOf(a, w, v);
      }
    }
  }

  lemma PushParent(a: Area, w: Walk, next: int, c: Node, saved: nat, v: Node)
    requires Shape(a, w) && Numbers(a, w, next) && w.path != [] && Tree(a, w) && Edge(a.g, Top(w), c) && w.num[c] == 0
    requires Shape(a, Pushed(w, c, next, saved)) && Active(a, Pushed(w, c, next, saved), v) && v != w.path[0]
    ensures ParentOf(a, Pushed(w, c, next, saved), v)
  {
    assert Active(a, w, Top(w)) && !Active(a, w, c);
    assert forall k :: 0 <= k < |w.path| ==> Active(a, w, w.path[k]);
    PushActive(a, w, next, c, saved, v);
    PushActive(a, w, next, c, saved, Top(w));
    if v != c {
      assert ParentOf(a, w, v);
      PushActive(a, w, next, c, saved, w.par[v]);
    }
    hide Shape;
  }

  lemma PushTree(a: Area, w: Walk, next: int, c: Node, saved: nat)
    requires Shape(a, w) && Numbers(a, w, next) && w.path != [] && Tree(a, w) && saved <= w.idx[|w.path| - 1]
    requires Edge(a.g, Top(w), c) && w.num[c] == 0
    requires Shape(a, Pushed(w, c, next, saved))
    ensures Tree(a, Pushed(w, c, next, saved))
  {
    assert Active(a, w, Top(w));
    forall v | Active(a, Pushed(w, c, next, saved), v) && v != w.path[0] ensures ParentOf(a, Pushed(w, c, next, saved), v) {
      PushParent(a, w, next, c, saved, v);
    }
  }

  lemma PushSuffixes(a: Area, w: Walk, next: int, c: Node, saved: nat)
    requires Shape(a, w) && Numbers(a, w, next) && Suffixes(a, w) && w.path != [] && c in a.dom && w.num[c] == 0
    requires Shape(a, Pushed(w, c, next, saved))
    ensures Suffixes(a, Pushed(w, c, next, saved))
  {
    assert forall k :: 0 <= k < |w.pending| ==> Active(a, w, w.pending[k]);
    assert forall k :: 0 <= k < |w.path| ==> Active(a, w, w.path[k]);
    hide Shape;
  }

  lemma PushKeeps(a: Area, w: Walk, next: int, c: Node, saved: nat)
    requires WalkInv(a, w, next) && w.path != [] && saved <= w.idx[|w.path| - 1]
    requires Edge(a.g, Top(w), c) && w.num[c] == 0
    ensures WalkInv(a, Pushed(w, c, next, saved), next + 1)
  {
    hide Numbers, Scanned, Lows, Tree, Suffixes;
    assert Active(a, w, Top(w)) && c in a.dom;
    PushShape(a, w, next, c, saved);
    PushNumbers(a, w, next, c, saved);
    PushScanned(a, w, next, c, saved);
    PushLows(a, w, next, c, saved);
    PushTree(a, w, next, c, saved);
    PushSuffixes(a, w, next, c, saved);
  }

  function Advanced(w: Walk, low: int): Walk
    requires w.path != [] && |w.idx| == |w.path|
  {
    w.(low := w.low[Top(w) := low], idx := w.idx[|w.path| - 1 := w.idx[|w.path| - 1] + 1])
  }

  /** The edge at the top of the walk leads to `c`, and `low` is what the low link becomes. */
  ghost predicate AtOldChild(a: Area, w: Walk, c: Node, low: int)
    requires Shape(a, w)
  {
    && w.path != []
    && w.idx[|w.path| - 1] < |a.g[Top(w)]| && c == a.g[Top(w)][w.idx[|w.path| - 1]]
    && c in a.dom
    && if Active(a, w, c) then low == (if w.low[c] < w.low[Top(w)] then w.low[c] else w.low[Top(w)])
       else c in a.fin && low == w.low[Top(w)]
  }

  lemma AdvanceShape(a: Area, w: Walk, next: int, low: int)
    requires Shape(a, w) && Numbers(a, w, next) && Suffixes(a, w) && w.path != [] && w.idx[|w.path| - 1] < |a.g[Top(w)]|
    ensures Shape(a, Advanced(w, low)) && Numbers(a, Advanced(w, low), next) && Suffixes(a, Advanced(w, low))
  {
    var w' := Advanced(w, low);
    assert forall v :: Active(a, w', v) <==> Active(a, w, v);
    assert Shape(a, w');
    NumbersKept(a, w, a, w', next);
    SuffixesKept(a, w, a, w');
  }

  lemma AdvanceCovered(a: Area, w: Walk, c: Node, low: int, v: Node, x: Node)
    requires Shape(a, w) && AtOldChild(a, w, c, low) && Shape(a, Advanced(w, low)) && Active(a, w, v) && Covered(a, w, v, x)
    ensures Covered(a, Advanced(w, low), v, x)
  {
    assert a.dom <= w.low.Keys;
    assert x in w.pending ==> x != Top(w);
    hide Shape;
  }

  lemma AdvanceChild(a: Area, w: Walk, next: int, c: Node, low: int)
    requires Shape(a, w) && Numbers(a, w, next) && Lows(a, w) && AtOldChild(a, w, c, low) && Shape(a, Advanced(w, low))
    ensures Covered(a, Advanced(w, low), Top(w), c)
  {
    assert Active(a, w, Top(w)) && a.dom <= w.low.Keys;
    if Active(a, w, c) {
      assert LowOf(a, w, c) && LowOf(a, w, Top(w));
      NumberedAfterTop(a, w, next, c);
    }
    hide Shape, Numbers;
  }

  lemma AdvanceOnPath(a: Area, w: Walk, next: int, c: Node, low: int, k: nat, j: nat)
    requires Shape(a, w) && Numbers(a, w, next) && Scanned(a, w) && Lows(a, w) && AtOldChild(a, w, c, low)
    requires Shape(a, Advanced(w, low)) && k < |w.path| && j < Advanced(w, low).idx[k]
    ensures w.path[k] in a.g && j < |a.g[w.path[k]]| && Active(a, Advanced(w, low), w.path[k])
    ensures Covered(a, Advanced(w, low), w.path[k], a.g[w.path[k]][j])
  {
    assert Active(a, w, w.path[k]);
    if k < |w.path| - 1 || j < w.idx[k] {
      assert Covered(a, w, w.path[k], a.g[w.path[k]][j]);
      AdvanceCovered(a, w, c, low, w.path[k], a.g[w.path[k]][j]);
    } else {
      AdvanceChild(a, w, next, c, low);
    }
  }

  lemma AdvanceScanned(a: Area, w: Walk, next: int, c: Node, low: int)
    requires Shape(a, w) && Numbers(a, w, next) && Scanned(a, w) && Lows(a, w) && AtOldChild(a, w, c, low)
    requires Shape(a, Advanced(w, low))
    ensures Scanned(a, Advanced(w, low))
  {
    var w' := Advanced(w, low);
    forall v, x | v in w'.pending && Edge(a.g, v, x) ensures Covered(a, w', v, x) {
      assert Active(a, w, v) && Covered(a, w, v, x);
      AdvanceCovered(a, w, c, low, v, x);
    }
    forall k, j | 0 <= k < |w'.path| && 0 <= j < w'.idx[k] ensures Covered(a, w', w'.path[k], a.g[w'.path[k]][j]) {
      AdvanceOnPath(a, w, next, c, low, k, j);
    }
    hide Shape, Covered;
  }

  lemma AdvanceLows(a: Area, w: Walk, next: int, c: Node, low: int)
    requires Shape(a, w) && Lows(a, w) && AtOldChild(a, w, c, low)
    requires Shape(a, Advanced(w, low))
    ensures Lows(a, Advanced(w, low))
  {
    var n := Top(w);
    var w' := Advanced(w, low);
    forall v | Active(a, w', v) ensures LowOf(a, w', v) {
      assert LowOf(a, w, v);
      if v == n && low != w.low[n] {
        assert LowOf(a, w, c);
        var u :| Active(a, w, u) && w.num[u] == w.low[c] && Reach(a.g, c, u);
        ReachEdge(a.g, n, c);
        ReachTrans(a.g, n, c, u);
        assert Active(a, w', u);
      }
    }
  }

  /** The walk is done with the current edge, whose target is in `fin` or has been visited before. */
  lemma AdvanceKeeps(a: Area, w: Walk, next: int, c: Node, low: int)
    requires WalkInv(a, w, next) && AtOldChild(a, w, c, low)
    ensures WalkInv(a, Advanced(w, low), next)
  {
    var w' := Advanced(w, low);
    AdvanceShape(a, w, next, low);
    AdvanceScanned(a, w, next, c, low);
    AdvanceLows(a, w, next, c, low);
    TreeShrinks(a, w, w');
  }

  lemma NumberedAfterTop(a: Area, w: Walk, next: int, v: Node)
    requires Shape(a, w) && Numbers(a, w, next) && w.path != []
    ensures Active(a, w, v) && w.num[v] > w.num[Top(w)] ==> v in w.pending
  {
  }

  function Popped(w: Walk): Walk
    requires w.path != [] && |w.idx| == |w.path|
  {
    w.(path := w.path[..|w.path| - 1], idx := w.idx[..|w.path| - 1], pending := w.pending + [Top(w)])
  }

  lemma PopShape(a: Area, w: Walk, next: int)
    requires Shape(a, w) && Numbers(a, w, next) && |w.path| > 1
    ensures Shape(a, Popped(w))
    ensures forall v :: v in Popped(w).pending <==> v in w.pending || v == Top(w)
  {
    var w' := Popped(w);
    assert Active(a, w, Top(w)) && Top(w) !in w.pending;
    assert forall v :: v in w.path <==> v in w'.path || v == Top(w);
    assert forall v :: v in w'.pending <==> v in w.pending || v == Top(w);
    assert forall v :: Active(a, w', v) <==> Active(a, w, v);
    PathApart(a, w, next);
  }

  lemma PathApart(a: Area, w: Walk, next: int)
    requires Shape(a, w) && Numbers(a, w, next)
    ensures forall i, j :: 0 <= i < j < |w.path| ==> w.path[i] != w.path[j]
  {
    assert forall k :: 0 <= k < |w.path| ==> Active(a, w, w.path[k]);
    hide Shape;
  }

  lemma PopNumbers(a: Area, w: Walk, next: int)
    requires Shape(a, w) && Numbers(a, w, next) && |w.path| > 1 && Shape(a, Popped(w))
    ensures Numbers(a, Popped(w), next)
  {
    assert forall v :: Active(a, Popped(w), v) <==> Active(a, w, v);
    NumbersKept(a, w, a, Popped(w), next);
  }

  lemma PopSuffixes(a: Area, w: Walk, next: int)
    requires Shape(a, w) && Numbers(a, w, next) && Suffixes(a, w) && |w.path| > 1 && Shape(a, Popped(w))
    ensures Suffixes(a, Popped(w))
  {
    var w' := Popped(w);
    forall k | 0 <= k < |w'.path|
      ensures w'.path[k] == w.path[k] && w.path[k] in w.num && w.num[w.path[k]] < w.num[w.path[|w.path| - 1]] {
      assert Active(a, w, w.path[k]);
    }
    hide Shape, Numbers;
  }

  lemma PopScanned(a: Area, w: Walk, next: int)
    requires Shape(a, w) && Scanned(a, w) && |w.path| > 1 && w.idx[|w.path| - 1] == |a.g[Top(w)]|
    requires Shape(a, Popped(w)) && forall v :: v in Popped(w).pending <==> v in w.pending || v == Top(w)
    ensures Scanned(a, Popped(w))
  {
    var n, w' := Top(w), Popped(w);
    forall v, x | v in w'.pending && Edge(a.g, v, x) ensures Covered(a, w', v, x) {
      if v == n {
        var j :| 0 <= j < |a.g[n]| && a.g[n][j] == x;
        assert Covered(a, w, w.path[|w.path| - 1], a.g[w.path[|w.path| - 1]][j]);
      } else {
        assert Covered(a, w, v, x);
      }
    }
    forall k, j | 0 <= k < |w'.path| && 0 <= j < w'.idx[k] ensures Covered(a, w', w'.path[k], a.g[w'.path[k]][j]) {
      assert Covered(a, w, w.path[k], a.g[w.path[k]][j]);
    }
  }

  lemma PopLow(a: Area, w: Walk, v: Node)
    requires Shape(a, w) && Lows(a, w) && w.path != [] && Shape(a, Popped(w)) && Active(a, Popped(w), v)
    ensures LowOf(a, Popped(w), v)
  {
    assert a.dom <= w.low.Keys && a.dom <= w.num.Keys;
    assert LowOf(a, w, v);
    hide Shape, Reach;
    var u :| Active(a, w, u) && w.num[u] == w.low[v] && Reach(a.g, v, u);
    assert Active(a, Popped(w), u);
  }

  lemma PopPendingLows(a: Area, w: Walk)
    requires Shape(a, w) && PendingLows(a, w) && w.path != [] && w.low[Top(w)] < w.num[Top(w)]
    requires Shape(a, Popped(w)) && forall v :: v in Popped(w).pending <==> v in w.pending || v == Top(w)
    ensures PendingLows(a, Popped(w))
  {
    hide Active, Closed;
  }

  lemma PopLows(a: Area, w: Walk)
    requires Shape(a, w) && Lows(a, w) && w.path != [] && w.low[Top(w)] < w.num[Top(w)]
    requires Shape(a, Popped(w)) && forall v :: v in Popped(w).pending <==> v in w.pending || v == Top(w)
    ensures Lows(a, Popped(w))
  {
    PopPendingLows(a, w);
    assert |w.idx| == |w.path|;
    hide Shape, LowOf, PendingLows, Active;
    forall v | Active(a, Popped(w), v) ensures LowOf(a, Popped(w), v) {
      PopLow(a, w, v);
    }
  }

  /** Every edge of the top node has been looked at, but its low link shows it is not a root. */
  lemma PopKeeps(a: Area, w: Walk, next: int)
    requires WalkInv(a, w, next) && w.path != []
    requires w.idx[|w.path| - 1] == |a.g[Top(w)]| && w.low[Top(w)] != w.num[Top(w)]
    ensures |w.path| > 1
    ensures WalkInv(a, Popped(w), next)
  {
    var w' := Popped(w);
    assert LowOf(a, w, Top(w));
    PopShape(a, w, next);
    PopNumbers(a, w, next);
    PopSuffixes(a, w, next);
    PopScanned(a, w, next);
    PopLows(a, w);
    TreeShrinks(a, w, w');
  }

  // ---------------------------------------------------------------- what the numbers mean

  /** A path node reaches everything numbered after it. */
  lemma {:induction false} PathReaches(a: Area, w: Walk, next: int, k: nat, v: Node)
    requires WalkInv(a, w, next) && k < |w.path| && Active(a, w, v) && w.num[w.path[k]] <= w.num[v]
    ensures Reach(a.g, w.path[k], v)
    decreases w.num[v]
  {
    if v == w.path[k] {
      ReachRefl(a.g, v);
    } else {
      assert Active(a, w, w.path[k]);
      assert ParentOf(a, w, v);
      PathReaches(a, w, next, k, w.par[v]);
      ReachEdge(a.g, w.par[v], v);
      ReachTrans(a.g, w.path[k], w.par[v], v);
    }
  }

  /** Everything visited and not done with reaches the node being visited. */
  lemma {:induction false} ReachesTop(a: Area, w: Walk, next: int, v: Node)
    requires WalkInv(a, w, next) && Active(a, w, v)
    ensures w.path != [] && Reach(a.g, v, Top(w))
    decreases w.num[v]
  {
    if v in w.path {
      var k :| 0 <= k < |w.path| && w.path[k] == v;
      assert Active(a, w, Top(w));
      PathReaches(a, w, next, k, Top(w));
    } else {
      assert LowOf(a, w, v);
      var u :| Active(a, w, u) && w.num[u] == w.low[v] && Reach(a.g, v, u);
      ReachesTop(a, w, next, u);
      ReachTrans(a.g, v, u, Top(w));
    }
  }

  /** The component formed when the top node turns out to be its root. */
  ghost function Component(a: Area, w: Walk): (s: set<Node>)
    requires Shape(a, w) && w.path != []
  {
    {Top(w)} + set v | v in w.pending && w.num[v] > w.num[Top(w)]
  }

  ghost predicate AtRoot(a: Area, w: Walk)
    requires Shape(a, w)
  {
    w.path != [] && w.idx[|w.path| - 1] == |a.g[Top(w)]| && w.low[Top(w)] == w.num[Top(w)]
  }

  lemma {:induction false} LowInComponent(a: Area, w: Walk, next: int, v: Node)
    requires WalkInv(a, w, next) && AtRoot(a, w) && v in Component(a, w)
    ensures w.low[v] >= w.num[Top(w)]
    decreases w.num[v]
  {
    var n := Top(w);
    if v != n {
      assert Active(a, w, v) && Active(a, w, n);
      assert ParentOf(a, w, v);
      var u := w.par[v];
      assert w.num[n] == w.num[w.path[|w.path| - 1]] <= w.num[u];
      if u == n {
        var j :| 0 <= j < |a.g[n]| && a.g[n][j] == v;
        assert Covered(a, w, w.path[|w.path| - 1], a.g[w.path[|w.path| - 1]][j]);
      } else {
        NumberedAfterTop(a, w, next, u);
        LowInComponent(a, w, next, u);
        assert Covered(a, w, u, v);
      }
    }
  }

  lemma ComponentClosed(a: Area, w: Walk, next: int)
    requires WalkInv(a, w, next) && AtRoot(a, w)
    ensures Closed(a.g, a.fin + Component(a, w))
  {
    var n := Top(w);
    forall v, x | v in Component(a, w) && Edge(a.g, v, x) ensures x in a.fin + Component(a, w) {
      assert Active(a, w, n) && Active(a, w, v);
      if v == n {
        var j :| 0 <= j < |a.g[n]| && a.g[n][j] == x;
        assert Covered(a, w, w.path[|w.path| - 1], a.g[w.path[|w.path| - 1]][j]);
      } else {
        assert Covered(a, w, v, x);
      }
      if x !in a.fin {
        LowInComponent(a, w, next, v);
        NumberedAfterTop(a, w, next, x);
      }
    }
  }

  /** Any two members of the component reach each other through its root. */
  lemma ComponentConnected(a: Area, w: Walk, next: int, u: Node, v: Node)
    requires WalkInv(a, w, next) && AtRoot(a, w) && u in Component(a, w) && v in Component(a, w)
    ensures Reach(a.g, u, v)
  {
    assert Active(a, w, u) && Active(a, w, v);
    ReachesTop(a, w, next, u);
    PathReaches(a, w, next, |w.path| - 1, v);
    ReachTrans(a.g, u, Top(w), v);
  }

  lemma ComponentIsSCC(a: Area, w: Walk, next: int)
    requires WalkInv(a, w, next) && AtRoot(a, w)
    ensures IsSCC(a.g, Component(a, w)) && Component(a, w) !! a.fin
  {
    var s := Component(a, w);
    assert Top(w) in s;
    forall u, v | u in s && v in s ensures Reach(a.g, u, v) {
      ComponentConnected(a, w, next, u, v);
    }
    assert s !! a.fin by {
      assert forall v :: v in s ==> Active(a, w, v);
    }
    forall u, v | u in s && Reach(a.g, u, v) && Reach(a.g, v, u) ensures v in s {
      ComponentClosed(a, w, next);
      ReachStays(a.g, a.fin + s, u, v);
      if v in a.fin {
        ReachStays(a.g, a.fin, v, u);
      }
    }
  }

  /** `w'` is `w` after its component left the walk: the members are numbered -1. */
  ghost predicate Formed(a: Area, w: Walk, w': Walk)
    requires Shape(a, w) && w.path != []
  {
    && w'.path == w.path[..|w.path| - 1] && w'.idx == w.idx[..|w.path| - 1] && w'.par == w.par
    && Unnumbered(a, w, w', Component(a, w))
    && w'.pending <= w.pending
    && forall v :: v in w'.pending <==> v in w.pending && v !in Component(a, w)
  }

  ghost predicate Unnumbered(a: Area, w: Walk, w': Walk, s: set<Node>) {
    && a.dom <= w.num.Keys && a.dom <= w.low.Keys && a.dom <= w'.num.Keys && a.dom <= w'.low.Keys
    && (forall v :: v in a.dom ==> w'.num[v] == if v in s then -1 else w.num[v])
    && (forall v :: v in a.dom ==> w'.low[v] == if v in s then -1 else w.low[v])
  }

  /** What is left after a component is formed was visited before its root. */
  lemma LeftBehind(a: Area, w: Walk, next: int, v: Node)
    requires Shape(a, w) && Numbers(a, w, next) && w.path != [] && Active(a, w, v)
    ensures v !in Component(a, w) <==> w.num[v] < w.num[Top(w)]
  {
    assert Active(a, w, Top(w));
  }

  lemma FormShape(a: Area, w: Walk, w': Walk)
    requires Shape(a, w) && w.path != [] && Formed(a, w, w')
    requires Closed(a.g, a.fin + Component(a, w)) && forall i, j :: 0 <= i < j < |w.path| ==> w.path[i] != w.path[j]
    ensures Shape(a.(fin := a.fin + Component(a, w)), w')
    ensures forall v :: Active(a, w', v) <==> Active(a, w, v) && v !in Component(a, w)
  {
    var s := Component(a, w);
    assert forall v :: v in s ==> Active(a, w, v);
    assert forall v :: v in w.path <==> v in w'.path || v == Top(w);
    assert Top(w) !in w'.path;
    assert forall v :: Active(a, w', v) <==> Active(a, w, v) && v !in s;
  }

  lemma FormScanned(a: Area, a': Area, w: Walk, w': Walk, next: int)
    requires Shape(a, w) && Numbers(a, w, next) && Scanned(a, w) && w.path != [] && Formed(a, w, w')
    requires a' == a.(fin := a.fin + Component(a, w)) && Shape(a', w')
    ensures Scanned(a', w')
  {
    forall v, x | v in w'.pending && Edge(a.g, v, x) ensures Covered(a', w', v, x) {
      assert Covered(a, w, v, x);
    }
    forall k, j | 0 <= k < |w'.path| && 0 <= j < w'.idx[k] ensures Covered(a', w', w'.path[k], a.g[w'.path[k]][j]) {
      assert Covered(a, w, w.path[k], a.g[w.path[k]][j]);
    }
  }

  lemma FormLows(a: Area, a': Area, w: Walk, w': Walk, next: int)
    requires Shape(a, w) && Numbers(a, w, next) && Lows(a, w) && w.path != [] && Formed(a, w, w')
    requires a' == a.(fin := a.fin + Component(a, w)) && Shape(a', w')
    ensures Lows(a', w')
  {
    forall v | Active(a', w', v) ensures LowOf(a', w', v) {
      assert LowOf(a, w, v);
      var u :| Active(a, w, u) && w.num[u] == w.low[v] && Reach(a.g, v, u);
      LeftBehind(a, w, next, v);
      LeftBehind(a, w, next, u);
      assert Active(a', w', u);
    }
  }

  lemma FormTree(a: Area, a': Area, w: Walk, w': Walk, next: int)
    requires Shape(a, w) && Numbers(a, w, next) && w.path != [] && Tree(a, w) && Formed(a, w, w')
    requires a' == a.(fin := a.fin + Component(a, w)) && Shape(a', w') && w'.path != []
    ensures Tree(a', w')
  {
    forall v | Active(a', w', v) && v != w'.path[0] ensures ParentOf(a', w', v) {
      assert ParentOf(a, w, v);
      LeftBehind(a, w, next, v);
      LeftBehind(a, w, next, w.par[v]);
    }
  }

  lemma FormNumbers(a: Area, a': Area, w: Walk, w': Walk, next: int)
    requires Shape(a, w) && Numbers(a, w, next) && Suffixes(a, w) && w.path != [] && Formed(a, w, w')
    requires a' == a.(fin := a.fin + Component(a, w)) && Shape(a', w')
    ensures Numbers(a', w', next) && Suffixes(a', w')
  {
    forall v | Active(a', w', v) ensures Active(a, w, v) && w'.num[v] == w.num[v] {}
    if w'.path == [] && w'.pending != [] {
      assert Active(a, w, w'.pending[0]);
      LeftBehind(a, w, next, w'.pending[0]);
    }
    hide Shape, Active, Component, Numbers, Suffixes;
    NumbersKept(a, w, a', w', next);
    SuffixesKept(a, w, a', w');
  }

  lemma FormKeeps(a: Area, w: Walk, w': Walk, next: int)
    requires WalkInv(a, w, next) && AtRoot(a, w) && Formed(a, w, w')
    ensures WalkInv(a.(fin := a.fin + Component(a, w)), w', next)
  {
    var a' := a.(fin := a.fin + Component(a, w));
    ComponentClosed(a, w, next);
    FormShape(a, w, w');
    FormNumbers(a, a', w, w', next);
    FormScanned(a, a', w, w', next);
    FormLows(a, a', w, w', next);
    if w'.path != [] {
      FormTree(a, a', w, w', next);
    }
  }

  /** A walk that is dropped as a whole, all its nodes numbered -1. */
  lemma DropKeeps(a: Area, w: Walk, w': Walk, next: int)
    requires WalkInv(a, w, next) && Unnumbered(a, w, w', set v | v in a.dom && Active(a, w, v))
    requires w'.path == [] && w'.idx == [] && w'.pending == []
    ensures WalkInv(a, w', next)
  {
    assert forall v :: !Active(a, w', v);
    NothingActive(a, w', next);
  }
}
