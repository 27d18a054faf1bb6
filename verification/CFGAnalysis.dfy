/**
 lib/Analysis/CFG.cpp: the back edges of a function, and a bounded search that tells whether one block can
 reach another.
 */
module CFGAnalysis {
  import opened Digraph
  import opened Dominance
  import opened Wrappers

  // ---------------------------------------------------------------- back edges

  /** `order` ranks the nodes so that every edge that is not in `back` leads downwards. */
  ghost predicate Ordered(g: Graph, back: seq<(Node, Node)>, order: map<Node, nat>) {
    forall u, v :: u in order && Edge(g, u, v) && (u, v) !in back ==> v in order && order[v] < order[u]
  }

  /** A path that uses none of the edges `back`. */
  ghost predicate AvoidsBack(g: Graph, back: seq<(Node, Node)>, p: seq<Node>) {
    IsPath(g, p) && forall i :: 0 <= i < |p| - 1 ==> (p[i], p[i + 1]) !in back
  }

  lemma {:induction false} PathDescends(g: Graph, back: seq<(Node, Node)>, order: map<Node, nat>, p: seq<Node>, k: nat)
    requires Ordered(g, back, order) && AvoidsBack(g, back, p) && p[0] in order && k < |p|
    ensures p[k] in order && (k > 0 ==> order[p[k]] < order[p[0]])
  {
    if k > 0 {
      PathDescends(g, back, order, p, k - 1);
      assert Edge(g, p[k - 1], p[k - 1 + 1]);
    }
  }

  /** Without the edges `back` there is no cycle. */
  lemma OrderedAcyclic(g: Graph, back: seq<(Node, Node)>, order: map<Node, nat>)
    requires Ordered(g, back, order)
    ensures forall p :: AvoidsBack(g, back, p) && p[0] in order && |p| > 1 ==> p[|p| - 1] != p[0]
  {
    forall p | AvoidsBack(g, back, p) && p[0] in order && |p| > 1 ensures p[|p| - 1] != p[0] {
      PathDescends(g, back, order, p, |p| - 1);
    }
  }

  /** The walk: blocks with the number of their successors looked at, and the order in which blocks were left. */
  datatype Walk = Walk(stack: seq<(Node, nat)>, visited: set<Node>, inStack: set<Node>, back: seq<(Node, Node)>, order: map<Node, nat>)

  /** Successor `j` of block `u` is taken care of: the edge is listed, or leads to a block that has been left. */
  ghost predicate Settled(g: Graph, w: Walk, u: Node, j: nat)
    requires u in g && j < |g[u]|
  {
    (u, g[u][j]) in w.back || g[u][j] in w.order
  }

  ghost predicate StackAt(g: Graph, w: Walk, i: nat)
    requires i < |w.stack|
  {
    var (u, k) := w.stack[i];
    && u in g && k <= |g[u]|
    && (forall j :: 0 <= j < k && !(i + 1 < |w.stack| && j == k - 1) ==> Settled(g, w, u, j))
    && (i + 1 < |w.stack| ==> k > 0 && g[u][k - 1] == w.stack[i + 1].0)
  }

  ghost predicate LeftAt(g: Graph, w: Walk, u: Node) {
    forall v :: Edge(g, u, v) && (u, v) !in w.back ==> v in w.order && u in w.order && w.order[v] < w.order[u]
  }

  ghost predicate BackOk(g: Graph, e: (Node, Node)) {
    Edge(g, e.0, e.1) && Reach(g, e.1, e.0)
  }

  ghost predicate SetsOk(g: Graph, entry: Node, w: Walk) {
    && w.order.Keys == w.visited - w.inStack && w.inStack <= w.visited <= g.Keys && entry in w.visited
    && (forall u :: u in w.order ==> w.order[u] < |w.order|)
  }

  ghost predicate StackSet(w: Walk) {
    && (forall b :: b in w.inStack <==> exists i :: 0 <= i < |w.stack| && w.stack[i].0 == b)
    && (forall i, j :: 0 <= i < j < |w.stack| ==> w.stack[i].0 != w.stack[j].0)
  }

  ghost predicate StackOk(g: Graph, w: Walk) {
    forall i :: 0 <= i < |w.stack| ==> StackAt(g, w, i)
  }

  ghost predicate AllLeft(g: Graph, w: Walk) {
    forall u :: u in w.order ==> LeftAt(g, w, u)
  }

  ghost predicate BacksOk(g: Graph, w: Walk) {
    forall e :: e in w.back ==> BackOk(g, e) && e.1 in w.visited
  }

  /** The listed edges, with the place of each among the successors of its block: every place once, and looked at. */
  ghost predicate SlotsOk(g: Graph, w: Walk, slots: seq<(Node, nat)>) {
    && |slots| == |w.back|
    && (forall k :: 0 <= k < |slots| ==> SlotOf(g, w, slots[k], w.back[k]))
    && (forall j, k :: 0 <= j < k < |slots| ==> slots[j] != slots[k])
  }

  ghost predicate SlotOf(g: Graph, w: Walk, slot: (Node, nat), e: (Node, Node)) {
    && slot.0 in g && slot.1 < |g[slot.0]| && e == (slot.0, g[slot.0][slot.1]) && slot.0 in w.visited
    && forall i :: 0 <= i < |w.stack| && w.stack[i].0 == slot.0 ==> slot.1 < w.stack[i].1
  }

  /** A listed edge leads to a block that is left no earlier than the block it comes from. */
  ghost predicate UpOrLevel(w: Walk, e: (Node, Node)) {
    && e.0 in w.visited && e.1 in w.visited
    && (e.1 in w.order ==> e.0 in w.order && w.order[e.0] <= w.order[e.1])
    && forall i, j :: 0 <= i < |w.stack| && 0 <= j < |w.stack| && w.stack[i].0 == e.1 && w.stack[j].0 == e.0 ==> i <= j
  }

  ghost predicate AllUpOrLevel(w: Walk) {
    forall e :: e in w.back ==> UpOrLevel(w, e)
  }

  lemma SlotsLooked(g: Graph, w: Walk, slots: seq<(Node, nat)>)
    requires w.stack != [] && SlotsOk(g, w, slots)
    ensures SlotsOk(g, Looked(w), slots)
  {
    forall k | 0 <= k < |slots| ensures SlotOf(g, Looked(w), slots[k], w.back[k]) {
      assert SlotOf(g, w, slots[k], w.back[k]);
    }
  }

  lemma SlotsBack(g: Graph, w: Walk, slots: seq<(Node, nat)>, v: Node)
    requires StackSet(w) && Next(g, w, v) && SlotsOk(g, w, slots) && Top(w).0 in w.visited
    ensures SlotsOk(g, Looked(w).(back := w.back + [(Top(w).0, v)]), slots + [Top(w)])
  {
    var w', slots' := Looked(w).(back := w.back + [(Top(w).0, v)]), slots + [Top(w)];
    SlotsLooked(g, w, slots);
    forall k | 0 <= k < |slots'| ensures SlotOf(g, w', slots'[k], w'.back[k]) {
      if k < |slots| {
        assert SlotOf(g, Looked(w), slots[k], w.back[k]);
      }
    }
    forall k | 0 <= k < |slots| ensures slots[k] != Top(w) {
      assert SlotOf(g, w, slots[k], w.back[k]);
      assert w.stack[|w.stack| - 1].0 == Top(w).0;
    }
  }

  lemma SlotsDown(g: Graph, w: Walk, slots: seq<(Node, nat)>, v: Node)
    requires w.stack != [] && SlotsOk(g, w, slots) && v !in w.visited
    ensures SlotsOk(g, Down(w, v), slots)
  {
    forall k | 0 <= k < |slots| ensures SlotOf(g, Down(w, v), slots[k], w.back[k]) {
      assert SlotOf(g, w, slots[k], w.back[k]);
    }
  }

  lemma SlotsUp(g: Graph, w: Walk, slots: seq<(Node, nat)>)
    requires w.stack != [] && SlotsOk(g, w, slots)
    ensures SlotsOk(g, Up(w), slots)
  {
    forall k | 0 <= k < |slots| ensures SlotOf(g, Up(w), slots[k], w.back[k]) {
      assert SlotOf(g, w, slots[k], w.back[k]);
    }
  }

  lemma LevelLooked(w: Walk)
    requires w.stack != [] && AllUpOrLevel(w)
    ensures AllUpOrLevel(Looked(w))
  {
    forall e | e in w.back ensures UpOrLevel(Looked(w), e) {
      assert UpOrLevel(w, e);
    }
  }

  lemma LevelBack(g: Graph, entry: Node, w: Walk, v: Node)
    requires SetsOk(g, entry, w) && StackSet(w) && Next(g, w, v) && AllUpOrLevel(w) && v in w.inStack
    ensures AllUpOrLevel(Looked(w).(back := w.back + [(Top(w).0, v)]))
  {
    var w' := Looked(w).(back := w.back + [(Top(w).0, v)]);
    LevelLooked(w);
    TopInside(w);
    forall e | e in w'.back ensures UpOrLevel(w', e) {
      if e in w.back {
        assert UpOrLevel(Looked(w), e);
      }
    }
  }

  lemma TopInside(w: Walk)
    requires w.stack != [] && StackSet(w)
    ensures Top(w).0 in w.inStack && forall j :: 0 <= j < |w.stack| && w.stack[j].0 == Top(w).0 ==> j == |w.stack| - 1
  {
    assert w.stack[|w.stack| - 1].0 == Top(w).0;
  }

  lemma LevelDown(w: Walk, v: Node)
    requires w.stack != [] && AllUpOrLevel(w) && v !in w.visited
    ensures AllUpOrLevel(Down(w, v))
  {
    forall e | e in w.back ensures UpOrLevel(Down(w, v), e) {
      assert UpOrLevel(w, e);
    }
  }

  lemma LevelUp(g: Graph, entry: Node, w: Walk)
    requires SetsOk(g, entry, w) && StackSet(w) && w.stack != [] && AllUpOrLevel(w)
    ensures AllUpOrLevel(Up(w))
  {
    TopInside(w);
    forall e | e in w.back ensures UpOrLevel(Up(w), e) {
      assert UpOrLevel(w, e);
      LevelUpAt(g, entry, w, e);
    }
  }

  lemma LevelUpAt(g: Graph, entry: Node, w: Walk, e: (Node, Node))
    requires SetsOk(g, entry, w) && StackSet(w) && w.stack != [] && UpOrLevel(w, e)
    ensures UpOrLevel(Up(w), e)
  {
    TopInside(w);
    if e.1 == Top(w).0 {
      LevelTop(g, entry, w, e);
    }
    hide StackSet, SetsOk;
  }

  /** An edge back to the block on top comes from that block or from one that has been left before. */
  lemma LevelTop(g: Graph, entry: Node, w: Walk, e: (Node, Node))
    requires SetsOk(g, entry, w) && StackSet(w) && w.stack != [] && UpOrLevel(w, e) && e.1 == Top(w).0
    ensures e.0 == Top(w).0 || (e.0 in w.order && w.order[e.0] < |w.order|)
  {
    LevelKnown(w, e);
    hide SetsOk, StackSet, UpOrLevel;
    if e.0 in w.inStack {
      var j := OnStack(w, e.0);
      LevelAt(w, e, |w.stack| - 1, j);
    } else {
      LeftNumber(g, entry, w, e.0);
    }
  }

  lemma LevelKnown(w: Walk, e: (Node, Node))
    requires UpOrLevel(w, e)
    ensures e.0 in w.visited && e.1 in w.visited
  {
  }

  lemma LevelAt(w: Walk, e: (Node, Node), i: nat, j: nat)
    requires UpOrLevel(w, e) && i < |w.stack| && j < |w.stack| && w.stack[i].0 == e.1 && w.stack[j].0 == e.0
    ensures i <= j
  {
  }

  lemma LeftNumber(g: Graph, entry: Node, w: Walk, b: Node)
    requires SetsOk(g, entry, w) && b in w.visited && b !in w.inStack
    ensures b in w.order && w.order[b] < |w.order|
  {
  }

  lemma OnStack(w: Walk, b: Node) returns (j: nat)
    requires StackSet(w) && b in w.inStack
    ensures j < |w.stack| && w.stack[j].0 == b
  {
    j :| 0 <= j < |w.stack| && w.stack[j].0 == b;
  }

  /** What is listed besides closing cycles. */
  ghost predicate Listing(g: Graph, w: Walk, slots: seq<(Node, nat)>) {
    SlotsOk(g, w, slots) && AllUpOrLevel(w)
  }

  ghost predicate WalkOk(g: Graph, entry: Node, w: Walk) {
    SetsOk(g, entry, w) && StackSet(w) && StackOk(g, w) && AllLeft(g, w) && BacksOk(g, w)
  }

  lemma {:induction false} StackReaches(g: Graph, w: Walk, i: nat, k: nat)
    requires StackOk(g, w) && i <= k < |w.stack|
    ensures Reach(g, w.stack[i].0, w.stack[k].0)
    decreases k - i
  {
    if i == k {
      ReachRefl(g, w.stack[i].0);
    } else {
      StackReaches(g, w, i, k - 1);
      assert StackAt(g, w, k - 1);
      ReachEdge(g, w.stack[k - 1].0, w.stack[k].0);
      ReachTrans(g, w.stack[i].0, w.stack[k - 1].0, w.stack[k].0);
    }
  }

  /** `w'` lists at least the back edges of `w` and has left at least its blocks. */
  ghost predicate Grows(w: Walk, w': Walk) {
    && (forall e :: e in w.back ==> e in w'.back)
    && (forall u :: u in w.order ==> u in w'.order && w'.order[u] == w.order[u])
  }

  lemma StackAtStill(g: Graph, w: Walk, w': Walk, i: nat)
    requires Grows(w, w') && i + 1 < |w.stack| && i + 1 < |w'.stack| && StackAt(g, w, i)
    requires w'.stack[i] == w.stack[i] && w'.stack[i + 1].0 == w.stack[i + 1].0
    ensures StackAt(g, w', i)
  {
    var (u, k) := w.stack[i];
    forall j | 0 <= j < k && !(i + 1 < |w'.stack| && j == k - 1) ensures Settled(g, w', u, j) {
      assert Settled(g, w, u, j);
    }
  }

  lemma LeftStill(g: Graph, w: Walk, w': Walk)
    requires Grows(w, w') && AllLeft(g, w)
    ensures forall u :: u in w.order ==> LeftAt(g, w', u)
  {
    forall u | u in w.order ensures LeftAt(g, w', u) {
      assert LeftAt(g, w, u);
    }
  }

  function Top(w: Walk): (Node, nat)
    requires w.stack != []
  {
    w.stack[|w.stack| - 1]
  }

  ghost predicate Next(g: Graph, w: Walk, v: Node) {
    w.stack != [] && Top(w).0 in g && Top(w).1 < |g[Top(w).0]| && v == g[Top(w).0][Top(w).1]
  }

  /** The next successor of the block on top has been looked at. */
  function Looked(w: Walk): Walk
    requires w.stack != []
  {
    w.(stack := w.stack[|w.stack| - 1 := (Top(w).0, Top(w).1 + 1)])
  }

  lemma LookedSet(w: Walk, w': Walk)
    requires w.stack != [] && StackSet(w) && w'.stack == Looked(w).stack && w'.inStack == w.inStack
    ensures StackSet(w')
  {
    assert forall i :: 0 <= i < |w.stack| ==> w'.stack[i].0 == w.stack[i].0;
  }

  lemma LookedStack(g: Graph, w: Walk, w': Walk, v: Node)
    requires Next(g, w, v) && StackOk(g, w) && Grows(w, w') && w'.stack == Looked(w).stack
    requires (Top(w).0, v) in w'.back || v in w'.order
    ensures StackOk(g, w')
  {
    var n := |w.stack| - 1;
    forall i | 0 <= i <= n ensures StackAt(g, w', i) {
      assert StackAt(g, w, i);
      if i < n {
        StackAtStill(g, w, w', i);
      } else {
        var (u, k) := w.stack[n];
        forall j | 0 <= j < k + 1 ensures Settled(g, w', u, j) {
          assert j < k ==> Settled(g, w, u, j);
        }
      }
    }
  }

  lemma LookedRest(g: Graph, entry: Node, w: Walk, back: seq<(Node, Node)>)
    requires w.stack != [] && SetsOk(g, entry, w) && AllLeft(g, w) && w.back <= back
    ensures SetsOk(g, entry, Looked(w).(back := back)) && AllLeft(g, Looked(w).(back := back)) && Grows(w, Looked(w).(back := back))
  {
    hide LeftAt;
    LeftStill(g, w, Looked(w).(back := back));
  }

  lemma ClosesCycle(g: Graph, w: Walk, v: Node)
    requires Next(g, w, v) && StackOk(g, w) && StackSet(w) && v in w.inStack
    ensures BackOk(g, (Top(w).0, v))
  {
    var n := |w.stack| - 1;
    var i :| 0 <= i <= n && w.stack[i].0 == v;
    StackReaches(g, w, i, n);
  }

  lemma OneMoreBack(g: Graph, w: Walk, v: Node)
    requires w.stack != [] && BacksOk(g, w) && BackOk(g, (Top(w).0, v)) && v in w.visited
    ensures BacksOk(g, Looked(w).(back := w.back + [(Top(w).0, v)])) && (Top(w).0, v) in w.back + [(Top(w).0, v)]
  {
    hide BackOk;
  }

  /** A successor on the stack: the edge to it closes a cycle. */
  lemma LookedBack(g: Graph, entry: Node, w: Walk, v: Node)
    requires WalkOk(g, entry, w) && Next(g, w, v) && v in w.inStack
    ensures WalkOk(g, entry, Looked(w).(back := w.back + [(Top(w).0, v)]))
  {
    SetsInside(g, entry, w);
    ClosesCycle(g, w, v);
    OneMoreBack(g, w, v);
    hide BackOk, StackOk, StackSet, AllLeft, BacksOk, Next, SetsOk, Grows;
    var w' := Looked(w).(back := w.back + [(Top(w).0, v)]);
    LookedRest(g, entry, w, w'.back);
    LookedSet(w, w');
    LookedStack(g, w, w', v);
  }

  /** A successor that has been left already. */
  lemma LookedLeft(g: Graph, entry: Node, w: Walk, v: Node)
    requires WalkOk(g, entry, w) && Next(g, w, v) && v in w.visited && v !in w.inStack
    ensures WalkOk(g, entry, Looked(w))
  {
    assert v in w.order;
    assert BacksOk(g, Looked(w));
    hide BackOk, StackOk, StackSet, AllLeft, BacksOk, Next, SetsOk, Grows;
    LookedRest(g, entry, w, w.back);
    assert Looked(w).(back := w.back) == Looked(w);
    LookedSet(w, Looked(w));
    LookedStack(g, w, Looked(w), v);
  }

  /** Down to an unvisited successor. */
  function Down(w: Walk, v: Node): Walk
    requires w.stack != []
  {
    Walk(Looked(w).stack + [(v, 0)], w.visited + {v}, w.inStack + {v}, w.back, w.order)
  }

  lemma DownSet(w: Walk, v: Node)
    requires w.stack != [] && StackSet(w) && v !in w.inStack
    ensures StackSet(Down(w, v))
  {
    var n, w' := |w.stack|, Down(w, v);
    assert forall i :: 0 <= i < n ==> w'.stack[i].0 == w.stack[i].0;
    assert w'.stack[n].0 == v;
  }

  lemma DownStack(g: Graph, w: Walk, v: Node)
    requires Next(g, w, v) && StackOk(g, w) && v in g
    ensures StackOk(g, Down(w, v))
  {
    var n, w' := |w.stack| - 1, Down(w, v);
    forall i | 0 <= i < |w'.stack| ensures StackAt(g, w', i) {
      if i < n {
        assert StackAt(g, w, i);
        StackAtStill(g, w, w', i);
      } else if i == n {
        assert StackAt(g, w, n);
        forall j | 0 <= j < Top(w).1 ensures Settled(g, w', Top(w).0, j) {
          assert Settled(g, w, Top(w).0, j);
        }
      }
    }
  }

  lemma DownOk(g: Graph, entry: Node, w: Walk, v: Node)
    requires WellFormed(g) && WalkOk(g, entry, w) && Next(g, w, v) && v !in w.visited
    ensures WalkOk(g, entry, Down(w, v))
  {
    hide BackOk, StackOk, StackSet, AllLeft, BacksOk, Next, WellFormed, SetsOk;
    NextInGraph(g, w, v);
    SetsInside(g, entry, w);
    DownSet(w, v);
    DownStack(g, w, v);
    DownSets(g, entry, w, v);
    DownLeft(g, w, v);
  }

  lemma NextInGraph(g: Graph, w: Walk, v: Node)
    requires WellFormed(g) && Next(g, w, v)
    ensures v in g && w.stack != []
  {
    assert Edge(g, Top(w).0, v);
  }

  lemma DownLeft(g: Graph, w: Walk, v: Node)
    requires w.stack != [] && AllLeft(g, w) && BacksOk(g, w)
    ensures AllLeft(g, Down(w, v)) && BacksOk(g, Down(w, v))
  {
    hide LeftAt, BackOk;
    LeftStill(g, w, Down(w, v));
  }

  lemma SetsInside(g: Graph, entry: Node, w: Walk)
    requires SetsOk(g, entry, w)
    ensures w.inStack <= w.visited <= g.Keys
  {
  }

  lemma DownSets(g: Graph, entry: Node, w: Walk, v: Node)
    requires SetsOk(g, entry, w) && w.stack != [] && v in g && v !in w.visited
    ensures SetsOk(g, entry, Down(w, v))
  {
    assert w.visited + {v} - (w.inStack + {v}) == w.visited - w.inStack;
  }

  /** Up from a block all of whose successors have been looked at. */
  function Up(w: Walk): Walk
    requires w.stack != []
  {
    Walk(w.stack[..|w.stack| - 1], w.visited, w.inStack - {Top(w).0}, w.back, w.order[Top(w).0 := |w.order|])
  }

  lemma UpSet(w: Walk)
    requires w.stack != [] && StackSet(w)
    ensures StackSet(Up(w)) && Top(w).0 in w.inStack
  {
    var n, w' := |w.stack| - 1, Up(w);
    assert forall i :: 0 <= i < n ==> w'.stack[i] == w.stack[i];
    assert w.stack[n].0 == Top(w).0;
    forall b | b in w'.inStack ensures exists i :: 0 <= i < n && w'.stack[i].0 == b {
      var i :| 0 <= i <= n && w.stack[i].0 == b;
      assert w'.stack[i].0 == b;
    }
  }

  lemma UpStack(g: Graph, w: Walk)
    requires w.stack != [] && StackOk(g, w) && Top(w).0 !in w.order
    ensures StackOk(g, Up(w))
  {
    var n, w' := |w.stack| - 1, Up(w);
    forall i | 0 <= i < n ensures StackAt(g, w', i) {
      assert StackAt(g, w, i);
      if i + 1 < n {
        StackAtStill(g, w, w', i);
      } else {
        var (u, k) := w.stack[i];
        forall j | 0 <= j < k ensures Settled(g, w', u, j) {
          assert j < k - 1 ==> Settled(g, w, u, j);
        }
      }
    }
  }

  lemma UpLeft(g: Graph, w: Walk)
    requires w.stack != [] && StackOk(g, w) && Top(w).0 in g && Top(w).1 == |g[Top(w).0]| && Top(w).0 !in w.order && AllLeft(g, w)
    requires forall u :: u in w.order ==> w.order[u] < |w.order|
    ensures AllLeft(g, Up(w))
  {
    var u, w' := Top(w).0, Up(w);
    LeftStill(g, w, w');
    assert StackAt(g, w, |w.stack| - 1);
    forall v | Edge(g, u, v) && (u, v) !in w.back ensures v in w.order {
      var j :| 0 <= j < |g[u]| && g[u][j] == v;
      assert Settled(g, w, u, j);
    }
  }

  lemma UpOk(g: Graph, entry: Node, w: Walk)
    requires WalkOk(g, entry, w) && w.stack != [] && Top(w).0 in g && Top(w).1 == |g[Top(w).0]|
    ensures WalkOk(g, entry, Up(w))
  {
    hide BackOk, StackOk, AllLeft, StackSet, SetsOk;
    UpSet(w);
    UpSets(g, entry, w);
    UpStack(g, w);
    UpLeft(g, w);
  }

  lemma UpSets(g: Graph, entry: Node, w: Walk)
    requires SetsOk(g, entry, w) && w.stack != [] && Top(w).0 in w.inStack
    ensures SetsOk(g, entry, Up(w)) && Top(w).0 !in w.order && forall u :: u in w.order ==> w.order[u] < |w.order|
  {
    var u, w' := Top(w).0, Up(w);
    assert w'.order.Keys == w.order.Keys + {u};
    assert |w'.order.Keys| == |w.order.Keys| + 1;
    assert w.visited - (w.inStack - {u}) == w.visited - w.inStack + {u};
  }

  lemma WalkBegins(g: Graph, entry: Node)
    requires entry in g
    ensures WalkOk(g, entry, Walk([(entry, 0)], {entry}, {entry}, [], map[]))
  {
    var w := Walk([(entry, 0)], {entry}, {entry}, [], map[]);
    assert w.stack[0].0 == entry;
  }

  lemma TopKnown(g: Graph, entry: Node, w: Walk)
    requires WalkOk(g, entry, w) && w.stack != []
    ensures Top(w).0 in g && Top(w).1 <= |g[Top(w).0]| && w.visited <= g.Keys && Top(w).0 in w.inStack
  {
    assert StackAt(g, w, |w.stack| - 1);
    UpSet(w);
  }

  /** What the walk has found when its stack is empty. */
  lemma WalkDone(g: Graph, entry: Node, w: Walk)
    requires WalkOk(g, entry, w) && w.stack == []
    ensures Ordered(g, w.back, w.order) && (forall v :: Reach(g, entry, v) ==> v in w.order)
    ensures forall e :: e in w.back ==> BackOk(g, e)
  {
    assert w.inStack == {};
    forall u, v | u in w.order && Edge(g, u, v) ensures v in w.order {
      assert LeftAt(g, w, u);
    }
    forall v | Reach(g, entry, v) ensures v in w.order {
      ReachStays(g, w.order.Keys, entry, v);
    }
  }

  lemma LookedBackListing(g: Graph, entry: Node, w: Walk, slots: seq<(Node, nat)>, v: Node)
    requires WalkOk(g, entry, w) && Next(g, w, v) && v in w.inStack && Listing(g, w, slots)
    ensures Listing(g, Looked(w).(back := w.back + [(Top(w).0, v)]), slots + [Top(w)])
  {
    hide SlotsOk, AllUpOrLevel, Next;
    TopKnown(g, entry, w);
    SlotsBack(g, w, slots, v);
    LevelBack(g, entry, w, v);
  }

  lemma LookedLeftListing(g: Graph, w: Walk, slots: seq<(Node, nat)>)
    requires w.stack != [] && Listing(g, w, slots)
    ensures Listing(g, Looked(w), slots)
  {
    hide SlotsOk, AllUpOrLevel;
    SlotsLooked(g, w, slots);
    LevelLooked(w);
  }

  lemma DownListing(g: Graph, w: Walk, slots: seq<(Node, nat)>, v: Node)
    requires w.stack != [] && v !in w.visited && Listing(g, w, slots)
    ensures Listing(g, Down(w, v), slots)
  {
    hide SlotsOk, AllUpOrLevel;
    SlotsDown(g, w, slots, v);
    LevelDown(w, v);
  }

  lemma UpListing(g: Graph, entry: Node, w: Walk, slots: seq<(Node, nat)>)
    requires WalkOk(g, entry, w) && w.stack != [] && Listing(g, w, slots)
    ensures Listing(g, Up(w), slots)
  {
    hide SlotsOk, AllUpOrLevel;
    SlotsUp(g, w, slots);
    LevelUp(g, entry, w);
  }

  /** Every place among the successors is listed at most once. */
  ghost predicate OncePerSuccessor(g: Graph, back: seq<(Node, Node)>, slots: seq<(Node, nat)>) {
    && |slots| == |back| && (forall j, k :: 0 <= j < k < |slots| ==> slots[j] != slots[k])
    && (forall k :: 0 <= k < |slots| ==>
         slots[k].0 in g && slots[k].1 < |g[slots[k].0]| && back[k] == (slots[k].0, g[slots[k].0][slots[k].1]))
  }

  /** In the end an edge is listed exactly if its target was left no earlier than its source. */
  lemma ListingDone(g: Graph, entry: Node, w: Walk, slots: seq<(Node, nat)>)
    requires WalkOk(g, entry, w) && w.stack == [] && Listing(g, w, slots) && Ordered(g, w.back, w.order)
    ensures OncePerSuccessor(g, w.back, slots)
    ensures forall u, v :: u in w.order && Edge(g, u, v) ==> v in w.order && ((u, v) in w.back <==> w.order[u] <= w.order[v])
  {
    forall k | 0 <= k < |slots|
      ensures slots[k].0 in g && slots[k].1 < |g[slots[k].0]| && w.back[k] == (slots[k].0, g[slots[k].0][slots[k].1])
    {
      assert SlotOf(g, w, slots[k], w.back[k]);
    }
    forall u, v | u in w.order && Edge(g, u, v)
      ensures v in w.order && ((u, v) in w.back <==> w.order[u] <= w.order[v])
    {
      if (u, v) in w.back {
        assert UpOrLevel(w, (u, v));
        NoneOnStack(g, entry, w, v);
      }
    }
  }

  lemma NoneOnStack(g: Graph, entry: Node, w: Walk, v: Node)
    requires WalkOk(g, entry, w) && w.stack == [] && v in w.visited
    ensures v in w.order
  {
  }

  /**
   The back edges of a function (CFG.cpp:27-66): each closes a cycle, and without them no reachable block is
   on a cycle.  An edge is listed exactly if the walk leaves its target no earlier than its source, at most once for
   each place that the target has among the successors.
   */
  method FindFunctionBackedges(g: Graph, entry: Node)
    returns (result: seq<(Node, Node)>, ghost order: map<Node, nat>, ghost slots: seq<(Node, nat)>)
    requires WellFormed(g) && entry in g
    ensures forall e :: e in result ==> Edge(g, e.0, e.1) && Reach(g, e.1, e.0)
    ensures Ordered(g, result, order) && forall v :: Reach(g, entry, v) ==> v in order
    ensures OncePerSuccessor(g, result, slots)
    ensures forall u, v :: u in order && Edge(g, u, v) ==> v in order && ((u, v) in result <==> order[u] <= order[v])
  {
    hide WalkOk, Reach, Ordered, Listing;
    result, order, slots := [], map[], [];
    if |g[entry]| == 0 {
      order := map[entry := 0];
      Alone(g, entry);
      return;
    }
    var visited, visitStack: seq<(Node, nat)>, inStack := {entry}, [(entry, 0)], {entry};
    ghost var w := Walk(visitStack, visited, inStack, [], map[]);
    WalkBegins(g, entry);
    ListingBegins(g, w);
    while visitStack != []
      invariant Listing(g, w, slots)
      invariant WalkOk(g, entry, w) && w == Walk(visitStack, visited, inStack, result, w.order)
      decreases g.Keys - visited, |visitStack|
    {
      TopKnown(g, entry, w);
      ghost var before := visitStack;
      var parentBB, i := visitStack[|visitStack| - 1].0, visitStack[|visitStack| - 1].1;
      var foundNew, bb := false, parentBB;
      while i != |g[parentBB]|
        invariant visitStack != [] && |visitStack| == |before| && visitStack[|visitStack| - 1] == (parentBB, i) && i <= |g[parentBB]|
        invariant WalkOk(g, entry, w) && w == Walk(visitStack, visited, inStack, result, w.order)
        invariant Listing(g, w, slots)
        decreases |g[parentBB]| - i
      {
        bb := g[parentBB][i];
        if bb !in visited {
          foundNew := true;
          break;
        }
        if bb in inStack {
          LookedBack(g, entry, w, bb);
          LookedBackListing(g, entry, w, slots, bb);
          slots := slots + [(parentBB, i)];
          result := result + [(parentBB, bb)];
          w := Looked(w).(back := result);
        } else {
          LookedLeft(g, entry, w, bb);
          LookedLeftListing(g, w, slots);
          w := Looked(w);
        }
        i := i + 1;
        visitStack := visitStack[|visitStack| - 1 := (parentBB, i)];
      }
      if foundNew {
        DownOk(g, entry, w, bb);
        DownListing(g, w, slots, bb);
        assert Edge(g, parentBB, bb) && bb in g;
        visitStack := visitStack[|visitStack| - 1 := (parentBB, i + 1)];
        w := Down(w, bb);
        visited := visited + {bb};
        inStack := inStack + {bb};
        visitStack := visitStack + [(bb, 0)];
      } else {
        UpOk(g, entry, w);
        UpListing(g, entry, w, slots);
        w := Up(w);
        inStack := inStack - {parentBB};
        visitStack := visitStack[..|visitStack| - 1];
      }
    }
    order := w.order;
    WalkDone(g, entry, w);
    ListingDone(g, entry, w, slots);
  }

  lemma ListingBegins(g: Graph, w: Walk)
    requires w.back == []
    ensures Listing(g, w, [])
  {
  }

  lemma Alone(g: Graph, entry: Node)
    requires entry in g && g[entry] == []
    ensures Ordered(g, [], map[entry := 0]) && forall v :: Reach(g, entry, v) ==> v == entry
  {
    forall v | Reach(g, entry, v) ensures v == entry {
      ReachStays(g, {entry}, entry, v);
    }
  }

  // ---------------------------------------------------------------- reachability

  type Loop = nat

  /** The innermost loop of each block, the loop around each loop, how deep loops nest, and the blocks of each loop. */
  datatype LoopInfo = LoopInfo(loopFor: map<Node, Loop>, parent: map<Loop, Loop>, depth: map<Loop, nat>, blocks: map<Loop, seq<Node>>)

  ghost predicate Nested(li: LoopInfo) {
    && (forall b :: b in li.loopFor ==> li.loopFor[b] in li.depth)
    && (forall l :: l in li.parent ==> l in li.depth && li.parent[l] in li.depth && li.depth[li.parent[l]] < li.depth[l])
    && li.blocks.Keys == li.depth.Keys
  }

  ghost function Outer(li: LoopInfo, l: Loop): (r: Loop)
    requires Nested(li) && l in li.depth
    ensures r in li.depth && r !in li.parent
    decreases li.depth[l]
  {
    if l in li.parent then Outer(li, li.parent[l]) else l
  }

  /** Whether `b` is in outermost loop `l`. */
  ghost predicate InOuter(li: LoopInfo, b: Node, l: Loop)
    requires Nested(li)
  {
    b in li.loopFor && Outer(li, li.loopFor[b]) == l
  }

  /** Some edge from `b` leads back to it. */
  ghost predicate OnCycle(g: Graph, b: Node) {
    exists s :: Edge(g, b, s) && Reach(g, s, b)
  }

  /** `li` describes loops of `g`: all blocks of an outermost loop reach one another, and themselves by an edge. */
  ghost predicate IsLoopInfo(g: Graph, li: LoopInfo) {
    && Nested(li)
    && (forall l, b :: l in li.depth && l !in li.parent ==> (b in li.blocks[l] <==> InOuter(li, b, l)))
    && (forall a, b, l :: InOuter(li, a, l) && InOuter(li, b, l) ==> Reach(g, a, b))
    && (forall b :: b in li.loopFor ==> b in g && OnCycle(g, b))
  }

  /** The outermost loop around a block (CFG.cpp:112-119). */
  method GetOutermostLoop(li: LoopInfo, bb: Node) returns (l: Option<Loop>)
    requires Nested(li)
    ensures l.None? <==> bb !in li.loopFor
    ensures l.Some? ==> InOuter(li, bb, l.value) && l.value in li.depth && l.value !in li.parent
  {
    if bb !in li.loopFor {
      return None;
    }
    var x := li.loopFor[bb];
    while x in li.parent
      invariant x in li.depth && Outer(li, x) == Outer(li, li.loopFor[bb])
      decreases li.depth[x]
    {
      x := li.parent[x];
    }
    l := Some(x);
  }

  /** The blocks outside loop `l` that an edge leads to from inside. */
  method GetExitBlocks(g: Graph, li: LoopInfo, l: Loop) returns (exits: seq<Node>)
    requires WellFormed(g) && IsLoopInfo(g, li) && l in li.depth && l !in li.parent
    ensures forall v :: v in exits <==> !InOuter(li, v, l) && exists u :: InOuter(li, u, l) && Edge(g, u, v)
  {
    hide Reach;
    exits := [];
    var i := 0;
    while i < |li.blocks[l]|
      invariant 0 <= i <= |li.blocks[l]|
      invariant forall v :: v in exits ==> !InOuter(li, v, l) && exists u :: InOuter(li, u, l) && Edge(g, u, v)
      invariant forall k, v :: 0 <= k < i && Edge(g, li.blocks[l][k], v) && !InOuter(li, v, l) ==> v in exits
    {
      var u := li.blocks[l][i];
      assert u in li.blocks[l] && InOuter(li, u, l);
      var j := 0;
      while j < |g[u]|
        invariant 0 <= j <= |g[u]|
        invariant forall v :: v in exits ==> !InOuter(li, v, l) && exists x :: InOuter(li, x, l) && Edge(g, x, v)
        invariant forall k, v :: 0 <= k < i && Edge(g, li.blocks[l][k], v) && !InOuter(li, v, l) ==> v in exits
        invariant forall q :: 0 <= q < j && !InOuter(li, g[u][q], l) ==> g[u][q] in exits
      {
        var v := g[u][j];
        assert Edge(g, u, v);
        var ol := GetOutermostLoop(li, v);
        if ol != Some(l) {
          exits := exits + [v];
        }
        j := j + 1;
      }
      i := i + 1;
    }
    forall v | !InOuter(li, v, l) && exists u :: InOuter(li, u, l) && Edge(g, u, v) ensures v in exits {
      var u :| InOuter(li, u, l) && Edge(g, u, v);
      var k :| 0 <= k < |li.blocks[l]| && li.blocks[l][k] == u;
    }
  }

  // What the search knows about the function: perhaps a dominator tree, perhaps loops.

  ghost predicate Known(g: Graph, dt: Option<DomTree>, li: Option<LoopInfo>) {
    WellFormed(g) && (dt.Some? ==> IsDomTree(g, dt.value)) && (li.Some? ==> IsLoopInfo(g, li.value))
  }

  /** Block `b` is in the same outermost loop as some visited block, or has been visited itself. */
  ghost predicate Covered(li: Option<LoopInfo>, visited: set<Node>, b: Node)
    requires li.Some? ==> Nested(li.value)
  {
    b in visited || (li.Some? && exists v, l :: v in visited && InOuter(li.value, v, l) && InOuter(li.value, b, l))
  }

  /** A step of the search: from a block in a loop to an exit of its outermost loop, from another to a successor. */
  ghost predicate Hop(g: Graph, li: Option<LoopInfo>, b: Node, v: Node)
    requires li.Some? ==> Nested(li.value)
  {
    if li.Some? && b in li.value.loopFor then
      var l := Outer(li.value, li.value.loopFor[b]);
      !InOuter(li.value, v, l) && exists u :: InOuter(li.value, u, l) && Edge(g, u, v)
    else Edge(g, b, v)
  }

  ghost predicate HopPath(g: Graph, li: Option<LoopInfo>, p: seq<Node>)
    requires li.Some? ==> Nested(li.value)
  {
    p != [] && forall i: nat :: i < |p| - 1 ==> HopAt(g, li, p, i)
  }

  ghost predicate HopAt(g: Graph, li: Option<LoopInfo>, p: seq<Node>, i: nat)
    requires (li.Some? ==> Nested(li.value)) && i < |p| - 1
  {
    Hop(g, li, p[i], p[i + 1])
  }

  /** The search can come from a block of `from` to `b`. */
  ghost predicate SearchComes(g: Graph, li: Option<LoopInfo>, from: seq<Node>, b: Node)
    requires li.Some? ==> Nested(li.value)
  {
    exists p :: HopPath(g, li, p) && p[0] in from && p[|p| - 1] == b
  }

  /** All blocks that the search can come to from those of `from`. */
  ghost function SearchSpace(g: Graph, li: Option<LoopInfo>, from: seq<Node>): set<Node>
    requires li.Some? ==> Nested(li.value)
  {
    set b | b in g && SearchComes(g, li, from, b)
  }

  lemma ComesFirst(g: Graph, li: Option<LoopInfo>, from: seq<Node>, a: Node)
    requires (li.Some? ==> Nested(li.value)) && a in from
    ensures SearchComes(g, li, from, a)
  {
    assert HopPath(g, li, [a]);
  }

  lemma ComesNext(g: Graph, li: Option<LoopInfo>, from: seq<Node>, b: Node, v: Node)
    requires (li.Some? ==> Nested(li.value)) && SearchComes(g, li, from, b) && Hop(g, li, b, v)
    ensures SearchComes(g, li, from, v)
  {
    hide Hop;
    var p :| HopPath(g, li, p) && p[0] in from && p[|p| - 1] == b;
    var q := p + [v];
    forall i: nat | i < |q| - 1 ensures HopAt(g, li, q, i) {
      if i < |p| - 1 {
        assert HopAt(g, li, p, i);
      }
    }
  }

  /** All steps of the search from a visited block lead to visited blocks or those to be visited. */
  ghost predicate Expanded(g: Graph, li: Option<LoopInfo>, visited: set<Node>, worklist: seq<Node>, b: Node)
    requires li.Some? ==> Nested(li.value)
  {
    forall v :: Hop(g, li, b, v) ==> v in visited || v in worklist
  }

  ghost predicate SomeReaches(g: Graph, from: seq<Node>, b: Node) {
    exists a :: a in from && Reach(g, a, b)
  }

  ghost predicate Searching(g: Graph, li: Option<LoopInfo>, stop: Node, from: seq<Node>, worklist: seq<Node>, visited: set<Node>)
    requires li.Some? ==> Nested(li.value)
  {
    && (forall a :: a in from ==> a in visited || a in worklist)
    && (forall b :: b in visited || b in worklist ==> b in g && SomeReaches(g, from, b) && SearchComes(g, li, from, b))
    && (forall b :: b in visited ==> Expanded(g, li, visited, worklist, b))
    && !Covered(li, visited, stop)
  }

  /** When nothing is left to visit, the stop block cannot be reached. */
  lemma SearchFails(g: Graph, dt: Option<DomTree>, li: Option<LoopInfo>, stop: Node, from: seq<Node>, visited: set<Node>)
    requires Known(g, dt, li) && Searching(g, li, stop, from, [], visited)
    ensures !SomeReaches(g, from, stop)
  {
    var s := set b | b in g && Covered(li, visited, b);
    forall u, v | u in s && Edge(g, u, v) ensures v in s {
      CoveredOn(g, dt, li, stop, from, visited, u, v);
    }
    forall a | a in from ensures !Reach(g, a, stop) {
      if Reach(g, a, stop) {
        ReachStays(g, s, a, stop);
      }
    }
  }

  lemma CoveredOn(g: Graph, dt: Option<DomTree>, li: Option<LoopInfo>, stop: Node, from: seq<Node>, visited: set<Node>, u: Node, v: Node)
    requires Known(g, dt, li) && Searching(g, li, stop, from, [], visited) && Covered(li, visited, u) && Edge(g, u, v)
    ensures v in g && Covered(li, visited, v)
  {
    hide Reach, SomeReaches;
    if li.Some? && u in li.value.loopFor {
      var x, l := u, Outer(li.value, li.value.loopFor[u]);
      if u !in visited {
        x, l :| x in visited && InOuter(li.value, x, l) && InOuter(li.value, u, l);
      }
      assert Expanded(g, li, visited, [], x);
      assert !InOuter(li.value, v, l) ==> Hop(g, li, x, v);
      assert InOuter(li.value, u, l) && InOuter(li.value, x, l);
    } else {
      assert Expanded(g, li, visited, [], u) && Hop(g, li, u, v);
    }
  }

  /** When nothing is left to visit, everything the search can come to has been visited. */
  lemma {:induction false} HopVisited(g: Graph, li: Option<LoopInfo>, stop: Node, from: seq<Node>, visited: set<Node>, p: seq<Node>, k: nat)
    requires (li.Some? ==> Nested(li.value)) && Searching(g, li, stop, from, [], visited)
    requires HopPath(g, li, p) && p[0] in from && k < |p|
    ensures p[k] in visited
  {
    hide Hop, Covered, SearchComes, SomeReaches;
    if k > 0 {
      HopVisited(g, li, stop, from, visited, p, k - 1);
      assert HopAt(g, li, p, k - 1) && Expanded(g, li, visited, [], p[k - 1]);
    }
  }

  lemma SpaceVisited(g: Graph, li: Option<LoopInfo>, stop: Node, from: seq<Node>, visited: set<Node>)
    requires (li.Some? ==> Nested(li.value)) && Searching(g, li, stop, from, [], visited)
    ensures SearchSpace(g, li, from) <= visited
  {
    hide Searching, SearchComes;
    forall b | b in SearchSpace(g, li, from) ensures b in visited {
      ComesVisited(g, li, stop, from, visited, b);
    }
  }

  lemma ComesVisited(g: Graph, li: Option<LoopInfo>, stop: Node, from: seq<Node>, visited: set<Node>, b: Node)
    requires (li.Some? ==> Nested(li.value)) && Searching(g, li, stop, from, [], visited) && SearchComes(g, li, from, b)
    ensures b in visited
  {
    hide Searching, HopAt;
    var p :| HopPath(g, li, p) && p[0] in from && p[|p| - 1] == b;
    HopVisited(g, li, stop, from, visited, p, |p| - 1);
  }

  lemma SpaceInGraph(g: Graph, li: Option<LoopInfo>, from: seq<Node>)
    requires li.Some? ==> Nested(li.value)
    ensures SearchSpace(g, li, from) <= g.Keys
  {
  }

  lemma {:induction false} SubsetSmaller(a: set<Node>, b: set<Node>)
    requires a <= b
    ensures |a| <= |b|
  {
    if a != {} {
      var x :| x in a;
      SubsetSmaller(a - {x}, b - {x});
    }
  }

  lemma DominatesReaches(g: Graph, entry: Node, a: Node, b: Node)
    requires Dominates(g, entry, a, b)
    ensures Reach(g, a, b)
  {
    var p :| PathFromTo(g, p, entry, b);
    var i := DominatedAt(g, entry, a, b, p);
    SuffixPath(g, p, i);
  }

  lemma ReachesOn(g: Graph, from: seq<Node>, a: Node, b: Node)
    requires SomeReaches(g, from, a) && Reach(g, a, b)
    ensures SomeReaches(g, from, b)
  {
    var x :| x in from && Reach(g, x, a);
    ReachTrans(g, x, a, b);
  }

  /** True if there is a loop which contains both blocks (CFG.cpp:122-127). */
  method LoopContainsBoth(li: LoopInfo, b1: Node, b2: Node) returns (r: bool)
    requires Nested(li)
    ensures r <==> exists l :: InOuter(li, b1, l) && InOuter(li, b2, l)
  {
    var l1 := GetOutermostLoop(li, b1);
    var l2 := GetOutermostLoop(li, b2);
    r := l1.Some? && l1 == l2;
  }

  /** One of the three early answers: the stop block itself, a dominator of it, or a block of its loop. */
  method ReachesEarly(bb: Node, stop: Node, dt: Option<DomTree>, li: Option<LoopInfo>, ghost g: Graph) returns (r: bool)
    requires Known(g, dt, li) && (dt.Some? ==> stop in dt.value.children)
    ensures r ==> Reach(g, bb, stop)
    ensures !r ==> bb != stop && (li.Some? ==> forall l :: !(InOuter(li.value, bb, l) && InOuter(li.value, stop, l)))
  {
    hide Reach, IsDomTree, IsLoopInfo, Dominates;
    if bb == stop {
      ReachRefl(g, bb);
      return true;
    }
    if dt.Some? && bb in dt.value.children {
      var below := ProperlyDominates(dt.value, bb, stop, g);
      if below {
        DominatesReaches(g, dt.value.root, bb, stop);
        return true;
      }
    }
    if li.Some? {
      LoopsNested(g, li.value);
      var both := LoopContainsBoth(li.value, bb, stop);
      if both {
        SameLoopReaches(g, li.value, bb, stop);
        return true;
      }
    }
    r := false;
  }

  lemma LoopsNested(g: Graph, li: LoopInfo)
    requires IsLoopInfo(g, li)
    ensures Nested(li)
  {
  }

  lemma SameLoopReaches(g: Graph, li: LoopInfo, a: Node, b: Node)
    requires IsLoopInfo(g, li) && exists l :: InOuter(li, a, l) && InOuter(li, b, l)
    ensures Reach(g, a, b)
  {
  }

  /** A block popped a second time. */
  lemma SearchSkips(g: Graph, li: Option<LoopInfo>, stop: Node, from: seq<Node>, worklist: seq<Node>, visited: set<Node>, bb: Node)
    requires (li.Some? ==> Nested(li.value)) && Searching(g, li, stop, from, worklist + [bb], visited) && bb in visited
    ensures Searching(g, li, stop, from, worklist, visited)
  {
    hide SomeReaches, Covered;
    forall b | b in visited ensures Expanded(g, li, visited, worklist, b) {
      assert Expanded(g, li, visited, worklist + [bb], b);
    }
  }

  /** A block is visited, and `more` are the blocks to go on with. */
  lemma SearchExpands(g: Graph, li: Option<LoopInfo>, stop: Node, from: seq<Node>, worklist: seq<Node>, visited: set<Node>,
                      bb: Node, more: seq<Node>)
    requires (li.Some? ==> Nested(li.value)) && Searching(g, li, stop, from, worklist + [bb], visited)
    requires bb != stop && (li.Some? ==> forall l :: !(InOuter(li.value, bb, l) && InOuter(li.value, stop, l)))
    requires forall b :: b in more <==> Hop(g, li, bb, b)
    requires forall b :: b in more ==> b in g && Reach(g, bb, b)
    ensures Searching(g, li, stop, from, worklist + more, visited + {bb})
  {
    hide Reach, SomeReaches, SearchComes, InOuter, Hop, Expanded, Covered;
    assert bb in worklist + [bb];
    forall b | b in more ensures SomeReaches(g, from, b) && SearchComes(g, li, from, b) {
      ReachesOn(g, from, bb, b);
      ComesNext(g, li, from, bb, b);
    }
    forall b | b in visited + {bb} ensures Expanded(g, li, visited + {bb}, worklist + more, b) {
      assert b in visited ==> Expanded(g, li, visited, worklist + [bb], b);
      ExpandedStill(g, li, visited, worklist, bb, more, b);
    }
    StopUncovered(li, visited, stop, bb);
  }

  lemma ExpandedStill(g: Graph, li: Option<LoopInfo>, visited: set<Node>, worklist: seq<Node>, bb: Node, more: seq<Node>, b: Node)
    requires (li.Some? ==> Nested(li.value)) && (b == bb || Expanded(g, li, visited, worklist + [bb], b))
    requires forall v :: v in more <==> Hop(g, li, bb, v)
    ensures Expanded(g, li, visited + {bb}, worklist + more, b)
  {
    hide Hop;
  }

  lemma StopUncovered(li: Option<LoopInfo>, visited: set<Node>, stop: Node, bb: Node)
    requires (li.Some? ==> Nested(li.value)) && !Covered(li, visited, stop) && bb != stop
    requires li.Some? ==> forall l :: !(InOuter(li.value, bb, l) && InOuter(li.value, stop, l))
    ensures !Covered(li, visited + {bb}, stop)
  {
  }

  lemma SearchStarts(g: Graph, li: Option<LoopInfo>, stop: Node, from: seq<Node>)
    requires (li.Some? ==> Nested(li.value)) && forall a :: a in from ==> a in g
    ensures Searching(g, li, stop, from, from, {})
  {
    forall a | a in from ensures SomeReaches(g, from, a) && SearchComes(g, li, from, a) {
      ReachRefl(g, a);
      ComesFirst(g, li, from, a);
    }
  }

  /** The blocks to go on with from `bb`: the exits of its outermost loop, or its successors (CFG.cpp:159-166). */
  method Expand(g: Graph, bb: Node, li: Option<LoopInfo>) returns (more: seq<Node>)
    requires Known(g, None, li) && bb in g
    ensures li.Some? ==> Nested(li.value)
    ensures forall b :: b in more <==> Hop(g, li, bb, b)
    ensures forall b :: b in more ==> b in g && Reach(g, bb, b)
  {
    hide Reach;
    var outer: Option<Loop> := None;
    if li.Some? {
      outer := GetOutermostLoop(li.value, bb);
    }
    if outer.Some? {
      more := GetExitBlocks(g, li.value, outer.value);
      forall b | b in more ensures b in g && Reach(g, bb, b) {
        var u :| InOuter(li.value, u, outer.value) && Edge(g, u, b);
        SameLoopReaches(g, li.value, bb, u);
        ReachEdge(g, u, b);
        ReachTrans(g, bb, u, b);
      }
    } else {
      more := g[bb];
      forall b | b in more ensures b in g && Reach(g, bb, b) {
        assert Edge(g, bb, b);
        ReachEdge(g, bb, b);
      }
    }
  }

  const LIMIT := 32

  lemma PopMember(worklist: seq<Node>, g: Graph, li: Option<LoopInfo>, stop: Node, from: seq<Node>, visited: set<Node>)
    requires (li.Some? ==> Nested(li.value)) && Searching(g, li, stop, from, worklist, visited) && worklist != []
    ensures worklist[|worklist| - 1] in g && SomeReaches(g, from, worklist[|worklist| - 1])
    ensures visited + {worklist[|worklist| - 1]} <= SearchSpace(g, li, from)
  {
    hide SomeReaches, Covered, Expanded, SearchComes;
    assert worklist[|worklist| - 1] in worklist;
  }

  /**
   Whether a block of the work list can reach `stop` (CFG.cpp:129-172).  The answer is yes exactly if one can, or if
   the search comes to 32 blocks or more, however many blocks the loops in between have.
   */
  method IsPotentiallyReachableInner(g: Graph, worklist0: seq<Node>, stop: Node, dt0: Option<DomTree>, li: Option<LoopInfo>)
    returns (r: bool, ghost seen: set<Node>)
    requires Known(g, dt0, li) && worklist0 != [] && stop in g && forall a :: a in worklist0 ==> a in g
    ensures seen <= SearchSpace(g, li, worklist0) && |seen| <= 32
    ensures r ==> SomeReaches(g, worklist0, stop) || |seen| == 32
    ensures r <==> SomeReaches(g, worklist0, stop) || |SearchSpace(g, li, worklist0)| >= 32
  {
    hide SomeReaches, Searching, Reach, IsDomTree, IsLoopInfo, SearchSpace, Expanded, Hop;
    var dt := dt0;
    if dt.Some? && stop !in dt.value.children {
      dt := None;
    }
    if li.Some? {
      LoopsNested(g, li.value);
    }
    var limit, visited: set<Node>, worklist := LIMIT, {}, worklist0;
    SearchStarts(g, li, stop, worklist0);
    SpaceInGraph(g, li, worklist0);
    while worklist != []
      invariant Searching(g, li, stop, worklist0, worklist, visited)
      invariant limit == LIMIT - |visited| && limit > 0
      invariant visited <= SearchSpace(g, li, worklist0)
      decreases g.Keys - visited, |worklist|
    {
      PopMember(worklist, g, li, stop, worklist0, visited);
      ghost var before := worklist;
      var bb := worklist[|worklist| - 1];
      worklist := worklist[..|worklist| - 1];
      assert before == worklist + [bb];
      if bb in visited {
        SearchSkips(g, li, stop, worklist0, worklist, visited, bb);
        continue;
      }
      var early := ReachesEarly(bb, stop, dt, li, g);
      if early {
        ReachesOn(g, worklist0, bb, stop);
        return true, visited;
      }
      ghost var was := visited;
      visited := visited + {bb};
      limit := limit - 1;
      if limit == 0 {
        SubsetSmaller(visited, SearchSpace(g, li, worklist0));
        return true, visited;
      }
      var more := Expand(g, bb, li);
      SearchExpands(g, li, stop, worklist0, worklist, was, bb, more);
      worklist := worklist + more;
    }
    SearchFails(g, dt, li, stop, worklist0, visited);
    SpaceVisited(g, li, stop, worklist0, visited);
    SubsetSmaller(SearchSpace(g, li, worklist0), visited);
    r, seen := false, visited;
  }

  /** Between blocks (CFG.cpp:174-184). */
  method IsPotentiallyReachable(g: Graph, a: Node, b: Node, dt: Option<DomTree>, li: Option<LoopInfo>) returns (r: bool)
    requires Known(g, dt, li) && a in g && b in g
    ensures r <==> Reach(g, a, b) || |SearchSpace(g, li, [a])| >= 32
  {
    hide SearchSpace;
    ghost var seen;
    r, seen := IsPotentiallyReachableInner(g, [a], b, dt, li);
    assert forall x :: x in [a] ==> x == a;
    assert a in [a];
  }

  /** Where an instruction stands: its block, and its place in the block. */
  datatype Place = Place(block: Node, index: nat)

  /** Control can go from `a` to `b`: within the block, or out of it by a branch. */
  ghost predicate CanExecuteAfter(g: Graph, a: Place, b: Place) {
    (a.block == b.block && a.index <= b.index) || exists s :: Edge(g, a.block, s) && Reach(g, s, b.block)
  }

  /**
   Between instructions (CFG.cpp:186-236): the answer is yes exactly if control can go from the one to the other, or if
   the search comes to 32 blocks or more, or from the entry block to another, where the question is not looked into.
   */
  method IsPotentiallyReachableInstruction(g: Graph, entry: Node, a: Place, b: Place, dt: Option<DomTree>, li: Option<LoopInfo>)
    returns (r: bool)
    requires Known(g, dt, li) && a.block in g && b.block in g && entry in g
    requires forall u :: !Edge(g, u, entry)
    ensures r <==> CanExecuteAfter(g, a, b) || (a.block == entry && b.block != entry)
                   || (a.block != entry && b.block != entry
                       && |SearchSpace(g, li, if a.block == b.block then g[a.block] else [a.block])| >= 32)
  {
    hide Known, IsDomTree, SearchSpace;
    var worklist: seq<Node> := [];
    if a.block == b.block {
      if li.Some? && a.block in li.value.loopFor {
        InLoopOnCycle(g, a.block, dt, li);
        return true;
      }
      if a.index <= b.index {
        return true;
      }
      if a.block == entry {
        NothingReachesEntry(g, entry);
        return false;
      }
      worklist := worklist + g[a.block];
      if worklist == [] {
        NothingToSearch(g, dt, li);
        assert g[a.block] == [];
        return false;
      }
    } else {
      worklist := worklist + [a.block];
    }
    if a.block == entry {
      FirstEdge(g, a.block, b.block);
      return true;
    }
    if b.block == entry {
      NothingReachesEntry(g, entry);
      return false;
    }
    SuccessorsKnown(g, a.block, dt, li);
    ghost var seen;
    r, seen := IsPotentiallyReachableInner(g, worklist, b.block, dt, li);
    if a.block != b.block {
      assert worklist == [a.block] && a.block in worklist && forall x :: x in worklist ==> x == a.block;
      if r {
        FirstEdge(g, a.block, b.block);
      } else {
        NotThroughSuccessor(g, a.block, b.block);
      }
    } else {
      assert worklist == g[a.block];
      BySuccessor(g, a.block);
    }
  }

  lemma NothingToSearch(g: Graph, dt: Option<DomTree>, li: Option<LoopInfo>)
    requires Known(g, dt, li)
    ensures SearchSpace(g, li, []) == {}
  {
    hide IsDomTree, HopAt;
  }

  lemma InLoopOnCycle(g: Graph, b: Node, dt: Option<DomTree>, li: Option<LoopInfo>)
    requires Known(g, dt, li) && li.Some? && b in li.value.loopFor
    ensures OnCycle(g, b)
  {
  }

  /** Who reaches another block does so by one of its edges. */
  lemma FirstEdge(g: Graph, a: Node, b: Node)
    ensures a != b && Reach(g, a, b) ==> exists s :: Edge(g, a, s) && Reach(g, s, b)
  {
    if a != b && Reach(g, a, b) {
      var p :| PathFromTo(g, p, a, b);
      assert Edge(g, p[0], p[1]);
      SuffixPath(g, p, 1);
    }
  }

  lemma BySuccessor(g: Graph, a: Node)
    requires a in g
    ensures forall b :: SomeReaches(g, g[a], b) ==> exists s :: Edge(g, a, s) && Reach(g, s, b)
  {
    forall b | SomeReaches(g, g[a], b) ensures exists s :: Edge(g, a, s) && Reach(g, s, b) {
      var s :| s in g[a] && Reach(g, s, b);
      assert Edge(g, a, s);
    }
  }

  lemma NotThroughSuccessor(g: Graph, a: Node, b: Node)
    requires !Reach(g, a, b)
    ensures forall s :: Edge(g, a, s) ==> !Reach(g, s, b)
  {
    forall s | Edge(g, a, s) ensures !Reach(g, s, b) {
      ReachEdge(g, a, s);
      if Reach(g, s, b) {
        ReachTrans(g, a, s, b);
      }
    }
  }

  lemma SuccessorsKnown(g: Graph, u: Node, dt: Option<DomTree>, li: Option<LoopInfo>)
    requires Known(g, dt, li) && u in g
    ensures forall v :: v in g[u] ==> v in g
  {
    assert forall v :: v in g[u] ==> Edge(g, u, v);
  }

  lemma NothingReachesEntry(g: Graph, entry: Node)
    requires forall u :: !Edge(g, u, entry)
    ensures forall s :: Reach(g, s, entry) ==> s == entry
  {
    forall s | Reach(g, s, entry) ensures s == entry {
      var p :| PathFromTo(g, p, s, entry);
      if |p| > 1 {
        LastEdge(g, p);
      }
    }
  }

  lemma LastEdge(g: Graph, p: seq<Node>)
    requires IsPath(g, p) && |p| > 1
    ensures Edge(g, p[|p| - 2], p[|p| - 1])
  {
    assert Edge(g, p[|p| - 2], p[|p| - 2 + 1]);
  }
}
