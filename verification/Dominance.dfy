/**
 Dominance in a rooted control-flow graph, defined by paths, and dominator trees: what
 include/llvm/Support/GenericDomTree.h promises to its callers.
 */
module Dominance {
  import opened Digraph

  /** Every path from the entry to `b` goes through `a`; `b` is reachable. */
  ghost predicate Dominates(g: Graph, entry: Node, a: Node, b: Node) {
    Reach(g, entry, b) && forall p {:trigger PathFromTo(g, p, entry, b)} :: PathFromTo(g, p, entry, b) ==> a in p
  }

  ghost predicate StrictlyDominates(g: Graph, entry: Node, a: Node, b: Node) {
    a != b && Dominates(g, entry, a, b)
  }

  lemma DominatedAt(g: Graph, entry: Node, a: Node, b: Node, p: seq<Node>) returns (i: nat)
    requires Dominates(g, entry, a, b) && PathFromTo(g, p, entry, b)
    ensures i < |p| && p[i] == a && PathFromTo(g, p[..i + 1], entry, a)
  {
    assert a in p;
    i :| 0 <= i < |p| && p[i] == a;
    PrefixPath(g, p, i);
  }

  lemma PrefixPath(g: Graph, p: seq<Node>, i: nat)
    requires IsPath(g, p) && i < |p|
    ensures PathFromTo(g, p[..i + 1], p[0], p[i])
  {
    var q := p[..i + 1];
    forall k | 0 <= k < |q| - 1 ensures Edge(g, q[k], q[k + 1]) {
      assert Edge(g, p[k], p[k + 1]);
    }
  }

  lemma SuffixPath(g: Graph, p: seq<Node>, i: nat)
    requires IsPath(g, p) && i < |p|
    ensures PathFromTo(g, p[i..], p[i], p[|p| - 1])
  {
    var q := p[i..];
    forall k | 0 <= k < |q| - 1 ensures Edge(g, q[k], q[k + 1]) {
      assert Edge(g, p[i + k], p[i + k + 1]);
    }
  }

  lemma JoinPath(g: Graph, p: seq<Node>, q: seq<Node>, u: Node, v: Node, w: Node)
    requires PathFromTo(g, p, u, v) && PathFromTo(g, q, v, w)
    ensures PathFromTo(g, p + q[1..], u, w)
  {
    var r := p + q[1..];
    forall i | 0 <= i < |r| - 1 ensures Edge(g, r[i], r[i + 1]) {
      if i >= |p| - 1 {
        var k := i - (|p| - 1);
        assert r[i] == q[k] && r[i + 1] == q[k + 1];
      } else {
        assert r[i] == p[i] && r[i + 1] == p[i + 1];
      }
    }
  }

  lemma DominatesSelf(g: Graph, entry: Node, b: Node)
    requires Reach(g, entry, b)
    ensures Dominates(g, entry, b, b)
  {
    forall p | PathFromTo(g, p, entry, b) ensures b in p {
      assert p[|p| - 1] == b;
    }
  }

  lemma DominatorReachable(g: Graph, entry: Node, a: Node, b: Node)
    requires Dominates(g, entry, a, b)
    ensures Reach(g, entry, a)
  {
    var p :| PathFromTo(g, p, entry, b);
    var i := DominatedAt(g, entry, a, b, p);
  }

  lemma DominatesTrans(g: Graph, entry: Node, a: Node, b: Node, c: Node)
    requires Dominates(g, entry, a, b) && Dominates(g, entry, b, c)
    ensures Dominates(g, entry, a, c)
  {
    forall p | PathFromTo(g, p, entry, c) ensures a in p {
      var i := DominatedAt(g, entry, b, c, p);
      var j := DominatedAt(g, entry, a, b, p[..i + 1]);
      assert p[..i + 1][j] == p[j];
    }
  }

  lemma {:induction false} NotBothOnPath(g: Graph, entry: Node, a: Node, b: Node, p: seq<Node>)
    requires Dominates(g, entry, a, b) && Dominates(g, entry, b, a) && PathFromTo(g, p, entry, b)
    ensures a == b
    decreases |p|
  {
    hide Dominates;
    var i := DominatedAt(g, entry, a, b, p);
    if i != |p| - 1 {
      NotBothOnPath(g, entry, b, a, p[..i + 1]);
    }
  }

  lemma DominatesAntisym(g: Graph, entry: Node, a: Node, b: Node)
    requires Dominates(g, entry, a, b) && Dominates(g, entry, b, a)
    ensures a == b
  {
    var p :| PathFromTo(g, p, entry, b);
    NotBothOnPath(g, entry, a, b, p);
  }

  /** What strictly dominates a node dominates its predecessors. */
  lemma DominatesPredecessor(g: Graph, entry: Node, a: Node, u: Node, v: Node)
    requires StrictlyDominates(g, entry, a, v) && Edge(g, u, v) && Reach(g, entry, u)
    ensures Dominates(g, entry, a, u)
  {
    forall p | PathFromTo(g, p, entry, u) ensures a in p {
      assert PathFromTo(g, [u, v], u, v);
      JoinPath(g, p, [u, v], entry, u, v);
      assert p + [u, v][1..] == p + [v];
    }
  }

  // ---------------------------------------------------------------- dominator trees

  /** The immediate dominator of every block but the root, and the blocks it immediately dominates. */
  datatype DomTree = DomTree(root: Node, idom: map<Node, Node>, children: map<Node, seq<Node>>)

  /** `d` is the lowest of the strict dominators of `b`. */
  ghost predicate ImmediatelyDominates(g: Graph, entry: Node, d: Node, b: Node) {
    && StrictlyDominates(g, entry, d, b)
    && forall a {:trigger StrictlyDominates(g, entry, a, b)} :: StrictlyDominates(g, entry, a, b) ==> Dominates(g, entry, a, d)
  }

  /** `t` is the dominator tree of `g`: its blocks are the reachable ones. */
  ghost predicate IsDomTree(g: Graph, t: DomTree) {
    && t.root in g && WellFormed(g)
    && (forall b :: b in t.children <==> b in g && Reach(g, t.root, b))
    && (forall b :: b in t.idom <==> b in t.children && b != t.root)
    && (forall b :: b in t.idom ==> ImmediatelyDominates(g, t.root, t.idom[b], b))
    && (forall d, c :: d in t.children ==> (c in t.children[d] <==> c in t.idom && t.idom[c] == d))
    && (forall d :: d in t.children ==> NoDuplicates(t.children[d]))
  }

  ghost predicate NoDuplicates(s: seq<Node>) {
    forall i, j :: 0 <= i < j < |s| ==> s[i] != s[j]
  }

  ghost function Dominators(g: Graph, entry: Node, b: Node): set<Node> {
    set a | a in g && Dominates(g, entry, a, b)
  }

  lemma InTree(g: Graph, t: DomTree, b: Node)
    requires IsDomTree(g, t) && b in t.children && b != t.root
    ensures b in t.idom && t.idom[b] in t.children && b in t.children[t.idom[b]]
    ensures StrictlyDominates(g, t.root, t.idom[b], b)
  {
    hide Reach;
    assert ImmediatelyDominates(g, t.root, t.idom[b], b);
    DominatorReachable(g, t.root, t.idom[b], b);
    ReachInGraph(g, t.root, t.idom[b]);
  }

  lemma ReachInGraph(g: Graph, u: Node, v: Node)
    requires WellFormed(g) && u in g && Reach(g, u, v)
    ensures v in g
  {
    ReachStays(g, g.Keys, u, v);
  }

  lemma IdomNearest(g: Graph, t: DomTree, a: Node, b: Node)
    requires IsDomTree(g, t) && b in t.idom && StrictlyDominates(g, t.root, a, b)
    ensures Dominates(g, t.root, a, t.idom[b])
  {
    assert ImmediatelyDominates(g, t.root, t.idom[b], b);
  }

  /** Going up the tree leaves fewer dominators. */
  lemma FewerDominators(g: Graph, t: DomTree, b: Node)
    requires IsDomTree(g, t) && b in t.children && b != t.root
    ensures b in t.idom && Dominators(g, t.root, t.idom[b]) < Dominators(g, t.root, b)
  {
    InTree(g, t, b);
    var d := t.idom[b];
    hide IsDomTree, Reach;
    forall a | a in Dominators(g, t.root, d) ensures a in Dominators(g, t.root, b) {
      DominatesTrans(g, t.root, a, d, b);
    }
    OwnDominator(g, t, b);
    if b in Dominators(g, t.root, d) {
      DominatesAntisym(g, t.root, b, d);
    }
  }

  lemma OwnDominator(g: Graph, t: DomTree, b: Node)
    requires IsDomTree(g, t) && b in t.children
    ensures b in Dominators(g, t.root, b) && Dominates(g, t.root, b, b)
  {
    DominatesSelf(g, t.root, b);
  }

  lemma RootDominatedBySelf(g: Graph, entry: Node, a: Node)
    requires Dominates(g, entry, a, entry)
    ensures a == entry
  {
    assert PathFromTo(g, [entry], entry, entry);
    assert a in [entry];
  }

  /** The child of `x` on the way down to `b`. */
  lemma {:induction false} ChildTowards(g: Graph, t: DomTree, x: Node, b: Node) returns (c: Node)
    requires IsDomTree(g, t) && b in t.children && StrictlyDominates(g, t.root, x, b)
    ensures x in t.children && c in t.children[x] && c in t.children && Dominates(g, t.root, c, b)
    decreases Dominators(g, t.root, b)
  {
    if b == t.root {
      RootDominatedBySelf(g, t.root, x);
    }
    InTree(g, t, b);
    var d := t.idom[b];
    IdomNearest(g, t, x, b);
    FewerDominators(g, t, b);
    OwnDominator(g, t, b);
    if x == d {
      c := b;
    } else {
      hide IsDomTree, Dominates;
      c := ChildTowards(g, t, x, d);
      StrictIsDominates(g, t, d, b);
      DominatesTrans(g, t.root, c, d, b);
    }
  }

  lemma StrictIsDominates(g: Graph, t: DomTree, a: Node, b: Node)
    requires StrictlyDominates(g, t.root, a, b)
    ensures Dominates(g, t.root, a, b)
  {
  }

  /** Whether `a` strictly dominates `b`: a walk up the tree (GenericDomTree.h:182-192, 362-369). */
  method ProperlyDominates(t: DomTree, a: Node, b: Node, ghost g: Graph) returns (r: bool)
    requires IsDomTree(g, t) && a in t.children && b in t.children
    ensures r <==> StrictlyDominates(g, t.root, a, b)
  {
    hide IsDomTree, Dominates;
    if a == b {
      return false;
    }
    var x := b;
    OwnDominator(g, t, b);
    while x != t.root
      invariant x in t.children && x != a && Dominates(g, t.root, x, b)
      invariant Dominates(g, t.root, a, b) <==> Dominates(g, t.root, a, x)
      decreases Dominators(g, t.root, x)
    {
      InTree(g, t, x);
      FewerDominators(g, t, x);
      ghost var d := t.idom[x];
      StrictIsDominates(g, t, d, x);
      DominatesTrans(g, t.root, d, x, b);
      if Dominates(g, t.root, a, x) {
        IdomNearest(g, t, a, x);
      }
      if Dominates(g, t.root, a, d) {
        DominatesTrans(g, t.root, a, d, x);
      }
      x := t.idom[x];
      if x == a {
        OwnDominator(g, t, x);
        return true;
      }
    }
    if Dominates(g, t.root, a, t.root) {
      RootDominatedBySelf(g, t.root, a);
    }
    r := false;
  }
}
