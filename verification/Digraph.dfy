/**
 Finite directed graphs given by successor lists, reachability by explicit paths, and strongly
 connected components.  Call graphs and control-flow graphs are both of this type.
 */
module Digraph {
  type Node = nat
  type Graph = map<Node, seq<Node>>

  predicate Edge(g: Graph, u: Node, v: Node) {
    u in g && v in g[u]
  }

  /** Every successor is a node of the graph. */
  ghost predicate WellFormed(g: Graph) {
    forall u, v :: Edge(g, u, v) ==> v in g
  }

  ghost predicate IsPath(g: Graph, p: seq<Node>) {
    p != [] && forall i :: 0 <= i < |p| - 1 ==> Edge(g, p[i], p[i + 1])
  }

  ghost predicate PathFromTo(g: Graph, p: seq<Node>, u: Node, v: Node) {
    IsPath(g, p) && p[0] == u && p[|p| - 1] == v
  }

  ghost predicate Reach(g: Graph, u: Node, v: Node) {
    exists p :: PathFromTo(g, p, u, v)
  }

  /** No edge leaves `s`. */
  ghost predicate Closed(g: Graph, s: set<Node>) {
    forall u, v :: u in s && Edge(g, u, v) ==> v in s
  }

  /** `s` is a maximal set of mutually reachable nodes. */
  ghost predicate IsSCC(g: Graph, s: set<Node>) {
    && s != {}
    && (forall u, v :: u in s && v in s ==> Reach(g, u, v))
    && (forall u, v :: u in s && Reach(g, u, v) && Reach(g, v, u) ==> v in s)
  }

  lemma ReachRefl(g: Graph, u: Node)
    ensures Reach(g, u, u)
  {
    assert PathFromTo(g, [u], u, u);
  }

  lemma ReachEdge(g: Graph, u: Node, v: Node)
    requires Edge(g, u, v)
    ensures Reach(g, u, v)
  {
    assert PathFromTo(g, [u, v], u, v);
  }

  lemma ReachTrans(g: Graph, u: Node, v: Node, w: Node)
    requires Reach(g, u, v) && Reach(g, v, w)
    ensures Reach(g, u, w)
  {
    var p :| PathFromTo(g, p, u, v);
    var q :| PathFromTo(g, q, v, w);
    var r := p + q[1..];
    forall i | 0 <= i < |r| - 1 ensures Edge(g, r[i], r[i + 1]) {
      if i >= |p| - 1 {
        assert r[i] == q[i - (|p| - 1)] && r[i + 1] == q[i + 1 - (|p| - 1)];
      } else {
        assert r[i] == p[i] && r[i + 1] == p[i + 1];
      }
    }
    assert PathFromTo(g, r, u, w);
  }

  /** A path that starts in a closed set stays in it. */
  lemma {:induction false} PathStays(g: Graph, s: set<Node>, p: seq<Node>, k: nat)
    requires Closed(g, s) && IsPath(g, p) && p[0] in s && k < |p|
    ensures p[k] in s
  {
    if k > 0 {
      PathStays(g, s, p, k - 1);
      assert Edge(g, p[k - 1], p[k - 1 + 1]);
    }
  }

  lemma ReachStays(g: Graph, s: set<Node>, u: Node, v: Node)
    requires Closed(g, s) && u in s && Reach(g, u, v)
    ensures v in s
  {
    var p :| PathFromTo(g, p, u, v);
    PathStays(g, s, p, |p| - 1);
  }
}
