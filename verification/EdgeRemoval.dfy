/**
 What removing one call edge inside a strongly connected component does to reachability.
 */
module EdgeRemoval {
  import opened Digraph

  /** `g'` is `g` without the edge from `u` to `v`. */
  ghost predicate EdgeRemoved(g: Graph, g': Graph, u: Node, v: Node) {
    && g'.Keys == g.Keys && Edge(g, u, v)
    && (forall a :: a in g && a != u ==> g'[a] == g[a])
    && (forall b :: b in g'[u] <==> b in g[u] && b != v)
  }

  lemma EdgesLeft(g: Graph, g': Graph, u: Node, v: Node, a: Node, b: Node)
    requires EdgeRemoved(g, g', u, v)
    ensures Edge(g', a, b) <==> Edge(g, a, b) && !(a == u && b == v)
  {
  }

  lemma ReachBefore(g: Graph, g': Graph, u: Node, v: Node, a: Node, b: Node)
    requires EdgeRemoved(g, g', u, v) && Reach(g', a, b)
    ensures Reach(g, a, b)
  {
    var p :| PathFromTo(g', p, a, b);
    forall i | 0 <= i < |p| - 1 ensures Edge(g, p[i], p[i + 1]) {
      assert Edge(g', p[i], p[i + 1]);
    }
    assert PathFromTo(g, p, a, b);
  }

  lemma PathPart(g: Graph, p: seq<Node>, i: nat, j: nat)
    requires IsPath(g, p) && i <= j < |p|
    ensures Reach(g, p[i], p[j])
  {
    var q := p[i..j + 1];
    forall k | 0 <= k < |q| - 1 ensures Edge(g, q[k], q[k + 1]) {
      assert Edge(g, p[i + k], p[i + k + 1]);
    }
    assert PathFromTo(g, q, p[i], p[j]);
  }

  /** Whatever is reached without passing `u` is still reached. */
  lemma ReachAround(g: Graph, g': Graph, u: Node, v: Node, a: Node, b: Node)
    requires EdgeRemoved(g, g', u, v) && Reach(g, a, b) && !(Reach(g, a, u) && Reach(g, u, b))
    ensures Reach(g', a, b)
  {
    var p :| PathFromTo(g, p, a, b);
    forall i | 0 <= i < |p| - 1 ensures Edge(g', p[i], p[i + 1]) {
      PathPart(g, p, 0, i);
      PathPart(g, p, i, |p| - 1);
      assert Edge(g, p[i], p[i + 1]);
    }
    assert PathFromTo(g', p, a, b);
  }

  /** What `v` reaches it reaches without coming back to `v`. */
  lemma {:induction false} ReachFromTarget(g: Graph, g': Graph, u: Node, v: Node, p: seq<Node>)
    requires EdgeRemoved(g, g', u, v) && IsPath(g, p) && p[0] == v
    ensures Reach(g', v, p[|p| - 1])
    decreases |p|
  {
    if i :| 0 <= i < |p| - 1 && p[i] == u && p[i + 1] == v {
      var q := p[i + 1..];
      forall k | 0 <= k < |q| - 1 ensures Edge(g, q[k], q[k + 1]) {
        assert Edge(g, p[i + 1 + k], p[i + 1 + k + 1]);
      }
      ReachFromTarget(g, g', u, v, q);
    } else {
      forall i | 0 <= i < |p| - 1 ensures Edge(g', p[i], p[i + 1]) {
        assert Edge(g, p[i], p[i + 1]);
      }
      assert PathFromTo(g', p, v, p[|p| - 1]);
    }
  }

  /** A component without `u` stays one. */
  lemma SCCElsewhere(g: Graph, g': Graph, u: Node, v: Node, s: set<Node>)
    requires EdgeRemoved(g, g', u, v) && IsSCC(g, s) && u !in s
    ensures IsSCC(g', s)
  {
    forall a, b | a in s && b in s ensures Reach(g', a, b) {
      if Reach(g, a, u) && Reach(g, u, b) {
        ReachTrans(g, u, b, a);
      }
      ReachAround(g, g', u, v, a, b);
    }
    forall a, b | a in s && Reach(g', a, b) && Reach(g', b, a) ensures b in s {
      ReachBefore(g, g', u, v, a, b);
      ReachBefore(g, g', u, v, b, a);
    }
  }

  /** The members of the component `s` of `g` that still reach `v`. */
  ghost function Remaining(g': Graph, v: Node, s: set<Node>): set<Node> {
    set a | a in s && Reach(g', a, v)
  }

  lemma TargetReachesAll(g: Graph, g': Graph, u: Node, v: Node, s: set<Node>, a: Node)
    requires EdgeRemoved(g, g', u, v) && IsSCC(g, s) && v in s && a in s
    ensures Reach(g', v, a)
  {
    var p :| PathFromTo(g, p, v, a);
    ReachFromTarget(g, g', u, v, p);
  }

  lemma RemainingIsSCC(g: Graph, g': Graph, u: Node, v: Node, s: set<Node>)
    requires EdgeRemoved(g, g', u, v) && IsSCC(g, s) && u in s && v in s
    ensures IsSCC(g', Remaining(g', v, s)) && v in Remaining(g', v, s)
  {
    var k := Remaining(g', v, s);
    ReachRefl(g', v);
    assert v in k;
    forall a, b | a in k && b in k ensures Reach(g', a, b) {
      TargetReachesAll(g, g', u, v, s, b);
      ReachTrans(g', a, v, b);
    }
    forall a, b | a in k && Reach(g', a, b) && Reach(g', b, a) ensures b in k {
      ReachBefore(g, g', u, v, a, b);
      ReachBefore(g, g', u, v, b, a);
      ReachTrans(g', b, a, v);
    }
  }

  /** What lies below the component `s`. */
  ghost function Below(g: Graph, s: set<Node>): set<Node> {
    set b | b in g && b !in s && FromSome(g, s, b)
  }

  ghost predicate FromSome(g: Graph, s: set<Node>, b: Node) {
    exists a :: a in s && Reach(g, a, b)
  }

  /** Nothing leads back from below a component, and nothing leads out of both. */
  lemma BelowClosed(g: Graph, s: set<Node>)
    requires WellFormed(g) && IsSCC(g, s) && s <= g.Keys
    ensures Closed(g, Below(g, s)) && Closed(g, s + Below(g, s))
  {
    forall b, d | b in s + Below(g, s) && Edge(g, b, d) ensures d in s + Below(g, s) && (b in Below(g, s) ==> d !in s) {
      var a :| a in s && Reach(g, a, b) by {
        if b in s {
          ReachRefl(g, b);
        }
      }
      ReachEdge(g, b, d);
      ReachTrans(g, a, b, d);
      if d in s && b !in s {
        ReachTrans(g, b, d, a);
      }
    }
  }

  lemma BelowInside(g: Graph, s: set<Node>, done: set<Node>)
    requires Closed(g, done) && s <= done
    ensures Below(g, s) <= done
  {
    forall b | b in Below(g, s) ensures b in done {
      var a :| a in s && Reach(g, a, b);
      ReachStays(g, done, a, b);
    }
  }
}
