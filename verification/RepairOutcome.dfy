/**
 What the repair of lib/Analysis/LazyCallGraph.cpp leaves behind: the SCCs, their links and the walk that
 may be under way are those of the graph without the removed edge.  `SplitOff` says how the component has
 been divided and `Relinked` where its parts stand in the parent sets; the leaf list and the postponed walk
 are right again.  Whether all parent sets are exact depends on who calls what was split off.
 */
module RepairOutcome {
  import opened Digraph
  import opened EdgeRemoval
  import opened SCCRepair
  import opened SCCTables
  import opened TarjanWalk

  /** Every node of the component has been placed again. */
  ghost predicate Complete(x: Repair, m: map<Node, SCC>, results: seq<SCC>) {
    Setting(x) && Distributed(x, m, results) && x.comp <= m.Keys && Closed(x.g, x.below + Split(m, results)) && x.c !in results
  }

  /** `c` keeps exactly the members that still reach the callee. */
  lemma KeptMembers(x: Repair, m: map<Node, SCC>, results: seq<SCC>, v: Node)
    requires Complete(x, m, results) && v in x.comp
    ensures m[v] == x.c <==> Reach(x.g, v, x.callee)
  {
    if Reach(x.g, v, x.callee) && m[v] in results {
      ReachStays(x.g, x.below + Split(m, results), v, x.callee);
    }
  }

  lemma KeptIsRemaining(x: Repair, m: map<Node, SCC>, results: seq<SCC>)
    requires Complete(x, m, results)
    ensures Members(m, x.c) == Remaining(x.g, x.callee, x.comp)
  {
    forall v ensures v in Members(m, x.c) <==> v in Remaining(x.g, x.callee, x.comp) {
      if v in x.comp {
        KeptMembers(x, m, results, v);
      }
    }
  }

  lemma OthersKept(x: Repair, m: map<Node, SCC>, sccs: set<SCC>, results: seq<SCC>, d: SCC)
    requires Complete(x, m, results) && Results(x, m, sccs, results) && d in x.before.nodes && d != x.c
    ensures Members(m, d) == Members(x.before.sccMap, d)
  {
    hide IsSCC, Reach, Closed;
  }

  lemma OutcomeSCCs(x: Repair, m: map<Node, SCC>, sccs: set<SCC>, results: seq<SCC>, g: Graph, u: Node)
    requires Complete(x, m, results) && Results(x, m, sccs, results)
    requires EdgeRemoved(g, x.g, u, x.callee) && u in x.comp && AllSCCs(g, x.before.sccMap)
    ensures AllSCCs(x.g, m)
  {
    forall v | v in m ensures IsSCC(x.g, Members(m, m[v])) {
      if v in x.comp {
        if m[v] == x.c {
          KeptIsRemaining(x, m, results);
          RemainingIsSCC(g, x.g, u, x.callee, x.comp);
        }
      } else {
        var d := x.before.sccMap[v];
        OthersKept(x, m, sccs, results, d);
        SCCElsewhere(g, x.g, u, x.callee, Members(x.before.sccMap, d));
      }
    }
  }

  // ---------------------------------------------------------------- leaves

  /** An SCC other than those of the component calls as much as before. */
  lemma OtherLeaf(x: Repair, m: map<Node, SCC>, sccs: set<SCC>, results: seq<SCC>, g: Graph, u: Node, d: SCC)
    requires Complete(x, m, results) && Results(x, m, sccs, results) && d in x.before.nodes && d != x.c
    requires EdgeRemoved(g, x.g, u, x.callee) && u in x.comp && m.Keys == x.before.sccMap.Keys
    ensures IsLeaf(x.g, m, d) <==> IsLeaf(g, x.before.sccMap, d)
  {
    hide IsSCC, Reach, Closed;
    if e :| e != d && Calls(x.g, m, d, e) {
      var a :| a in m && m[a] == d && NodeCalls(x.g, m, a, e);
      var b :| Edge(x.g, a, b) && b in m && m[b] == e;
      EdgesLeft(g, x.g, u, x.callee, a, b);
      assert NodeCalls(g, x.before.sccMap, a, x.before.sccMap[b]);
      assert x.before.sccMap[b] != d;
      assert Calls(g, x.before.sccMap, d, x.before.sccMap[b]);
    }
    if e :| e != d && Calls(g, x.before.sccMap, d, e) {
      var a :| a in x.before.sccMap && x.before.sccMap[a] == d && NodeCalls(g, x.before.sccMap, a, e);
      var b :| Edge(g, a, b) && b in x.before.sccMap && x.before.sccMap[b] == e;
      EdgesLeft(g, x.g, u, x.callee, a, b);
      assert a !in x.comp;
      assert NodeCalls(x.g, m, a, m[b]);
      assert m[b] != d;
      assert Calls(x.g, m, d, m[b]);
    }
  }

  /** When nothing was split off, `c` calls the same other SCCs as before. */
  lemma KeptLeaf(x: Repair, m: map<Node, SCC>, g: Graph, u: Node)
    requires Complete(x, m, []) && m.Keys == x.before.sccMap.Keys
    requires EdgeRemoved(g, x.g, u, x.callee) && u in x.comp
    ensures IsLeaf(x.g, m, x.c) <==> IsLeaf(g, x.before.sccMap, x.c)
  {
    hide IsSCC, Reach, Closed;
    assert forall v :: v in m ==> m[v] == x.before.sccMap[v];
    if e :| e != x.c && Calls(x.g, m, x.c, e) {
      var a :| a in m && m[a] == x.c && NodeCalls(x.g, m, a, e);
      var b :| Edge(x.g, a, b) && b in m && m[b] == e;
      EdgesLeft(g, x.g, u, x.callee, a, b);
      assert NodeCalls(g, x.before.sccMap, a, e);
      assert Calls(g, x.before.sccMap, x.c, e);
    }
    if e :| e != x.c && Calls(g, x.before.sccMap, x.c, e) {
      var a :| a in x.before.sccMap && x.before.sccMap[a] == x.c && NodeCalls(g, x.before.sccMap, a, e);
      var b :| Edge(g, a, b) && b in x.before.sccMap && x.before.sccMap[b] == e;
      EdgesLeft(g, x.g, u, x.callee, a, b);
      assert NodeCalls(x.g, m, a, e);
      assert Calls(x.g, m, x.c, e);
    }
  }

  /** When something was split off, `c` leads to it and is no leaf. */
  lemma SplitNoLeaf(x: Repair, m: map<Node, SCC>, results: seq<SCC>, g: Graph, u: Node, v: Node)
    requires Complete(x, m, results) && v in x.comp && m[v] in results
    requires EdgeRemoved(g, x.g, u, x.callee) && u in x.comp && IsSCC(g, x.comp)
    ensures !IsLeaf(x.g, m, x.c)
  {
    var k := Members(m, x.c);
    TargetReachesAll(g, x.g, u, x.callee, x.comp, v);
    if Closed(x.g, k) {
      ReachStays(x.g, k, x.callee, v);
      assert false;
    }
    var a, b :| a in k && Edge(x.g, a, b) && b !in k;
    assert b in x.comp + x.below;
    assert NodeCalls(x.g, m, a, m[b]);
    assert Calls(x.g, m, x.c, m[b]);
  }

  /** Whether an SCC is in the leaf list once `c` has been taken off it or not. */
  lemma OutcomeLeaf(x: Repair, m: map<Node, SCC>, sccs: set<SCC>, results: seq<SCC>, g: Graph, u: Node,
                    leaves: seq<SCC>, leaves': seq<SCC>, d: SCC)
    requires Complete(x, m, results) && Results(x, m, sccs, results) && m.Keys == x.before.sccMap.Keys
    requires EdgeRemoved(g, x.g, u, x.callee) && u in x.comp && IsSCC(g, x.comp) && AllSCCs(x.g, m)
    requires LeavesExact(g, x.before.sccMap, x.leaves) && LeafLinks(x, m, results, leaves)
    requires d in leaves' <==> d in leaves && !(d == x.c && results != [] && !IsLeaf(x.g, m, x.c))
    requires forall v :: v in m ==> m[v] in sccs
    ensures d in leaves' <==> d in m.Values && IsLeaf(x.g, m, d)
  {
    hide NoRepeats;
    if d in results {
      assert Members(m, d) != {};
      assert d in m.Values;
    } else if d == x.c {
      assert m[x.callee] == x.c && x.before.sccMap[x.callee] == x.c;
      if results == [] {
        KeptLeaf(x, m, g, u);
      } else {
        assert results[0] in results;
        var v :| v in Members(m, results[0]);
        assert v in x.comp;
        SplitNoLeaf(x, m, results, g, u, v);
      }
    } else if d in x.before.nodes {
      OthersKept(x, m, sccs, results, d);
      assert d in m.Values <==> Members(m, d) != {};
      assert d in x.before.sccMap.Values <==> Members(x.before.sccMap, d) != {};
      OtherLeaf(x, m, sccs, results, g, u, d);
    } else {
      assert d !in m.Values;
      assert d !in x.leaves;
    }
  }

  /** The leaf list once the SCC `c` has been taken off it or not (LazyCallGraph.cpp:502-525). */
  lemma OutcomeLeaves(x: Repair, m: map<Node, SCC>, sccs: set<SCC>, results: seq<SCC>, g: Graph, u: Node,
                      leaves: seq<SCC>, leaves': seq<SCC>)
    requires Complete(x, m, results) && Results(x, m, sccs, results) && m.Keys == x.before.sccMap.Keys
    requires EdgeRemoved(g, x.g, u, x.callee) && u in x.comp && IsSCC(g, x.comp) && AllSCCs(x.g, m)
    requires LeavesExact(g, x.before.sccMap, x.leaves) && LeafLinks(x, m, results, leaves)
    requires forall d :: d in leaves' <==> d in leaves && !(d == x.c && results != [] && !IsLeaf(x.g, m, x.c))
    requires NoRepeats(leaves) ==> NoRepeats(leaves')
    requires forall v :: v in m ==> m[v] in sccs
    ensures LeavesExact(x.g, m, leaves')
  {
    hide IsLeaf, Complete, Results, AllSCCs, IsSCC, EdgeRemoved, NoRepeats;
    forall d ensures d in leaves' <==> d in m.Values && IsLeaf(x.g, m, d) {
      OutcomeLeaf(x, m, sccs, results, g, u, leaves, leaves', d);
    }
  }

  // ---------------------------------------------------------------- parents

  /** The parent sets say exactly which SCCs `d` calls. */
  ghost predicate OutgoingExact(g: Graph, m: map<Node, SCC>, parents: map<SCC, set<SCC>>, d: SCC) {
    forall y :: y in parents ==> (d in parents[y] <==> d != y && Calls(g, m, d, y))
  }

  lemma OutcomeResultParents(x: Repair, m: map<Node, SCC>, sccs: set<SCC>, results: seq<SCC>, r: SCC,
                             parents: map<SCC, set<SCC>>, parents': map<SCC, set<SCC>>, hit: set<SCC>)
    requires ParentLinks(x, m, sccs, results, parents) && Entered(parents, parents', x.c, hit) && r in results && r != x.c
    ensures OutgoingExact(x.g, m, parents', r)
  {
    hide Calls;
  }

  /** A call from the component to another SCC is still there: `c` or a new SCC makes it. */
  lemma OutcomeKeptParents(x: Repair, m: map<Node, SCC>, w: Walk, sccs: set<SCC>, results: seq<SCC>, g: Graph, u: Node,
                           parents: map<SCC, set<SCC>>, parents': map<SCC, set<SCC>>, hit: set<SCC>, erased: set<SCC>)
    requires Complete(x, m, results) && m.Keys == x.before.sccMap.Keys && ParentLinks(x, m, sccs, results, parents)
    requires EdgeRemoved(g, x.g, u, x.callee) && u in x.comp
    requires Shape(RepairArea(x, m, results), w) && x.below <= x.before.sccMap.Keys && Erased(x, m, w, results, parents, erased)
    requires Entered(parents, parents', x.c, hit) && forall d :: d in hit <==> d != x.c && Calls(x.g, m, x.c, d)
    requires OutgoingExact(g, x.before.sccMap, x.was, x.c)
    ensures OutgoingExact(x.g, m, parents', x.c)
  {
    forall y | y in parents && x.c in parents[y] ensures x.c != y && Calls(x.g, m, x.c, y) {
      assert Calls(g, x.before.sccMap, x.c, y);
      var a :| a in x.before.sccMap && x.before.sccMap[a] == x.c && NodeCalls(g, x.before.sccMap, a, y);
      var b :| Edge(g, a, b) && b in x.before.sccMap && x.before.sccMap[b] == y;
      EdgesLeft(g, x.g, u, x.callee, a, b);
      assert b in x.comp + x.below;
      assert m[a] == x.c || a in Split(m, results);
      assert NodeCalls(x.g, m, a, y);
    }
  }

  // ---------------------------------------------------------------- the walk under way

  /** `w'` is the same walk as `w`; only nodes of `done` may be numbered differently, and those are not active. */
  ghost predicate SameWalk(g: Graph, done: set<Node>, w: Walk, w': Walk) {
    && w'.path == w.path && w'.idx == w.idx && w'.pending == w.pending && w'.par == w.par
    && w'.num.Keys == w.num.Keys == g.Keys && w'.low.Keys == w.low.Keys == g.Keys
    && (forall v :: v in g && v !in done ==> w'.num[v] == w.num[v] && w'.low[v] == w.low[v])
    && (forall v :: v in g && v in done ==> w'.num[v] < 0)
  }

  ghost predicate Above(g: Graph, g': Graph, u: Node, v: Node, done: set<Node>) {
    EdgeRemoved(g, g', u, v) && u in done && Closed(g, done)
  }

  lemma SameActive(g: Graph, g': Graph, done: set<Node>, w: Walk, w': Walk, v: Node)
    requires Shape(Area(g, g.Keys, done), w) && SameWalk(g, done, w, w')
    ensures Active(Area(g', g.Keys, done), w', v) <==> Active(Area(g, g.Keys, done), w, v)
    ensures Active(Area(g, g.Keys, done), w, v) ==> v in g && v !in done && w'.num[v] == w.num[v] && w'.low[v] == w.low[v]
  {
  }

  lemma AboveShape(g: Graph, g': Graph, u: Node, v: Node, done: set<Node>, w: Walk, w': Walk)
    requires Above(g, g', u, v, done) && SameWalk(g, done, w, w') && Shape(Area(g, g.Keys, done), w)
    ensures Shape(Area(g', g.Keys, done), w')
  {
    forall b ensures Active(Area(g', g.Keys, done), w', b) <==> Active(Area(g, g.Keys, done), w, b) {
      SameActive(g, g', done, w, w', b);
    }
    forall a, b | Edge(g', a, b) ensures Edge(g, a, b) {
      EdgesLeft(g, g', u, v, a, b);
    }
  }

  lemma PendingWithPath(a: Area, w: Walk, next: int)
    requires Shape(a, w) && Numbers(a, w, next)
    ensures w.path == [] ==> w.pending == []
  {
  }

  lemma AboveNumbers(g: Graph, g': Graph, u: Node, v: Node, done: set<Node>, w: Walk, w': Walk, next: int)
    requires Above(g, g', u, v, done) && SameWalk(g, done, w, w')
    requires Shape(Area(g, g.Keys, done), w) && Numbers(Area(g, g.Keys, done), w, next) && Suffixes(Area(g, g.Keys, done), w)
    requires Shape(Area(g', g.Keys, done), w')
    ensures Numbers(Area(g', g.Keys, done), w', next) && Suffixes(Area(g', g.Keys, done), w')
  {
    forall b | Active(Area(g', g.Keys, done), w', b) ensures Active(Area(g, g.Keys, done), w, b) && w'.num[b] == w.num[b] {
      SameActive(g, g', done, w, w', b);
    }
    SamePath(g, done, w, w');
    hide Above, Closed, SameWalk, Shape, Numbers, Suffixes;
    PendingWithPath(Area(g, g.Keys, done), w, next);
    NumbersKept(Area(g, g.Keys, done), w, Area(g', g.Keys, done), w', next);
    SuffixesKept(Area(g, g.Keys, done), w, Area(g', g.Keys, done), w');
  }

  lemma AboveScanned(g: Graph, g': Graph, u: Node, v: Node, done: set<Node>, w: Walk, w': Walk)
    requires Above(g, g', u, v, done) && SameWalk(g, done, w, w')
    requires Shape(Area(g, g.Keys, done), w) && Scanned(Area(g, g.Keys, done), w) && Shape(Area(g', g.Keys, done), w')
    ensures Scanned(Area(g', g.Keys, done), w')
  {
    var a, a' := Area(g, g.Keys, done), Area(g', g.Keys, done);
    forall b, c | b in w'.pending && Edge(g', b, c) ensures Covered(a', w', b, c) {
      EdgesLeft(g, g', u, v, b, c);
      assert Covered(a, w, b, c);
      SameActive(g, g', done, w, w', b);
      SameActive(g, g', done, w, w', c);
    }
    forall k, j | 0 <= k < |w'.path| && 0 <= j < w'.idx[k] ensures Covered(a', w', w'.path[k], g'[w'.path[k]][j]) {
      assert Active(a, w, w.path[k]);
      SameActive(g, g', done, w, w', w.path[k]);
      assert Covered(a, w, w.path[k], g[w.path[k]][j]);
      SameActive(g, g', done, w, w', g[w.path[k]][j]);
    }
  }

  lemma AboveLows(g: Graph, g': Graph, u: Node, v: Node, done: set<Node>, w: Walk, w': Walk)
    requires Above(g, g', u, v, done) && SameWalk(g, done, w, w')
    requires Shape(Area(g, g.Keys, done), w) && Lows(Area(g, g.Keys, done), w) && Shape(Area(g', g.Keys, done), w')
    ensures Lows(Area(g', g.Keys, done), w')
  {
    var a, a' := Area(g, g.Keys, done), Area(g', g.Keys, done);
    forall b | Active(a', w', b) ensures LowOf(a', w', b) {
      SameActive(g, g', done, w, w', b);
      assert LowOf(a, w, b);
      var d :| Active(a, w, d) && w.num[d] == w.low[b] && Reach(g, b, d);
      SameActive(g, g', done, w, w', d);
      if Reach(g, b, u) && Reach(g, u, d) {
        ReachStays(g, done, u, d);
      }
      ReachAround(g, g', u, v, b, d);
    }
    forall b | b in w'.pending ensures w'.low[b] < w'.num[b] {
      assert Active(a, w, b);
      SameActive(g, g', done, w, w', b);
    }
  }

  lemma AboveTree(g: Graph, g': Graph, u: Node, v: Node, done: set<Node>, w: Walk, w': Walk)
    requires Above(g, g', u, v, done) && SameWalk(g, done, w, w') && w.path != []
    requires Shape(Area(g, g.Keys, done), w) && Tree(Area(g, g.Keys, done), w) && Shape(Area(g', g.Keys, done), w')
    ensures Tree(Area(g', g.Keys, done), w')
  {
    var a, a' := Area(g, g.Keys, done), Area(g', g.Keys, done);
    forall b | Active(a', w', b) && b != w'.path[0] ensures ParentOf(a', w', b) {
      SameActive(g, g', done, w, w', b);
      assert ParentOf(a, w, b);
      SameActive(g, g', done, w, w', w.par[b]);
      EdgesLeft(g, g', u, v, w.par[b], b);
      forall k | 0 <= k < |w.path| ensures w'.num[w.path[k]] == w.num[w.path[k]] {
        SameActive(g, g', done, w, w', w.path[k]);
      }
    }
  }

  /** The nodes of a walk under way lie above everything in SCCs, so the walk goes on as if the edge had never been there. */
  lemma WalkGoesOn(g: Graph, g': Graph, u: Node, v: Node, done: set<Node>, w: Walk, w': Walk, next: int)
    requires WalkInv(Area(g, g.Keys, done), w, next) && EdgeRemoved(g, g', u, v) && u in done && SameWalk(g, done, w, w')
    ensures WalkInv(Area(g', g.Keys, done), w', next)
  {
    assert Above(g, g', u, v, done);
    hide Above, SameWalk, Shape, Numbers, Scanned, Lows, Tree, Suffixes;
    AboveShape(g, g', u, v, done, w, w');
    AboveNumbers(g, g', u, v, done, w, w', next);
    AboveScanned(g, g', u, v, done, w, w');
    AboveLows(g, g', u, v, done, w, w');
    if w.path != [] {
      AboveTree(g, g', u, v, done, w, w');
    }
    SamePath(g, done, w, w');
  }

  lemma SamePath(g: Graph, done: set<Node>, w: Walk, w': Walk)
    requires SameWalk(g, done, w, w')
    ensures w'.path == w.path && w'.pending == w.pending
  {
  }

  // ---------------------------------------------------------------- the repair as a whole

  /** Nothing is left on the stacks and every node has been visited, so the component is distributed completely. */
  lemma AllPlaced(x: Repair, t: Tables, w: Walk, next: int, results: seq<SCC>, parents: map<SCC, set<SCC>>,
                  leaves: seq<SCC>, erased: set<SCC>)
    requires Repairing(x, t, w, next, results, parents, leaves, erased) && w.num == t.num && w.path == []
    requires forall v :: v in x.comp ==> v in t.num && t.num[v] != 0
    ensures Complete(x, t.sccMap, results) && t.sccMap.Keys == x.before.sccMap.Keys
  {
    hide Links, Erased, Scanned, Lows, Tree, Suffixes, Listed, IsSCC, Reach;
    var a := RepairArea(x, t.sccMap, results);
    forall v | v in x.comp ensures v in t.sccMap {
      assert !Active(a, w, v);
    }
    SettingFacts(x);
  }

  /** Before `c` is entered into the parent sets of the SCCs it calls now. */
  lemma ConnectKept(x: Repair, t: Tables, results: seq<SCC>, parents: map<SCC, set<SCC>>, leaves: seq<SCC>)
    requires Repaired(x, t, results, parents, leaves) && Complete(x, t.sccMap, results)
    ensures x.c in t.nodes && parents.Keys == t.nodes.Keys
    ensures forall v :: v in t.nodes[x.c] <==> v in t.sccMap && t.sccMap[v] == x.c
    ensures forall v :: v in t.sccMap ==> v in x.g && t.sccMap[v] in parents
    ensures forall u, v :: u in t.sccMap && t.sccMap[u] == x.c && Edge(x.g, u, v) ==> v in t.sccMap
  {
    hide Results, LeafLinks, ParentLinks, Setting, Distributed, Complete;
    OldSCCs(x, t, results, parents, leaves);
    ParentKeys(x, t.sccMap, t.nodes.Keys, results, parents);
    hide Repaired;
    KeptCalls(x, t.sccMap, results);
  }

  lemma ParentKeys(x: Repair, m: map<Node, SCC>, sccs: set<SCC>, results: seq<SCC>, parents: map<SCC, set<SCC>>)
    requires ParentLinks(x, m, sccs, results, parents)
    ensures parents.Keys == sccs
  {
  }

  lemma KeptCalls(x: Repair, m: map<Node, SCC>, results: seq<SCC>)
    requires Complete(x, m, results)
    ensures forall u, v :: u in m && m[u] == x.c && Edge(x.g, u, v) ==> v in m
  {
    forall u, v | u in m && m[u] == x.c && Edge(x.g, u, v) ensures v in m {
      assert u in x.comp;
      assert v in x.comp + x.below;
    }
  }

  /** The state before the edge was removed was good: `g` is the graph with the edge, whose source is `u`. */
  ghost predicate WasValid(x: Repair, g: Graph, u: Node, stack: seq<(Node, nat)>, pending: seq<Node>, par: map<Node, Node>,
                           next: int, entries: set<Node>, left: seq<Node>)
  {
    && EdgeRemoved(g, x.g, u, x.callee) && u in x.comp && WellFormed(g)
    && AllSCCs(g, x.before.sccMap) && LeavesExact(g, x.before.sccMap, x.leaves)
    && WalkInv(Area(g, g.Keys, x.before.sccMap.Keys), WalkOf(x.before, stack, pending, par), next)
    && EntriesSeen(g, x.before.num, entries, left)
  }

  lemma OutcomeWalk(x: Repair, t: Tables, g: Graph, u: Node, stack: seq<(Node, nat)>, pending: seq<Node>, par: map<Node, Node>,
                    next: int, entries: set<Node>, left: seq<Node>)
    requires WasValid(x, g, u, stack, pending, par, next, entries, left) && Setting(x)
    requires Sound(x.g, t) && OthersNumbered(x, t) && t.sccMap.Keys == x.before.sccMap.Keys
    ensures WalkInv(Area(x.g, x.g.Keys, t.sccMap.Keys), WalkOf(t, stack, pending, par), next)
    ensures EntriesSeen(x.g, t.num, entries, left) && WellFormed(x.g)
  {
    hide WalkInv, AllSCCs, LeavesExact, Listed;
    var w, w' := WalkOf(x.before, stack, pending, par), WalkOf(t, stack, pending, par);
    var done := x.before.sccMap.Keys;
    assert SameWalk(g, done, w, w');
    WalkGoesOn(g, x.g, u, x.callee, done, w, w', next);
    forall a, b | Edge(x.g, a, b) ensures b in x.g {
      EdgesLeft(g, x.g, u, x.callee, a, b);
    }
  }

  /** Everything the class keeps is there again. */
  lemma RepairEnd(x: Repair, t: Tables, g: Graph, u: Node, results: seq<SCC>, parents: map<SCC, set<SCC>>, leaves: seq<SCC>,
                  leaves': seq<SCC>, stack: seq<(Node, nat)>, pending: seq<Node>, par: map<Node, Node>, next: int,
                  entries: set<Node>, left: seq<Node>)
    requires WasValid(x, g, u, stack, pending, par, next, entries, left)
    requires Repaired(x, t, results, parents, leaves) && Complete(x, t.sccMap, results) && t.sccMap.Keys == x.before.sccMap.Keys
    requires forall d :: d in leaves' <==> d in leaves && !(d == x.c && results != [] && !IsLeaf(x.g, t.sccMap, x.c))
    requires NoRepeats(leaves) ==> NoRepeats(leaves')
    ensures WalkInv(Area(x.g, x.g.Keys, t.sccMap.Keys), WalkOf(t, stack, pending, par), next)
    ensures EntriesSeen(x.g, t.num, entries, left) && WellFormed(x.g) && Sound(x.g, t)
    ensures AllSCCs(x.g, t.sccMap) && LeavesExact(x.g, t.sccMap, leaves')
  {
    hide WalkInv, LeavesExact, Listed, Setting, Complete, Results, IsLeaf, WellFormed, EntriesSeen, LeafLinks, ParentLinks, Distributed;
    OutcomeWalk(x, t, g, u, stack, pending, par, next, entries, left);
    OutcomeSCCs(x, t.sccMap, t.nodes.Keys, results, g, u);
    OldSCCs(x, t, results, parents, leaves);
    CompWasSCC(x, g);
    OutcomeLeaves(x, t.sccMap, t.nodes.Keys, results, g, u, leaves, leaves');
  }

  lemma CompWasSCC(x: Repair, g: Graph)
    requires Setting(x) && AllSCCs(g, x.before.sccMap)
    ensures IsSCC(g, x.comp)
  {
  }

  // ---------------------------------------------------------------- what the repair promises

  /**
   How the members of SCC `c` of `m0` are distributed in `m` now that the graph is `g`: those that still
   reach `callee` have stayed in `c`, the others form the new SCCs `results`, listed callees first.
   */
  ghost predicate SplitOff(g: Graph, m0: map<Node, SCC>, m: map<Node, SCC>, c: SCC, callee: Node, results: seq<SCC>) {
    && m.Keys == m0.Keys
    && (forall v :: v in m0 && m0[v] != c ==> m[v] == m0[v])
    && (forall v :: v in m0 && m0[v] == c ==> if Reach(g, v, callee) then m[v] == c else m[v] in results)
    && (forall r :: r in results ==> r !in m0.Values && IsSCC(g, Members(m, r)))
    && (forall j, k :: 0 <= j < k < |results| ==> results[j] != results[k])
    && (forall k, u, v {:trigger m[u], results[k], Reach(g, u, v)} ::
      0 <= k < |results| && u in m && m[u] == results[k] && Reach(g, u, v) && v in m0 && m0[v] == c
      ==> m[v] in results[..k + 1])
  }

  /** What is left of `c` leads to everything that has been split off: the callee is in it. */
  lemma KeptIsRoot(g0: Graph, g: Graph, u: Node, m0: map<Node, SCC>, m: map<Node, SCC>, c: SCC, callee: Node, results: seq<SCC>)
    requires EdgeRemoved(g0, g, u, callee) && AllSCCs(g0, m0) && callee in m0 && m0[callee] == c
    requires SplitOff(g, m0, m, c, callee, results)
    ensures callee in m && m[callee] == c && forall v :: v in m && m[v] in results ==> Reach(g, callee, v)
  {
    hide IsSCC;
    ReachRefl(g, callee);
    forall v | v in m && m[v] in results ensures Reach(g, callee, v) {
      assert v in Members(m0, c) && callee in Members(m0, c);
      TargetReachesAll(g0, g, u, callee, Members(m0, c), v);
    }
  }

  /** The new SCCs and `c` are exactly where they belong in the parent sets; the others are where they were. */
  ghost predicate Relinked(g0: Graph, g: Graph, m0: map<Node, SCC>, m: map<Node, SCC>, was: map<SCC, set<SCC>>,
                           parents: map<SCC, set<SCC>>, c: SCC, results: seq<SCC>)
  {
    && (forall r :: r in results ==> OutgoingExact(g, m, parents, r))
    && (OutgoingExact(g0, m0, was, c) ==> OutgoingExact(g, m, parents, c))
    && (forall y, d :: y in parents && d !in results && d != c ==> (d in parents[y] <==> y in was && d in was[y]))
  }

  lemma RepairSplitOff(x: Repair, m: map<Node, SCC>, sccs: set<SCC>, results: seq<SCC>)
    requires Complete(x, m, results) && Results(x, m, sccs, results) && m.Keys == x.before.sccMap.Keys
    ensures SplitOff(x.g, x.before.sccMap, m, x.c, x.callee, results)
  {
    hide IsSCC, Reach, Closed;
    forall v | v in x.before.sccMap && x.before.sccMap[v] == x.c
      ensures v !in x.below && if Reach(x.g, v, x.callee) then m[v] == x.c else m[v] in results
    {
      KeptMembers(x, m, results, v);
    }
    OldNumbers(x);
    hide Sound, Setting;
  }

  lemma OldNumbers(x: Repair)
    requires Setting(x)
    ensures forall r :: r !in x.before.nodes ==> r !in x.before.sccMap.Values
    ensures x.comp == Members(x.before.sccMap, x.c)
  {
  }

  lemma RepairRelinked(x: Repair, t: Tables, g: Graph, u: Node, w: Walk, next: int, results: seq<SCC>,
                       parents: map<SCC, set<SCC>>, parents': map<SCC, set<SCC>>, leaves: seq<SCC>, hit: set<SCC>, erased: set<SCC>)
    requires Repairing(x, t, w, next, results, parents, leaves, erased)
    requires Complete(x, t.sccMap, results) && t.sccMap.Keys == x.before.sccMap.Keys
    requires EdgeRemoved(g, x.g, u, x.callee) && u in x.comp
    requires Entered(parents, parents', x.c, hit) && forall d :: d in hit <==> d != x.c && Calls(x.g, t.sccMap, x.c, d)
    ensures Relinked(g, x.g, x.before.sccMap, t.sccMap, x.was, parents', x.c, results)
  {
    hide Sound, Distributed, OthersNumbered, Results, LeafLinks, WalkInv, EdgeRemoved, Erased;
    forall r | r in results ensures OutgoingExact(x.g, t.sccMap, parents', r) {
      CNoResult(x, t.sccMap, results);
      OutcomeResultParents(x, t.sccMap, t.nodes.Keys, results, r, parents, parents', hit);
    }
    SettingFacts(x);
    ShapeOf(RepairArea(x, t.sccMap, results), w, next);
    if OutgoingExact(g, x.before.sccMap, x.was, x.c) {
      hide Setting, Complete, ParentLinks, OutgoingExact;
      OutcomeKeptParents(x, t.sccMap, w, t.nodes.Keys, results, g, u, parents, parents', hit, erased);
    }
  }

  lemma CNoResult(x: Repair, m: map<Node, SCC>, results: seq<SCC>)
    requires Complete(x, m, results)
    ensures x.c !in results
  {
  }

  /** No SCC outside `c` calls a node that was split off `c`. */
  ghost predicate NoCallsSplitOff(g: Graph, m0: map<Node, SCC>, c: SCC, callee: Node) {
    forall a, b :: Edge(g, a, b) && a in m0 && b in m0 && m0[a] != c && m0[b] == c ==> Reach(g, b, callee)
  }

  /** What an SCC outside the component calls after the removal. */
  lemma OuterCalls(g0: Graph, g: Graph, u: Node, callee: Node, m0: map<Node, SCC>, m: map<Node, SCC>, c: SCC,
                   results: seq<SCC>, d: SCC, y: SCC)
    requires EdgeRemoved(g0, g, u, callee) && u in m0 && m0[u] == c && SplitOff(g, m0, m, c, callee, results) && c !in results
    requires NoCallsSplitOff(g, m0, c, callee) && d != c && d !in results
    ensures Calls(g, m, d, y) <==> y !in results && Calls(g0, m0, d, y)
  {
    hide Reach, IsSCC;
    if a :| a in m && m[a] == d && NodeCalls(g, m, a, y) {
      var b :| Edge(g, a, b) && b in m && m[b] == y;
      EdgesLeft(g0, g, u, callee, a, b);
      assert m0[a] == d;
      assert m0[b] == c ==> Reach(g, b, callee);
      assert m0[b] == y;
      assert NodeCalls(g0, m0, a, y);
    }
    if y !in results {
      if a :| a in m0 && m0[a] == d && NodeCalls(g0, m0, a, y) {
        var b :| Edge(g0, a, b) && b in m0 && m0[b] == y;
        EdgesLeft(g0, g, u, callee, a, b);
        assert m[a] == d;
        assert m0[b] == c ==> Reach(g, b, callee);
        assert NodeCalls(g, m, a, y);
      }
    }
  }

  lemma ExactIfNoneCalled(g0: Graph, g: Graph, u: Node, callee: Node, m0: map<Node, SCC>, m: map<Node, SCC>,
                          sccs0: set<SCC>, was: map<SCC, set<SCC>>, parents: map<SCC, set<SCC>>, c: SCC, results: seq<SCC>)
    requires EdgeRemoved(g0, g, u, callee) && u in m0 && m0[u] == c
    requires SplitOff(g, m0, m, c, callee, results) && Relinked(g0, g, m0, m, was, parents, c, results)
    requires ParentsOf(g0, m0, sccs0, was) && c in sccs0
    requires forall r :: r in results ==> r !in sccs0
    requires forall y :: y in parents <==> y in sccs0 || y in results
    requires NoCallsSplitOff(g, m0, c, callee)
    ensures ParentsOf(g, m, parents.Keys, parents)
  {
    hide SplitOff, NoCallsSplitOff, EdgeRemoved, Calls;
    forall y, d | y in parents ensures d in parents[y] <==> d != y && Calls(g, m, d, y) {
      if d in results || d == c {
        assert OutgoingExact(g0, m0, was, c);
        assert OutgoingExact(g, m, parents, d);
      } else {
        OuterCalls(g0, g, u, callee, m0, m, c, results, d, y);
      }
    }
  }

  lemma NotExactIfCalled(g0: Graph, g: Graph, callee: Node, m0: map<Node, SCC>, m: map<Node, SCC>,
                         sccs0: set<SCC>, was: map<SCC, set<SCC>>, parents: map<SCC, set<SCC>>, c: SCC, results: seq<SCC>)
    requires SplitOff(g, m0, m, c, callee, results) && Relinked(g0, g, m0, m, was, parents, c, results)
    requires ParentsOf(g0, m0, sccs0, was) && !NoCallsSplitOff(g, m0, c, callee)
    requires forall r :: r in results ==> r !in sccs0
    requires forall y :: y in parents <==> y in sccs0 || y in results
    ensures !ParentsOf(g, m, parents.Keys, parents)
  {
    hide Reach, IsSCC, OutgoingExact;
    var a, b :| Edge(g, a, b) && a in m0 && b in m0 && m0[a] != c && m0[b] == c && !Reach(g, b, callee);
    var d, y := m0[a], m[b];
    assert y in results && m[a] == d && d !in results;
    assert NodeCalls(g, m, a, y);
    assert Calls(g, m, d, y) && d !in parents[y];
  }

  /**
   The parent sets are exact after the removal just when no SCC outside `c` calls a node that was split
   off: such a call would need an entry that the repair does not make.
   */
  lemma ExactAfterRemoval(g0: Graph, g: Graph, u: Node, callee: Node, m0: map<Node, SCC>, m: map<Node, SCC>,
                          sccs0: set<SCC>, was: map<SCC, set<SCC>>, parents: map<SCC, set<SCC>>, c: SCC, results: seq<SCC>)
    requires EdgeRemoved(g0, g, u, callee) && u in m0 && m0[u] == c
    requires SplitOff(g, m0, m, c, callee, results) && Relinked(g0, g, m0, m, was, parents, c, results)
    requires ParentsOf(g0, m0, sccs0, was) && c in sccs0
    requires forall r :: r in results ==> r !in sccs0
    requires forall y :: y in parents <==> y in sccs0 || y in results
    ensures ParentsOf(g, m, parents.Keys, parents) <==> NoCallsSplitOff(g, m0, c, callee)
  {
    hide *;
    if NoCallsSplitOff(g, m0, c, callee) {
      ExactIfNoneCalled(g0, g, u, callee, m0, m, sccs0, was, parents, c, results);
    } else {
      NotExactIfCalled(g0, g, callee, m0, m, sccs0, was, parents, c, results);
    }
  }

  // Node 0 calls node 1; nodes 1 and 2 call each other, and the call from 1 to 2 is removed.
  const TWO_IN_CYCLE: Graph := map[0 := [1], 1 := [2], 2 := [1]]
  const CYCLE_BROKEN: Graph := map[0 := [1], 1 := [], 2 := [1]]

  lemma BrokenReach()
    ensures Reach(CYCLE_BROKEN, 2, 1) && Reach(CYCLE_BROKEN, 2, 2) && Reach(CYCLE_BROKEN, 1, 1)
    ensures forall v :: Reach(CYCLE_BROKEN, 1, v) ==> v == 1
  {
    ReachEdge(CYCLE_BROKEN, 2, 1);
    ReachRefl(CYCLE_BROKEN, 2);
    ReachRefl(CYCLE_BROKEN, 1);
    forall v | Reach(CYCLE_BROKEN, 1, v) ensures v == 1 {
      ReachStays(CYCLE_BROKEN, {1}, 1, v);
    }
  }

  /** The component before, and that all SCCs are right. */
  lemma CycleSCCs()
    ensures AllSCCs(TWO_IN_CYCLE, map[0 := 0, 1 := 1, 2 := 1])
  {
    var g := TWO_IN_CYCLE;
    ReachEdge(g, 1, 2);
    ReachEdge(g, 2, 1);
    ReachRefl(g, 0);
    ReachRefl(g, 1);
    ReachRefl(g, 2);
    forall u, v | u in {1, 2} && Reach(g, u, v) ensures v in {1, 2} {
      ReachStays(g, {1, 2}, u, v);
    }
    forall v | Reach(g, 0, v) ensures v in {0, 1, 2} {
      ReachStays(g, {0, 1, 2}, 0, v);
    }
    hide Reach;
    assert IsSCC(g, {0}) && IsSCC(g, {1, 2});
    assert Members(map[0 := 0, 1 := 1, 2 := 1], 0) == {0};
    assert Members(map[0 := 0, 1 := 1, 2 := 1], 1) == {1, 2};
  }

  lemma CycleSplits()
    ensures SplitOff(CYCLE_BROKEN, map[0 := 0, 1 := 1, 2 := 1], map[0 := 0, 1 := 2, 2 := 1], 1, 2, [2])
  {
    BrokenReach();
    hide Reach;
    assert Members(map[0 := 0, 1 := 2, 2 := 1], 2) == {1};
    assert IsSCC(CYCLE_BROKEN, {1});
  }

  lemma CycleParents()
    ensures ParentsOf(TWO_IN_CYCLE, map[0 := 0, 1 := 1, 2 := 1], {0, 1}, map[0 := {}, 1 := {0}])
  {
    var m0 := map[0 := 0, 1 := 1, 2 := 1];
    assert Edge(TWO_IN_CYCLE, 0, 1);
    assert NodeCalls(TWO_IN_CYCLE, m0, 0, 1);
  }

  /** After the repair SCC 1 has node 2 and SCC 2 has node 1. */
  lemma CycleCalls()
    ensures var m := map[0 := 0, 1 := 2, 2 := 1];
      forall d, y :: Calls(CYCLE_BROKEN, m, d, y) <==> y == 2 && (d == 0 || d == 1)
  {
    var m := map[0 := 0, 1 := 2, 2 := 1];
    assert Edge(CYCLE_BROKEN, 0, 1) && Edge(CYCLE_BROKEN, 2, 1);
    assert NodeCalls(CYCLE_BROKEN, m, 0, 2);
    assert NodeCalls(CYCLE_BROKEN, m, 2, 2);
  }

  /**
   The SCC of node 0 is entered at the kept SCC, where it no longer belongs, and not at the new SCC 2 that it calls.
   */
  lemma LinkMissing()
    ensures var m0, m := map[0 := 0, 1 := 1, 2 := 1], map[0 := 0, 1 := 2, 2 := 1];
            var was, parents := map[0 := {}, 1 := {0}], map[0 := {}, 1 := {0}, 2 := {1}];
      && EdgeRemoved(TWO_IN_CYCLE, CYCLE_BROKEN, 1, 2) && AllSCCs(TWO_IN_CYCLE, m0) && ParentsOf(TWO_IN_CYCLE, m0, {0, 1}, was)
      && SplitOff(CYCLE_BROKEN, m0, m, 1, 2, [2]) && Relinked(TWO_IN_CYCLE, CYCLE_BROKEN, m0, m, was, parents, 1, [2])
      && Calls(CYCLE_BROKEN, m, 0, 2) && 0 !in parents[2]
      && !Calls(CYCLE_BROKEN, m, 0, 1) && 0 in parents[1]
  {
    CycleSCCs();
    CycleSplits();
    CycleParents();
    CycleCalls();
    hide AllSCCs, SplitOff, ParentsOf, Calls;
  }

  // A cycle of three nodes whose call from 1 to 2 is removed.
  const RING: Graph := map[1 := [2], 2 := [3], 3 := [1]]
  const CHAIN: Graph := map[1 := [], 2 := [3], 3 := [1]]

  lemma ChainReach()
    ensures forall v :: Reach(CHAIN, 1, v) ==> v == 1
    ensures forall v :: Reach(CHAIN, 3, v) ==> v == 1 || v == 3
    ensures Reach(CHAIN, 1, 1) && Reach(CHAIN, 2, 2) && Reach(CHAIN, 3, 3)
  {
    ReachRefl(CHAIN, 1);
    ReachRefl(CHAIN, 2);
    ReachRefl(CHAIN, 3);
    forall v | Reach(CHAIN, 1, v) ensures v == 1 {
      ReachStays(CHAIN, {1}, 1, v);
    }
    forall v | Reach(CHAIN, 3, v) ensures v == 1 || v == 3 {
      ReachStays(CHAIN, {1, 3}, 3, v);
    }
  }

  lemma ChainSCCs()
    ensures IsSCC(CHAIN, Members(map[1 := 1, 2 := 0, 3 := 2], 1)) && IsSCC(CHAIN, Members(map[1 := 1, 2 := 0, 3 := 2], 2))
  {
    ChainReach();
    hide Reach;
    assert Members(map[1 := 1, 2 := 0, 3 := 2], 1) == {1} && Members(map[1 := 1, 2 := 0, 3 := 2], 2) == {3};
  }

  lemma ChainSplits()
    ensures SplitOff(CHAIN, map[1 := 0, 2 := 0, 3 := 0], map[1 := 1, 2 := 0, 3 := 2], 0, 2, [1, 2])
  {
    ChainReach();
    ChainSCCs();
    hide Reach, IsSCC, Members;
    var m, results := map[1 := 1, 2 := 0, 3 := 2], [1, 2];
    forall k, u, v | 0 <= k < 2 && u in m && m[u] == results[k] && Reach(CHAIN, u, v) && v in m ensures m[v] in results[..k + 1] {
      if k == 0 {
        assert u == 1 && results[..k + 1] == [1];
      } else {
        assert u == 3 && results[..k + 1] == [1, 2];
      }
    }
  }

  /** What is left of the SCC leads to all new ones but need not call each of them itself. */
  lemma RootNotParent()
    ensures var m0, m := map[1 := 0, 2 := 0, 3 := 0], map[1 := 1, 2 := 0, 3 := 2];
      && EdgeRemoved(RING, CHAIN, 1, 2) && SplitOff(CHAIN, m0, m, 0, 2, [1, 2])
      && !Calls(CHAIN, m, 0, 1)
  {
    ChainSplits();
    hide SplitOff;
    assert forall d :: NodeCalls(CHAIN, map[1 := 1, 2 := 0, 3 := 2], 2, d) ==> d == 2;
  }

  // ---------------------------------------------------------------- glue for the class

  lemma SettingSound(x: Repair)
    requires Setting(x)
    ensures Sound(x.g, x.before) && x.comp == Members(x.before.sccMap, x.c)
  {
  }

  lemma CompVisited(x: Repair, t: Tables, w: Walk, next: int, results: seq<SCC>, parents: map<SCC, set<SCC>>,
                    leaves: seq<SCC>, erased: set<SCC>)
    requires Repairing(x, t, w, next, results, parents, leaves, erased)
    ensures x.comp <= t.num.Keys
  {
  }

  lemma RepairingParts(x: Repair, t: Tables, w: Walk, next: int, results: seq<SCC>, parents: map<SCC, set<SCC>>,
                       leaves: seq<SCC>, erased: set<SCC>)
    requires Repairing(x, t, w, next, results, parents, leaves, erased)
    ensures Repaired(x, t, results, parents, leaves)
  {
  }

  lemma RemovalSetting(x: Repair, g: Graph, u: Node, w: Walk, next: int)
    requires EdgeRemoved(g, x.g, u, x.callee) && WellFormed(g) && Sound(g, x.before) && AllSCCs(g, x.before.sccMap)
    requires WalkInv(Area(g, g.Keys, x.before.sccMap.Keys), w, next)
    requires u in x.comp && x.callee in x.comp && x.comp == Members(x.before.sccMap, x.c) && x.below == Below(g, x.comp)
    requires KnownParents(x.before.nodes.Keys, x.was)
    requires LeavesExact(g, x.before.sccMap, x.leaves)
    ensures Setting(x) && x.c in x.before.nodes
  {
    hide WalkInv, IsLeaf, Below, IsSCC;
    SCCsClosed(Area(g, g.Keys, x.before.sccMap.Keys), w, next);
    assert x.before.sccMap[x.callee] == x.c;
    RepairSetting(g, x.g, u, x.callee, x.before, x.c, x.was, x.leaves);
  }

  lemma RemovedEdge(x: Repair, g: Graph, u: Node, stack: seq<(Node, nat)>, pending: seq<Node>, par: map<Node, Node>,
                    next: int, entries: set<Node>, left: seq<Node>)
    requires WasValid(x, g, u, stack, pending, par, next, entries, left)
    ensures EdgeRemoved(g, x.g, u, x.callee) && u in x.comp
  {
  }

  lemma KnownRepaired(x: Repair, t: Tables, results: seq<SCC>, parents: map<SCC, set<SCC>>, leaves: seq<SCC>)
    requires Repaired(x, t, results, parents, leaves)
    ensures KnownParents(t.nodes.Keys, parents) && Results(x, t.sccMap, t.nodes.Keys, results)
    ensures t.nodes.Keys == x.before.nodes.Keys + Elements(results) && Elements(results) !! x.before.nodes.Keys
  {
    hide Calls, IsLeaf, IsSCC, Reach, Listed, Distributed;
  }

  /** All that the removal promises, once what is left of `c` has been linked again. */
  lemma SplitDone(x: Repair, t: Tables, g: Graph, u: Node, w: Walk, next1: int, results: seq<SCC>, parents: map<SCC, set<SCC>>,
                  parents': map<SCC, set<SCC>>, leaves: seq<SCC>, leaves': seq<SCC>, hit: set<SCC>, erased: set<SCC>,
                  stack: seq<(Node, nat)>, pending: seq<Node>, par: map<Node, Node>, next: int, entries: set<Node>, left: seq<Node>)
    requires WasValid(x, g, u, stack, pending, par, next, entries, left)
    requires Repairing(x, t, w, next1, results, parents, leaves, erased)
    requires Complete(x, t.sccMap, results) && t.sccMap.Keys == x.before.sccMap.Keys
    requires Entered(parents, parents', x.c, hit) && forall d :: d in hit <==> d != x.c && Calls(x.g, t.sccMap, x.c, d)
    requires forall d :: d in leaves' <==> d in leaves && !(d == x.c && results != [] && !IsLeaf(x.g, t.sccMap, x.c))
    requires NoRepeats(leaves) ==> NoRepeats(leaves')
    ensures WalkInv(Area(x.g, x.g.Keys, t.sccMap.Keys), WalkOf(t, stack, pending, par), next)
    ensures EntriesSeen(x.g, t.num, entries, left) && WellFormed(x.g) && Sound(x.g, t)
    ensures AllSCCs(x.g, t.sccMap) && LeavesExact(x.g, t.sccMap, leaves')
    ensures SplitOff(x.g, x.before.sccMap, t.sccMap, x.c, x.callee, results)
    ensures Relinked(g, x.g, x.before.sccMap, t.sccMap, x.was, parents', x.c, results)
    ensures t.nodes.Keys == x.before.nodes.Keys + Elements(results) && Elements(results) !! x.before.nodes.Keys
  {
    hide WalkInv, Sound, AllSCCs, LeavesExact, EntriesSeen, WellFormed, Repairing, Setting, Complete, Repaired, Entered, Calls, WasValid,
      SplitOff, Relinked, IsLeaf, Results, WalkOf, KnownParents;
    RepairingParts(x, t, w, next1, results, parents, leaves, erased);
    KnownRepaired(x, t, results, parents, leaves);
    RepairEnd(x, t, g, u, results, parents, leaves, leaves', stack, pending, par, next, entries, left);
    RepairSplitOff(x, t.sccMap, t.nodes.Keys, results);
    RemovedEdge(x, g, u, stack, pending, par, next, entries, left);
    RepairRelinked(x, t, g, u, w, next1, results, parents, parents', leaves, hit, erased);
  }

  // ---------------------------------------------------------------- an edge from a node to itself

  /** Nothing is reached only through an edge from a node to itself. */
  lemma {:induction false} ReachWithoutSelf(g: Graph, g': Graph, u: Node, p: seq<Node>)
    requires EdgeRemoved(g, g', u, u) && IsPath(g, p)
    ensures Reach(g', p[0], p[|p| - 1])
    decreases |p|
  {
    if |p| == 1 {
      ReachRefl(g', p[0]);
    } else {
      var q := p[1..];
      assert Edge(g, p[0], p[0 + 1]);
      forall k | 0 <= k < |q| - 1 ensures Edge(g, q[k], q[k + 1]) {
        assert Edge(g, p[k + 1], p[k + 1 + 1]);
      }
      ReachWithoutSelf(g, g', u, q);
      EdgesLeft(g, g', u, u, p[0], p[1]);
      if p[0] != p[1] {
        ReachEdge(g', p[0], p[1]);
        ReachTrans(g', p[0], p[1], p[|p| - 1]);
      }
    }
  }

  lemma SameReach(g: Graph, g': Graph, u: Node, a: Node, b: Node)
    requires EdgeRemoved(g, g', u, u)
    ensures Reach(g', a, b) <==> Reach(g, a, b)
  {
    if Reach(g', a, b) {
      ReachBefore(g, g', u, u, a, b);
    }
    if p :| PathFromTo(g, p, a, b) {
      ReachWithoutSelf(g, g', u, p);
    }
  }

  lemma SelfCalls(g: Graph, g': Graph, u: Node, m: map<Node, SCC>, c: SCC, d: SCC)
    requires EdgeRemoved(g, g', u, u) && c != d
    ensures Calls(g', m, c, d) <==> Calls(g, m, c, d)
  {
    if a :| a in m && m[a] == c && NodeCalls(g, m, a, d) {
      var b :| Edge(g, a, b) && b in m && m[b] == d;
      EdgesLeft(g, g', u, u, a, b);
      assert NodeCalls(g', m, a, d);
    }
    if a :| a in m && m[a] == c && NodeCalls(g', m, a, d) {
      var b :| Edge(g', a, b) && b in m && m[b] == d;
      EdgesLeft(g, g', u, u, a, b);
      assert NodeCalls(g, m, a, d);
    }
  }

  lemma SelfOutcome(g: Graph, g': Graph, u: Node, t: Tables, w: Walk, next: int, entries: set<Node>, left: seq<Node>,
                    leaves: seq<SCC>)
    requires EdgeRemoved(g, g', u, u) && WellFormed(g) && Sound(g, t) && u in t.sccMap
    requires AllSCCs(g, t.sccMap) && LeavesExact(g, t.sccMap, leaves) && EntriesSeen(g, t.num, entries, left)
    requires WalkInv(Area(g, g.Keys, t.sccMap.Keys), w, next) && w.num == t.num && w.low == t.low
    ensures WellFormed(g') && Sound(g', t) && AllSCCs(g', t.sccMap) && LeavesExact(g', t.sccMap, leaves)
    ensures EntriesSeen(g', t.num, entries, left) && WalkInv(Area(g', g'.Keys, t.sccMap.Keys), w, next)
  {
    hide WalkInv, Reach, Listed;
    WalkGoesOn(g, g', u, u, t.sccMap.Keys, w, w, next);
    forall a, b ensures Reach(g', a, b) <==> Reach(g, a, b) {
      SameReach(g, g', u, a, b);
    }
    forall a, b | Edge(g', a, b) ensures b in g' {
      EdgesLeft(g, g', u, u, a, b);
    }
    hide EdgeRemoved, Calls, EntriesSeen;
    forall c ensures IsLeaf(g', t.sccMap, c) <==> IsLeaf(g, t.sccMap, c) {
      forall d | d != c ensures Calls(g', t.sccMap, c, d) <==> Calls(g, t.sccMap, c, d) {
        SelfCalls(g, g', u, t.sccMap, c, d);
      }
    }
  }
}
